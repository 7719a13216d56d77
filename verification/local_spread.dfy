/**
 * cpumask_local_spread and its helpers from lib/cpumask.c: choosing the i-th
 * CPU under a NUMA-aware policy. CPUs of the given node come first, then the
 * CPUs of the other nodes, nearest node first, and finally all online CPUs.
 *
 * The machine is a `Topology`: the online mask, the node count, and the two
 * platform hooks cpumask_of_node and node_distance as plain functions. The
 * static scratch arrays node_dist[] and used[] of the source become values
 * threaded through the functions, so the spinlock guarding them disappears.
 */
module LocalSpread {
  import opened CpuMask

  /** NUMA_NO_NODE: "no locality preference". */
  const NUMA_NO_NODE: int := -1

  datatype Topology = Topology(
    nbits: nat,                  // nr_cpu_ids
    online: Mask,                // cpu_online_mask
    nrNodeIds: nat,              // nr_node_ids
    maxNumNodes: nat,            // MAX_NUMNODES, the size of the scratch arrays
    nodeMask: int -> Mask,       // cpumask_of_node
    distance: (int, int) -> int) // node_distance

  /** num_online_cpus(). */
  function NumOnline(t: Topology): nat {
    Weight(t.online, t.nbits)
  }

  /** The online CPUs, ascending: what for_each_cpu(cpu, cpu_online_mask) visits. */
  function OnlineCpus(t: Topology): seq<nat> {
    ForEachCpu(t.online, t.nbits)
  }

  /** The online CPUs of one node: for_each_cpu_and(cpu, cpumask_of_node(id), cpu_online_mask). */
  function NodeOnlineCpus(t: Topology, id: int): seq<nat> {
    ForEachCpuAnd(t.nodeMask(id), t.online, t.nbits)
  }

  /**
   * The outcome of one `if (i-- == 0) return cpu;` loop: either the CPU it
   * returned, or the value of the countdown once the loop ran out.
   */
  datatype Countdown = Found(cpu: nat) | Remaining(left: nat)

  /** One countdown loop over `cpus`, starting from `i`. */
  function Scan(cpus: seq<nat>, i: nat): (r: Countdown)
    ensures i < |cpus| ==> r == Found(cpus[i])
    ensures |cpus| <= i ==> r == Remaining(i - |cpus|)
  {
    if cpus == [] then Remaining(i)
    else if i == 0 then Found(cpus[0])
    else Scan(cpus[1..], i - 1)
  }

  /** calc_node_distance: the distance from `node` to every node id. */
  function CalcNodeDistance(t: Topology, node: int): (dist: seq<int>)
    ensures |dist| == t.nrNodeIds
    ensures forall k :: 0 <= k < |dist| ==> dist[k] == t.distance(node, k)
  {
    seq(t.nrNodeIds, k => t.distance(node, k))
  }

  /**
   * Node `a` is at least as near as node `b`, ties going to the lower id:
   * the order find_nearest_node picks in.
   */
  ghost predicate NoFarther(dist: seq<int>, a: nat, b: nat)
    requires a < |dist| && b < |dist|
  {
    dist[a] < dist[b] || (dist[a] == dist[b] && a <= b)
  }

  /** Every node below `hi` has been used. */
  ghost predicate AllUsedBelow(used: seq<bool>, hi: nat)
    requires hi <= |used|
  {
    forall k :: 0 <= k < hi ==> used[k]
  }

  /** The first loop of find_nearest_node: the first unused node at or after `i`. */
  function FirstUnused(used: seq<bool>, i: nat): (r: int)
    requires i <= |used|
    ensures r == -1 <==> forall k :: i <= k < |used| ==> used[k]
    ensures r != -1 ==> i <= r < |used| && !used[r] && forall k :: i <= k < r ==> used[k]
    decreases |used| - i
  {
    if i == |used| then -1
    else if !used[i] then i
    else FirstUnused(used, i + 1)
  }

  /**
   * The second loop of find_nearest_node, from index `i`, holding the
   * candidate `nodeId` at distance `minDist`. Its requires are the loop
   * invariant: the candidate is unused, no scanned unused node beats it, and
   * every unused node below it has been scanned.
   */
  function NearestFrom(dist: seq<int>, used: seq<bool>, i: nat, nodeId: nat, minDist: int): (r: nat)
    requires |dist| == |used| && i <= |used| && nodeId < |used|
    requires !used[nodeId] && minDist == dist[nodeId]
    requires forall k :: 0 <= k < i && !used[k] ==> NoFarther(dist, nodeId, k)
    requires forall k :: 0 <= k < nodeId && !used[k] ==> k < i
    ensures r < |used| && !used[r]
    ensures forall k :: 0 <= k < |used| && !used[k] ==> NoFarther(dist, r, k)
    decreases |used| - i
  {
    if i == |used| then nodeId
    else if dist[i] < minDist && !used[i] then
      assert forall k :: 0 <= k < i && !used[k] ==> NoFarther(dist, nodeId, k) && NoFarther(dist, i, k);
      NearestFrom(dist, used, i + 1, i, dist[i])
    else
      NearestFrom(dist, used, i + 1, nodeId, minDist)
  }

  /**
   * find_nearest_node: the unused node nearest to the local one, the lowest
   * id among equally near ones, or -1 exactly when every node is used.
   */
  function FindNearestNode(dist: seq<int>, used: seq<bool>): (r: int)
    requires |dist| == |used|
    ensures r == -1 <==> AllUsedBelow(used, |used|)
    ensures r != -1 ==> 0 <= r < |used| && !used[r]
    ensures r != -1 ==> forall k :: 0 <= k < |used| && !used[k] ==> NoFarther(dist, r, k)
  {
    var first := FirstUnused(used, 0);
    if first == -1 then -1
    else NearestFrom(dist, used, 0, first, dist[first])
  }

  /** At most one unused node is the nearest in the NoFarther order. */
  lemma NearestUnique(dist: seq<int>, used: seq<bool>, a: nat, b: nat)
    requires |dist| == |used| && a < |used| && b < |used|
    requires !used[a] && !used[b]
    requires forall k :: 0 <= k < |used| && !used[k] ==> NoFarther(dist, a, k)
    requires forall k :: 0 <= k < |used| && !used[k] ==> NoFarther(dist, b, k)
    ensures a == b
  {
    assert NoFarther(dist, a, b) && NoFarther(dist, b, a);
  }

  /** The number of nodes not yet used. */
  function CountUnused(used: seq<bool>): (n: nat)
    ensures n <= |used|
  {
    if used == [] then 0
    else (if used[0] then 0 else 1) + CountUnused(used[1..])
  }

  lemma {:induction false} CountUnusedZero(used: seq<bool>)
    ensures CountUnused(used) == 0 <==> AllUsedBelow(used, |used|)
  {
    if used != [] {
      var tail := used[1..];
      CountUnusedZero(tail);
      assert forall k :: 1 <= k < |used| ==> used[k] == tail[k - 1];
    }
  }

  /** Marking an unused node as used leaves one fewer unused node. */
  lemma {:induction false} MarkUsedCount(used: seq<bool>, id: nat)
    requires id < |used| && !used[id]
    ensures CountUnused(used[id := true]) == CountUnused(used) - 1
  {
    if id > 0 {
      assert used[id := true][1..] == used[1..][id - 1 := true];
      MarkUsedCount(used[1..], id - 1);
    } else {
      assert used[id := true][1..] == used[1..];
    }
  }

  /** No node is used: how the scratch array starts after memset. */
  function NoneUsed(n: nat): (used: seq<bool>)
    ensures |used| == n && forall k :: 0 <= k < n ==> !used[k]
  {
    seq(n, _ => false)
  }

  lemma {:induction false} NoneUsedCount(n: nat)
    ensures CountUnused(NoneUsed(n)) == n
  {
    if n > 0 {
      assert NoneUsed(n)[1..] == NoneUsed(n - 1);
      NoneUsedCount(n - 1);
    }
  }

  /**
   * The order in which the nearest-first loop takes the nodes: repeatedly
   * the nearest unused node, until none is left.
   */
  function NodeOrder(dist: seq<int>, used: seq<bool>): (order: seq<nat>)
    requires |dist| == |used|
    decreases CountUnused(used)
  {
    var id := FindNearestNode(dist, used);
    if id == -1 then []
    else
      MarkUsedCount(used, id);
      [id] + NodeOrder(dist, used[id := true])
  }

  /** `order` holds exactly the unused nodes. */
  ghost predicate ExactlyUnused(order: seq<nat>, used: seq<bool>) {
    forall x: nat :: x in order <==> x < |used| && !used[x]
  }

  /** No entry of `order` repeats. */
  ghost predicate Distinct(order: seq<nat>) {
    forall a, b :: 0 <= a < b < |order| ==> order[a] != order[b]
  }

  /** `order` runs nearest first, ties to the lower id. */
  ghost predicate NearestFirst(dist: seq<int>, order: seq<nat>) {
    && (forall k :: 0 <= k < |order| ==> order[k] < |dist|)
    && (forall a, b :: 0 <= a < b < |order| ==> NoFarther(dist, order[a], order[b]))
  }

  /** NodeOrder takes exactly the unused nodes. */
  lemma {:induction false} NodeOrderExact(dist: seq<int>, used: seq<bool>)
    requires |dist| == |used|
    ensures ExactlyUnused(NodeOrder(dist, used), used)
    decreases CountUnused(used)
  {
    var id := FindNearestNode(dist, used);
    if id != -1 {
      var used' := used[id := true];
      MarkUsedCount(used, id);
      NodeOrderExact(dist, used');
      assert NodeOrder(dist, used) == [id] + NodeOrder(dist, used');
    } else {
      assert NodeOrder(dist, used) == [];
    }
  }

  /** NodeOrder never takes a node twice. */
  lemma {:induction false} NodeOrderDistinct(dist: seq<int>, used: seq<bool>)
    requires |dist| == |used|
    ensures Distinct(NodeOrder(dist, used))
    decreases CountUnused(used)
  {
    var order := NodeOrder(dist, used);
    var id := FindNearestNode(dist, used);
    if id != -1 {
      var used' := used[id := true];
      MarkUsedCount(used, id);
      NodeOrderDistinct(dist, used');
      NodeOrderExact(dist, used');
      var rest := NodeOrder(dist, used');
      assert order == [id] + rest;
      forall a, b | 0 <= a < b < |order|
        ensures order[a] != order[b]
      {
        assert order[b] == rest[b - 1] && rest[b - 1] in rest;
        if a > 0 {
          assert order[a] == rest[a - 1];
        }
      }
    }
  }

  /** NodeOrder runs nearest first, ties to the lower id. */
  lemma {:induction false} NodeOrderNearest(dist: seq<int>, used: seq<bool>)
    requires |dist| == |used|
    ensures NearestFirst(dist, NodeOrder(dist, used))
    decreases CountUnused(used)
  {
    var order := NodeOrder(dist, used);
    var id := FindNearestNode(dist, used);
    if id != -1 {
      var used' := used[id := true];
      MarkUsedCount(used, id);
      NodeOrderNearest(dist, used');
      NodeOrderExact(dist, used');
      var rest := NodeOrder(dist, used');
      assert order == [id] + rest;
      forall k | 0 <= k < |order|
        ensures order[k] < |dist|
      {
        if k > 0 {
          assert order[k] == rest[k - 1] && rest[k - 1] in rest;
        }
      }
      forall a, b | 0 <= a < b < |order|
        ensures NoFarther(dist, order[a], order[b])
      {
        assert order[b] == rest[b - 1] && rest[b - 1] in rest;
        if a > 0 {
          assert order[a] == rest[a - 1];
        }
      }
    }
  }

  /**
   * NodeOrder lists every unused node exactly once, sorted nearest first with
   * ties to the lower id.
   */
  lemma NodeOrderSorted(dist: seq<int>, used: seq<bool>)
    requires |dist| == |used|
    ensures ExactlyUnused(NodeOrder(dist, used), used)
    ensures Distinct(NodeOrder(dist, used))
    ensures NearestFirst(dist, NodeOrder(dist, used))
  {
    NodeOrderExact(dist, used);
    NodeOrderDistinct(dist, used);
    NodeOrderNearest(dist, used);
  }

  /** The online CPUs of each node of `order`, in that order. */
  function NodeCpus(t: Topology, order: seq<nat>): seq<nat> {
    if order == [] then [] else NodeOnlineCpus(t, order[0]) + NodeCpus(t, order[1..])
  }

  /** Every CPU NodeCpus lists is online and below the mask width. */
  lemma {:induction false} NodeCpusOnline(t: Topology, order: seq<nat>)
    ensures forall c :: c in NodeCpus(t, order) ==> c in t.online && c < t.nbits
  {
    if order != [] {
      NodeCpusOnline(t, order[1..]);
    }
  }

  /**
   * The nearest-first loop `for (j = 0; j < nr_node_ids; j++)` of
   * cpumask_local_spread, from iteration `j` with countdown `i`.
   */
  function SpreadNodes(t: Topology, dist: seq<int>, used: seq<bool>, j: nat, i: nat): (r: Countdown)
    requires |dist| == |used| == t.nrNodeIds
    ensures r.Found? ==> r.cpu in t.online && r.cpu < t.nbits
    ensures r.Remaining? ==> r.left <= i
    decreases t.nrNodeIds - j
  {
    if j >= t.nrNodeIds then Remaining(i)
    else
      var id := FindNearestNode(dist, used);
      if id < 0 then Remaining(i)
      else
        var cpus := NodeOnlineCpus(t, id);
        match Scan(cpus, i)
        case Found(cpu) =>
          assert cpu in cpus;
          Found(cpu)
        case Remaining(left) => SpreadNodes(t, dist, used[id := true], j + 1, left)
  }

  /**
   * Counting down node by node is one countdown over the concatenated node
   * lists; the `j < nr_node_ids` bound never cuts the walk short, because
   * each iteration uses up one node.
   */
  lemma {:induction false} SpreadNodesIsScan(t: Topology, dist: seq<int>, used: seq<bool>, j: nat, i: nat)
    requires |dist| == |used| == t.nrNodeIds
    requires j <= t.nrNodeIds && CountUnused(used) <= t.nrNodeIds - j
    ensures SpreadNodes(t, dist, used, j, i) == Scan(NodeCpus(t, NodeOrder(dist, used)), i)
    decreases t.nrNodeIds - j
  {
    var id := FindNearestNode(dist, used);
    if j >= t.nrNodeIds || id < 0 {
      CountUnusedZero(used);
      assert id == -1;
      assert NodeOrder(dist, used) == [];
      assert SpreadNodes(t, dist, used, j, i) == Remaining(i);
    } else {
      var cpus := NodeOnlineCpus(t, id);
      var used' := used[id := true];
      var rest := NodeCpus(t, NodeOrder(dist, used'));
      assert NodeOrder(dist, used) == [id] + NodeOrder(dist, used');
      assert NodeCpus(t, NodeOrder(dist, used)) == cpus + rest;
      ScanAppend(cpus, rest, i);
      if i < |cpus| {
        assert SpreadNodes(t, dist, used, j, i) == Found(cpus[i]);
      } else {
        assert SpreadNodes(t, dist, used, j, i) == SpreadNodes(t, dist, used', j + 1, i - |cpus|);
        MarkUsedCount(used, id);
        SpreadNodesIsScan(t, dist, used', j + 1, i - |cpus|);
      }
    }
  }

  /** Counting down over two lists is counting down over the first, then the rest over the second. */
  lemma ScanAppend(a: seq<nat>, b: seq<nat>, i: nat)
    ensures Scan(a + b, i) == if i < |a| then Found(a[i]) else Scan(b, i - |a|)
  {
    if i < |a| {
      assert (a + b)[i] == a[i];
    } else if i - |a| < |b| {
      assert (a + b)[i] == b[i - |a|];
    }
  }

  /**
   * The NUMA_NO_NODE branch of both spread functions: count `i` down over
   * the online CPUs. With i below the number of online CPUs the walk never
   * runs out, so BUG() is not reached.
   */
  function SpreadOnline(i: nat, t: Topology): (r: nat)
    requires i < NumOnline(t)
    ensures r in t.online && r < t.nbits
  {
    var online := OnlineCpus(t);
    var pick := Scan(online, i);
    assert pick.Found? && pick.cpu in online;
    pick.cpu
  }

  /**
   * __cpumask_local_spread: the fallback used when the node count exceeds
   * the scratch arrays. CPUs of the local node first, then the other online
   * CPUs (the `continue` skips local ones without counting them down).
   */
  function LocalSpreadFallback(i: nat, node: int, t: Topology): (r: nat)
    requires NumOnline(t) > 0
    ensures r in t.online && r < t.nbits
  {
    var i := i % NumOnline(t);
    if node == NUMA_NO_NODE then SpreadOnline(i, t)
    else
      var local := NodeOnlineCpus(t, node);
      match Scan(local, i)
      case Found(cpu) => assert cpu in local; cpu
      case Remaining(left) =>
        // BUG() after the second loop is unreachable: local and remote CPUs
        // together are exactly the online ones.
        var remote := SkipMask(OnlineCpus(t), t.nodeMask(node));
        RemoteCpus(t, node);
        LocalRemoteSplit(t.nodeMask(node), t.online, 0, t.nbits);
        var pick := Scan(remote, left);
        assert pick.Found? && pick.cpu in remote;
        pick.cpu
  }

  /** The CPUs of `cpus` outside `mask`, in order: a walk that skips with `continue`. */
  function SkipMask(cpus: seq<nat>, mask: Mask): (r: seq<nat>) {
    if cpus == [] then []
    else if cpus[0] in mask then SkipMask(cpus[1..], mask)
    else [cpus[0]] + SkipMask(cpus[1..], mask)
  }

  lemma {:induction false} SkipMaskMembers(m: Mask, mask: Mask, lo: nat, hi: nat)
    ensures SkipMask(Members(m, lo, hi), mask) == Members(m - mask, lo, hi)
    decreases hi - lo
  {
    if lo < hi {
      SkipMaskMembers(m, mask, lo + 1, hi);
      var rest := Members(m, lo + 1, hi);
      if lo in m {
        assert Members(m, lo, hi) == [lo] + rest;
        assert ([lo] + rest)[1..] == rest;
      }
    }
  }

  /** The skipping walk over the online CPUs visits exactly the online CPUs off the node. */
  lemma RemoteCpus(t: Topology, node: int)
    ensures SkipMask(OnlineCpus(t), t.nodeMask(node)) == Members(t.online - t.nodeMask(node), 0, t.nbits)
  {
    SkipMaskMembers(t.online, t.nodeMask(node), 0, t.nbits);
  }

  /** The CPUs of `a` split into those in `b` and those outside it. */
  lemma {:induction false} LocalRemoteSplit(b: Mask, a: Mask, lo: nat, hi: nat)
    ensures |Members(b * a, lo, hi)| + |Members(a - b, lo, hi)| == |Members(a, lo, hi)|
    decreases hi - lo
  {
    if lo < hi {
      LocalRemoteSplit(b, a, lo + 1, hi);
    }
  }

  /**
   * The locked part of cpumask_local_spread: count `i` down over the online
   * CPUs of each node, nearest node first, then over all online CPUs.
   */
  function SpreadNearest(i: nat, node: int, t: Topology): (r: nat)
    requires i < NumOnline(t)
    ensures r in t.online && r < t.nbits
  {
    var dist := CalcNodeDistance(t, node);
    match SpreadNodes(t, dist, NoneUsed(t.nrNodeIds), 0, i)
    case Found(cpu) => cpu
    case Remaining(left) => SpreadOnline(left, t)
  }

  /**
   * cpumask_local_spread(i, node): an online CPU chosen nearest-first from
   * `node`, counting `i` modulo the number of online CPUs. The source needs
   * at least one online CPU (it divides by num_online_cpus()).
   */
  function LocalSpread(i: nat, node: int, t: Topology): (r: nat)
    requires NumOnline(t) > 0
    ensures r in t.online && r < t.nbits
  {
    var i := i % NumOnline(t);
    if node == NUMA_NO_NODE then SpreadOnline(i, t)
    else if t.nrNodeIds > t.maxNumNodes then LocalSpreadFallback(i, node, t)
    else SpreadNearest(i, node, t)
  }

  /** The order cpumask_local_spread takes the nodes in, seen from `node`. */
  function NearestOrder(t: Topology, node: int): seq<nat> {
    NodeOrder(CalcNodeDistance(t, node), NoneUsed(t.nrNodeIds))
  }

  /**
   * Without a node, the i-th call answers the (i mod n)-th online CPU in
   * ascending order.
   */
  lemma NoNodeIsIndex(i: nat, t: Topology)
    requires NumOnline(t) > 0
    ensures LocalSpread(i, NUMA_NO_NODE, t) == Members(t.online, 0, t.nbits)[i % NumOnline(t)]
  {
  }

  /**
   * So i = 0 .. n-1 hand out every online CPU exactly once.
   */
  lemma NoNodeCoversOnline(t: Topology)
    requires NumOnline(t) > 0
    ensures forall i, j :: 0 <= i < j < NumOnline(t) ==>
              LocalSpread(i, NUMA_NO_NODE, t) != LocalSpread(j, NUMA_NO_NODE, t)
    ensures forall c :: c in t.online && c < t.nbits ==>
              exists i :: 0 <= i < NumOnline(t) && LocalSpread(i, NUMA_NO_NODE, t) == c
  {
    var s := Members(t.online, 0, t.nbits);
    forall i, j | 0 <= i < j < |s|
      ensures LocalSpread(i, NUMA_NO_NODE, t) != LocalSpread(j, NUMA_NO_NODE, t)
    {
      NoNodeAt(i, t);
      NoNodeAt(j, t);
    }
    forall c | c in t.online && c < t.nbits
      ensures exists i :: 0 <= i < NumOnline(t) && LocalSpread(i, NUMA_NO_NODE, t) == c
    {
      assert c in s;
      var i :| 0 <= i < |s| && s[i] == c;
      NoNodeAt(i, t);
    }
  }

  lemma NoNodeAt(i: nat, t: Topology)
    requires i < NumOnline(t)
    ensures LocalSpread(i, NUMA_NO_NODE, t) == Members(t.online, 0, t.nbits)[i]
  {
    var n := NumOnline(t);
    assert i % n == i by {
      ModBelow(i, n);
    }
    NoNodeIsIndex(i, t);
  }

  lemma ModBelow(i: nat, n: nat)
    requires i < n
    ensures i % n == i
  {
  }

  /**
   * With a node and enough scratch space, the call answers entry i mod n of
   * the node-by-node list (nearest node first), followed by all online CPUs.
   */
  lemma NearestFirstIsIndex(i: nat, node: int, t: Topology)
    requires NumOnline(t) > 0
    requires node != NUMA_NO_NODE && t.nrNodeIds <= t.maxNumNodes
    ensures var cands := NodeCpus(t, NearestOrder(t, node)) + Members(t.online, 0, t.nbits);
            i % NumOnline(t) < |cands| && LocalSpread(i, node, t) == cands[i % NumOnline(t)]
  {
    var dist := CalcNodeDistance(t, node);
    var k := i % NumOnline(t);
    var a := NodeCpus(t, NearestOrder(t, node));
    var b := Members(t.online, 0, t.nbits);
    assert LocalSpread(i, node, t) == SpreadNearest(k, node, t);
    NoneUsedCount(t.nrNodeIds);
    SpreadNodesIsScan(t, dist, NoneUsed(t.nrNodeIds), 0, k);
    ScanAppend(a, b, k);
    if k < |a| {
      assert SpreadNearest(k, node, t) == a[k] == (a + b)[k];
    } else {
      assert SpreadNearest(k, node, t) == SpreadOnline(k - |a|, t) == b[k - |a|] == (a + b)[k];
    }
  }

  /**
   * The nearest-first order takes every node id exactly once, by
   * non-decreasing distance from `node`, ties to the lower id.
   */
  lemma NearestOrderIsSorted(t: Topology, node: int)
    ensures var order := NearestOrder(t, node);
            && (forall x: nat :: x in order <==> x < t.nrNodeIds)
            && (forall a, b :: 0 <= a < b < |order| ==> order[a] != order[b])
            && (forall a, b :: 0 <= a < b < |order| ==>
                  t.distance(node, order[a]) < t.distance(node, order[b])
                  || (t.distance(node, order[a]) == t.distance(node, order[b]) && order[a] < order[b]))
  {
    var dist := CalcNodeDistance(t, node);
    var order := NearestOrder(t, node);
    NodeOrderSorted(dist, NoneUsed(t.nrNodeIds));
    forall a, b | 0 <= a < b < |order|
      ensures t.distance(node, order[a]) < t.distance(node, order[b])
              || (t.distance(node, order[a]) == t.distance(node, order[b]) && order[a] < order[b])
    {
      assert NoFarther(dist, order[a], order[b]);
      assert order[a] != order[b];
    }
  }

  /**
   * When `node` is a node id strictly nearer to itself than to any other
   * node (as node_distance promises), its online CPUs come first.
   */
  lemma LocalNodeFirst(i: nat, node: int, t: Topology)
    requires NumOnline(t) > 0
    requires 0 <= node < t.nrNodeIds <= t.maxNumNodes
    requires forall k :: 0 <= k < t.nrNodeIds && k != node ==> t.distance(node, node) < t.distance(node, k)
    requires i % NumOnline(t) < |NodeOnlineCpus(t, node)|
    ensures LocalSpread(i, node, t) == NodeOnlineCpus(t, node)[i % NumOnline(t)]
    ensures LocalSpread(i, node, t) in t.nodeMask(node)
  {
    var dist := CalcNodeDistance(t, node);
    var order := NearestOrder(t, node);
    NearestFirstIsIndex(i, node, t);
    NodeOrderSorted(dist, NoneUsed(t.nrNodeIds));
    assert order[0] == node by {
      assert node in order;
      var p :| 0 <= p < |order| && order[p] == node;
      assert order[0] < |dist|;
    }
    var cpus := NodeOnlineCpus(t, node);
    assert NodeCpus(t, order) == cpus + NodeCpus(t, order[1..]);
    assert cpus[i % NumOnline(t)] in cpus;
  }

  /**
   * In the fallback, the local-then-remote list holds every online CPU
   * exactly once, so i = 0 .. n-1 hand out each online CPU once, the local
   * node's ones first.
   */
  lemma FallbackIsIndex(i: nat, node: int, t: Topology)
    requires NumOnline(t) > 0 && node != NUMA_NO_NODE
    ensures var cands := Members(t.nodeMask(node) * t.online, 0, t.nbits)
                         + Members(t.online - t.nodeMask(node), 0, t.nbits);
            && |cands| == NumOnline(t)
            && (forall c :: c in cands <==> c in t.online && c < t.nbits)
            && LocalSpreadFallback(i, node, t) == cands[i % NumOnline(t)]
  {
    RemoteCpus(t, node);
    LocalRemoteSplit(t.nodeMask(node), t.online, 0, t.nbits);
  }

  /** The fallback's candidate list repeats no CPU. */
  lemma FallbackDistinct(node: int, t: Topology)
    ensures var cands := Members(t.nodeMask(node) * t.online, 0, t.nbits)
                         + Members(t.online - t.nodeMask(node), 0, t.nbits);
            forall a, b :: 0 <= a < b < |cands| ==> cands[a] != cands[b]
  {
    var local := Members(t.nodeMask(node) * t.online, 0, t.nbits);
    var remote := Members(t.online - t.nodeMask(node), 0, t.nbits);
    var cands := local + remote;
    forall a, b | 0 <= a < b < |cands|
      ensures cands[a] != cands[b]
    {
      if b < |local| {
      } else if a >= |local| {
        assert cands[a] == remote[a - |local|] && cands[b] == remote[b - |local|];
      } else {
        assert cands[a] == local[a] && local[a] in local;
        assert cands[b] == remote[b - |local|] && remote[b - |local|] in remote;
      }
    }
  }
}
