/**
 * cpumask_any_and_distribute from lib/cpumask.c: a picker that spreads
 * repeated requests over the CPUs common to two masks by remembering the CPU
 * it chose last (distribute_cpu_mask_prev, a per-CPU variable that starts at
 * 0; here one explicit state value).
 */
module Distribute {
  import opened CpuMask

  /** The remembered previous choice. */
  datatype Distributor = Distributor(prev: nat)

  /** The state before the first call: per-CPU variables start zeroed. */
  const Initial: Distributor := Distributor(0)

  /** One call's answer and the state it leaves behind. */
  datatype Pick = Pick(cpu: nat, after: Distributor)

  /**
   * cpumask_any_and_distribute: the first CPU of a & b after `prev`,
   * wrapping round to the first one; `nbits` or more when a & b is empty.
   * The state changes only when a CPU is found.
   */
  function AnyAndDistribute(d: Distributor, a: Mask, b: Mask, nbits: nat): (r: Pick)
    ensures r.cpu >= nbits <==> Members(a * b, 0, nbits) == []
    ensures r.cpu < nbits ==> r.cpu in a && r.cpu in b && r.after == Distributor(r.cpu)
    ensures r.cpu >= nbits ==> r.after == d
  {
    var found := NextAnd(d.prev, a, b, nbits);
    var next := if found >= nbits then NextAnd(-1, a, b, nbits) else found;
    EmptyMembers(a * b, nbits, NextAnd(-1, a, b, nbits));
    if next < nbits then Pick(next, Distributor(next)) else Pick(next, d)
  }

  /** A search from -1 finds nothing exactly when the mask has no CPU below nbits. */
  lemma EmptyMembers(m: Mask, nbits: nat, first: nat)
    requires IsNextAfter(-1, m, nbits, first)
    ensures first >= nbits <==> Members(m, 0, nbits) == []
  {
    var s := Members(m, 0, nbits);
    if s != [] {
      assert s[0] in s;
    }
    if first < nbits {
      assert first in s;
    }
  }

  /** How many entries of `s` are at most `p`. */
  function Rank(s: seq<nat>, p: int): (n: nat)
    ensures n <= |s|
  {
    if s == [] then 0
    else (if s[0] <= p then 1 else 0) + Rank(s[1..], p)
  }

  /** In an ascending list the entries at most `p` are exactly the first Rank(s, p). */
  lemma {:induction false} RankSplits(s: seq<nat>, p: int)
    requires StrictlyIncreasing(s)
    ensures forall k :: 0 <= k < |s| ==> (s[k] <= p <==> k < Rank(s, p))
  {
    if s != [] {
      var tail := s[1..];
      assert StrictlyIncreasing(tail) by {
        forall i, j | 0 <= i < j < |tail|
          ensures tail[i] < tail[j]
        {
          assert tail[i] == s[i + 1] && tail[j] == s[j + 1];
        }
      }
      RankSplits(tail, p);
      forall k | 0 <= k < |s|
        ensures s[k] <= p <==> k < Rank(s, p)
      {
        if k > 0 {
          assert s[k] == tail[k - 1];
          assert s[0] < s[k];
        }
      }
    }
  }

  /**
   * The index of the entry a search after `p` lands on: the first entry
   * above p, or entry 0 once the search wraps.
   */
  function Start(s: seq<nat>, p: int): (j: nat)
    ensures s != [] ==> j < |s|
  {
    if Rank(s, p) < |s| then Rank(s, p) else 0
  }

  /**
   * cpumask_next from `n` answers the entry of the ascending member list
   * right after those at most `n`, or nbits when there is none.
   */
  lemma NextIsRankEntry(m: Mask, nbits: nat, s: seq<nat>, n: int, c: nat)
    requires s == Members(m, 0, nbits)
    requires IsNextAfter(n, m, nbits, c)
    ensures Rank(s, n) < |s| ==> c == s[Rank(s, n)]
    ensures Rank(s, n) == |s| ==> c >= nbits
  {
    var j := Rank(s, n);
    RankSplits(s, n);
    if c < nbits {
      assert c in s;
      var q :| 0 <= q < |s| && s[q] == c;
      assert n < s[q];
    }
    if j < |s| {
      assert s[j] in s && n < s[j];
    }
  }

  /**
   * With I the CPUs of a & b ascending, a call picks I[Start(I, prev)]: the
   * first entry above prev, else the first entry.
   */
  lemma PickIsRankEntry(d: Distributor, a: Mask, b: Mask, nbits: nat, I: seq<nat>)
    requires I == Members(a * b, 0, nbits) && I != []
    ensures AnyAndDistribute(d, a, b, nbits).cpu == I[Start(I, d.prev)]
  {
    NextIsRankEntry(a * b, nbits, I, d.prev, NextAnd(d.prev, a, b, nbits));
    NextIsRankEntry(a * b, nbits, I, -1, NextAnd(-1, a, b, nbits));
    RankSplits(I, -1);
    assert I[0] in I;
    var j := Rank(I, d.prev);
    if j < |I| {
      assert I[j] in I;
    }
  }

  /** After picking entry j, the next call picks entry j + 1, or 0 after the last. */
  lemma NextPickFollows(d: Distributor, a: Mask, b: Mask, nbits: nat, I: seq<nat>)
    requires I == Members(a * b, 0, nbits) && I != []
    ensures var j := Start(I, d.prev);
            Start(I, AnyAndDistribute(d, a, b, nbits).after.prev) == (if j + 1 < |I| then j + 1 else 0)
  {
    var j := Start(I, d.prev);
    PickIsRankEntry(d, a, b, nbits, I);
    assert I[j] in I;
    RankSplits(I, I[j]);
    if j + 1 < |I| {
      assert I[j] < I[j + 1];
    }
  }

  /** The cpus picked by `k` successive calls from state `d`. */
  function Picks(d: Distributor, a: Mask, b: Mask, nbits: nat, k: nat): seq<nat>
    decreases k
  {
    if k == 0 then []
    else
      var r := AnyAndDistribute(d, a, b, nbits);
      [r.cpu] + Picks(r.after, a, b, nbits, k - 1)
  }

  /** (j + x) mod K for j < K and x <= K, without the division. */
  function Wrap(j: nat, x: nat, K: nat): nat
    requires j < K && x <= K
  {
    if j + x < K then j + x else j + x - K
  }

  /** One more call from the following index is one more step of Wrap. */
  lemma WrapFollows(j: nat, x: nat, K: nat)
    requires j < K && 0 < x <= K
    ensures Wrap(if j + 1 < K then j + 1 else 0, x - 1, K) == Wrap(j, x, K)
  {
  }

  /**
   * Successive calls walk the common CPUs round-robin: call x answers
   * I[(j0 + x) mod K], where j0 is the index of the first pick.
   */
  lemma {:induction false} PicksAt(d: Distributor, a: Mask, b: Mask, nbits: nat, I: seq<nat>, k: nat, x: nat)
    requires I == Members(a * b, 0, nbits) && I != []
    requires x < k && x <= |I|
    ensures x < |Picks(d, a, b, nbits, k)|
    ensures Picks(d, a, b, nbits, k)[x] == I[Wrap(Start(I, d.prev), x, |I|)]
    decreases x
  {
    var r := AnyAndDistribute(d, a, b, nbits);
    var rest := Picks(r.after, a, b, nbits, k - 1);
    var j := Start(I, d.prev);
    assert Picks(d, a, b, nbits, k) == [r.cpu] + rest;
    if x > 0 {
      var j' := Start(I, r.after.prev);
      NextPickFollows(d, a, b, nbits, I);
      assert j' == (if j + 1 < |I| then j + 1 else 0);
      PicksAt(r.after, a, b, nbits, I, k - 1, x - 1);
      assert rest[x - 1] == I[Wrap(j', x - 1, |I|)];
      WrapFollows(j, x, |I|);
      assert Picks(d, a, b, nbits, k)[x] == rest[x - 1];
    } else {
      PickIsRankEntry(d, a, b, nbits, I);
      assert Wrap(j, 0, |I|) == j;
    }
  }

  lemma {:induction false} PicksLength(d: Distributor, a: Mask, b: Mask, nbits: nat, k: nat)
    ensures |Picks(d, a, b, nbits, k)| == k
    decreases k
  {
    if k > 0 {
      PicksLength(AnyAndDistribute(d, a, b, nbits).after, a, b, nbits, k - 1);
    }
  }

  /** The first K of K + 1 successive calls are pairwise different. */
  lemma RotationDistinct(d: Distributor, a: Mask, b: Mask, nbits: nat, I: seq<nat>, ps: seq<nat>)
    requires I == Members(a * b, 0, nbits) && I != []
    requires ps == Picks(d, a, b, nbits, |I| + 1) && |ps| == |I| + 1
    ensures forall x, y :: 0 <= x < y < |I| ==> ps[x] != ps[y]
  {
    var K := |I|;
    var j := Start(I, d.prev);
    forall x, y | 0 <= x < y < K
      ensures ps[x] != ps[y]
    {
      PicksAt(d, a, b, nbits, I, K + 1, x);
      PicksAt(d, a, b, nbits, I, K + 1, y);
      assert Wrap(j, x, K) != Wrap(j, y, K);
    }
  }

  /** Every common CPU is among the first K of K + 1 successive calls. */
  lemma RotationCovers(d: Distributor, a: Mask, b: Mask, nbits: nat, I: seq<nat>, ps: seq<nat>)
    requires I == Members(a * b, 0, nbits) && I != []
    requires ps == Picks(d, a, b, nbits, |I| + 1) && |ps| == |I| + 1
    ensures forall c :: c in I ==> c in ps[..|I|]
  {
    var K := |I|;
    var j := Start(I, d.prev);
    forall c | c in I
      ensures c in ps[..K]
    {
      var q :| 0 <= q < K && I[q] == c;
      var x := if q >= j then q - j else q + K - j;
      PicksAt(d, a, b, nbits, I, K + 1, x);
      assert Wrap(j, x, K) == q;
      assert ps[..K][x] == ps[x];
    }
  }

  /**
   * K successive calls over K common CPUs hand out each of them exactly
   * once, and call K + 1 repeats the first.
   */
  lemma FairRotation(d: Distributor, a: Mask, b: Mask, nbits: nat, I: seq<nat>)
    requires I == Members(a * b, 0, nbits) && I != []
    ensures var ps := Picks(d, a, b, nbits, |I| + 1);
            && |ps| == |I| + 1
            && (forall x, y :: 0 <= x < y < |I| ==> ps[x] != ps[y])
            && (forall c :: c in I ==> c in ps[..|I|])
            && ps[|I|] == ps[0]
  {
    var K := |I|;
    var ps := Picks(d, a, b, nbits, K + 1);
    PicksLength(d, a, b, nbits, K + 1);
    RotationDistinct(d, a, b, nbits, I, ps);
    RotationCovers(d, a, b, nbits, I, ps);
    PicksAt(d, a, b, nbits, I, K + 1, 0);
    PicksAt(d, a, b, nbits, I, K + 1, K);
  }

  /**
   * Starting from the zeroed state the first pick skips CPU 0: it answers 0
   * only when 0 is the sole common CPU.
   */
  lemma FirstPickSkipsZero(a: Mask, b: Mask, nbits: nat)
    ensures var r := AnyAndDistribute(Initial, a, b, nbits);
            (r.cpu == 0 && r.cpu < nbits) <==> Members(a * b, 0, nbits) == [0]
  {
    var I := Members(a * b, 0, nbits);
    if I != [] {
      PickIsRankEntry(Initial, a, b, nbits, I);
      RankSplits(I, 0);
      assert I[0] in I;
      if |I| > 1 {
        assert I[0] < I[1];
        assert I[1] in I;
      }
    }
  }
}
