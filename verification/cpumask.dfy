/**
 * The search primitives of lib/cpumask.c: cpumask_next, cpumask_next_and,
 * cpumask_any_but and the wrap-around helper cpumask_next_wrap, together
 * with the loops built on them (for_each_cpu, for_each_cpu_and,
 * for_each_cpu_wrap).
 *
 * A cpumask is the set of CPU ids whose bit is set. The mask width `nbits`
 * stands for nr_cpumask_bits (equal to nr_cpu_ids in this model); ids at or
 * above it are never looked at, and `nbits` itself is the "no more CPUs"
 * answer.
 */
module CpuMask {

  type Mask = set<nat>

  /** Strictly ascending, hence free of repetitions. */
  ghost predicate StrictlyIncreasing(s: seq<nat>) {
    forall i, j :: 0 <= i < j < |s| ==> s[i] < s[j]
  }

  /**
   * The reference order: the members of `m` in [lo, hi), ascending.
   * Every other enumeration in the model is proved equal to one of these.
   */
  function Members(m: Mask, lo: nat, hi: nat): (r: seq<nat>)
    ensures forall x :: x in r <==> x in m && lo <= x < hi
    ensures StrictlyIncreasing(r)
    decreases hi - lo
  {
    if lo >= hi then []
    else
      var rest := Members(m, lo + 1, hi);
      assert forall i :: 0 <= i < |rest| ==> rest[i] in rest;
      assert forall i :: 0 <= i < |rest| ==> lo < rest[i];
      if lo in m then [lo] + rest else rest
  }

  /** cpumask_weight: the number of CPUs set below the mask width. */
  function Weight(m: Mask, nbits: nat): nat {
    |Members(m, 0, nbits)|
  }

  /**
   * `r` is the answer "smallest member of `m` strictly above `n`, or `nbits`
   * if no member lies in (n, nbits)".
   */
  ghost predicate IsNextAfter(n: int, m: Mask, nbits: nat, r: nat) {
    && r <= nbits
    && (r < nbits ==> n < r && r in m)
    && forall k: nat :: n < k < r ==> k !in m
  }

  /** find_next_bit: the first set bit at or after `offset`, or `size`. */
  function FindNextBit(bits: Mask, size: nat, offset: nat): (r: nat)
    ensures r <= size
    ensures r < size ==> offset <= r && r in bits
    ensures forall k: nat :: offset <= k < r ==> k !in bits
    decreases size - offset
  {
    if offset >= size then size
    else if offset in bits then offset
    else FindNextBit(bits, size, offset + 1)
  }

  /** cpumask_next: the next CPU of `m` after `n`; `n == -1` finds the first. */
  function Next(n: int, m: Mask, nbits: nat): (r: nat)
    requires -1 <= n
    ensures IsNextAfter(n, m, nbits, r)
  {
    FindNextBit(m, nbits, n + 1)
  }

  /** cpumask_next_and: the next CPU after `n` set in both masks. */
  function NextAnd(n: int, a: Mask, b: Mask, nbits: nat): (r: nat)
    requires -1 <= n
    ensures IsNextAfter(n, a * b, nbits, r)
  {
    FindNextBit(a * b, nbits, n + 1)
  }

  /** The "next after" answer is unique, so the contracts above pin it down. */
  lemma NextAfterUnique(n: int, m: Mask, nbits: nat, r1: nat, r2: nat)
    requires IsNextAfter(n, m, nbits, r1) && IsNextAfter(n, m, nbits, r2)
    ensures r1 == r2
  {
  }

  /** With no member in [lo, c), the members from lo are the members from c. */
  lemma {:induction false} MembersSkip(m: Mask, lo: nat, c: nat, hi: nat)
    requires lo <= c <= hi
    requires forall k: nat :: lo <= k < c ==> k !in m
    ensures Members(m, lo, hi) == Members(m, c, hi)
    decreases c - lo
  {
    if lo < c {
      assert lo !in m;
      MembersSkip(m, lo + 1, c, hi);
    }
  }

  /** The CPUs that `for_each_cpu` visits after `n`: cpumask_next until nbits. */
  function WalkFrom(m: Mask, n: int, nbits: nat): seq<nat>
    requires -1 <= n
    decreases nbits - n
  {
    var c := Next(n, m, nbits);
    if c >= nbits then [] else [c] + WalkFrom(m, c, nbits)
  }

  /** Walking with cpumask_next lists exactly the members above `n`, ascending. */
  lemma {:induction false} WalkFromIsMembers(m: Mask, n: int, nbits: nat)
    requires -1 <= n
    ensures WalkFrom(m, n, nbits) == Members(m, n + 1, nbits)
    decreases nbits - n
  {
    var c := Next(n, m, nbits);
    if c >= nbits {
      assert WalkFrom(m, n, nbits) == [];
      if n + 1 <= nbits {
        MembersSkip(m, n + 1, nbits, nbits);
      }
    } else {
      MembersSkip(m, n + 1, c, nbits);
      WalkFromIsMembers(m, c, nbits);
      assert Members(m, c, nbits) == [c] + Members(m, c + 1, nbits);
      assert WalkFrom(m, n, nbits) == [c] + WalkFrom(m, c, nbits);
    }
  }

  /** for_each_cpu(cpu, m): the CPUs the loop body sees, in order. */
  function ForEachCpu(m: Mask, nbits: nat): (r: seq<nat>)
    ensures r == Members(m, 0, nbits)
  {
    WalkFromIsMembers(m, -1, nbits);
    WalkFrom(m, -1, nbits)
  }

  /** The CPUs that `for_each_cpu_and` visits after `n`: cpumask_next_and until nbits. */
  function WalkAndFrom(a: Mask, b: Mask, n: int, nbits: nat): seq<nat>
    requires -1 <= n
    decreases nbits - n
  {
    var c := NextAnd(n, a, b, nbits);
    if c >= nbits then [] else [c] + WalkAndFrom(a, b, c, nbits)
  }

  /** Walking with cpumask_next_and is walking the intersection. */
  lemma {:induction false} WalkAndFromIsMembers(a: Mask, b: Mask, n: int, nbits: nat)
    requires -1 <= n
    ensures WalkAndFrom(a, b, n, nbits) == Members(a * b, n + 1, nbits)
    decreases nbits - n
  {
    var c := NextAnd(n, a, b, nbits);
    NextAfterUnique(n, a * b, nbits, c, Next(n, a * b, nbits));
    if c < nbits {
      WalkAndFromIsMembers(a, b, c, nbits);
    }
    WalkFromIsMembers(a * b, n, nbits);
    WalkAndIsWalk(a, b, n, nbits);
  }

  lemma {:induction false} WalkAndIsWalk(a: Mask, b: Mask, n: int, nbits: nat)
    requires -1 <= n
    ensures WalkAndFrom(a, b, n, nbits) == WalkFrom(a * b, n, nbits)
    decreases nbits - n
  {
    var c := NextAnd(n, a, b, nbits);
    NextAfterUnique(n, a * b, nbits, c, Next(n, a * b, nbits));
    if c < nbits {
      WalkAndIsWalk(a, b, c, nbits);
    }
  }

  /** for_each_cpu_and(cpu, a, b): the CPUs set in both masks, ascending. */
  function ForEachCpuAnd(a: Mask, b: Mask, nbits: nat): (r: seq<nat>)
    ensures r == Members(a * b, 0, nbits)
  {
    WalkAndFromIsMembers(a, b, -1, nbits);
    WalkAndFrom(a, b, -1, nbits)
  }

  /**
   * cpumask_any_but: the first CPU of `m` other than `cpu`, or `nbits` when
   * `m` holds no CPU but `cpu` (in particular when m == {cpu}).
   */
  method AnyBut(m: Mask, cpu: nat, nbits: nat) returns (r: nat)
    ensures r <= nbits
    ensures r < nbits ==> r in m && r != cpu
    ensures forall k: nat :: k < r && k in m ==> k == cpu
    ensures r == nbits <==> forall k: nat :: k < nbits && k in m ==> k == cpu
  {
    r := Next(-1, m, nbits);
    while r < nbits
      invariant r <= nbits
      invariant r < nbits ==> r in m
      invariant forall k: nat :: k < r && k in m ==> k == cpu
      decreases nbits - r
    {
      if r != cpu {
        return;
      }
      r := Next(r, m, nbits);
    }
  }

  /**
   * cpumask_next_wrap: the next CPU after `n`, restarting once from -1 when
   * the end of the mask is reached, and answering `nbits` as soon as a
   * wrapped walk crosses `start`. The restart happens at most once: the
   * measure below drops when it does, and a walk that has restarted cannot
   * reach the restart again while start <= nbits.
   */
  function NextWrap(n: int, m: Mask, start: nat, wrap: bool, nbits: nat): (r: nat)
    requires -1 <= n
    requires start <= nbits
    ensures r <= nbits
    ensures r < nbits ==> r in m
    decreases if wrap && n == -1 then 0 else 1
  {
    var next := Next(n, m, nbits);
    if wrap && n < start && next >= start then nbits
    else if next >= nbits then NextWrap(-1, m, start, true, nbits)
    else next
  }

  /** The rotated order for_each_cpu_wrap promises: members >= start, then members < start. */
  function WrapOrder(m: Mask, start: nat, nbits: nat): seq<nat> {
    Members(m, start, nbits) + Members(m, 0, start)
  }

  /** Inside a reference list, cpumask_next steps from one entry to the next. */
  lemma NextInMembers(m: Mask, lo: nat, hi: nat, nbits: nat, s: seq<nat>, i: nat)
    requires hi <= nbits
    requires s == Members(m, lo, hi)
    requires i < |s|
    ensures i + 1 < |s| ==> Next(s[i], m, nbits) == s[i + 1]
    ensures i + 1 == |s| ==> Next(s[i], m, nbits) >= hi
  {
    var c := Next(s[i], m, nbits);
    assert s[i] in s;
    if i + 1 < |s| {
      assert s[i + 1] in s;
    }
  }

  /** Starting just below `lo`, cpumask_next finds the first reference entry. */
  lemma FirstOfMembers(m: Mask, lo: nat, hi: nat, nbits: nat, s: seq<nat>)
    requires hi <= nbits
    requires s == Members(m, lo, hi)
    ensures |s| > 0 ==> Next(lo - 1, m, nbits) == s[0]
    ensures |s| == 0 ==> Next(lo - 1, m, nbits) >= hi
  {
    var c := Next(lo - 1, m, nbits);
    if |s| > 0 {
      assert s[0] in s;
    }
  }

  /** A wrapped walk restarting from -1 finds the first member below `start`, if any. */
  lemma WrapRestart(m: Mask, start: nat, nbits: nat)
    requires start <= nbits
    ensures var b := Members(m, 0, start);
            NextWrap(-1, m, start, true, nbits) == (if |b| > 0 then b[0] else nbits)
  {
    var b := Members(m, 0, start);
    FirstOfMembers(m, 0, start, nbits, b);
    if |b| > 0 {
      assert b[0] in b;
    }
  }

  /** The first call of for_each_cpu_wrap yields the head of the rotated order. */
  lemma WrapFirst(m: Mask, start: nat, nbits: nat, r: seq<nat>)
    requires start <= nbits
    requires r == WrapOrder(m, start, nbits)
    ensures NextWrap(start - 1, m, start, false, nbits) == (if |r| > 0 then r[0] else nbits)
    ensures |r| > 0 ==> r[0] < nbits
  {
    var a := Members(m, start, nbits);
    var b := Members(m, 0, start);
    FirstOfMembers(m, start, nbits, nbits, a);
    WrapRestart(m, start, nbits);
    if |a| > 0 {
      assert a[0] in a && r[0] == a[0];
    } else if |b| > 0 {
      assert r[0] == b[0] && b[0] in b;
    }
  }

  /** Each later call steps to the following entry, or answers `nbits` after the last. */
  lemma WrapStep(m: Mask, start: nat, nbits: nat, r: seq<nat>, i: nat)
    requires start <= nbits
    requires r == WrapOrder(m, start, nbits)
    requires i < |r|
    ensures NextWrap(r[i], m, start, true, nbits) == (if i + 1 < |r| then r[i + 1] else nbits)
    ensures i + 1 < |r| ==> r[i + 1] < nbits
  {
    var a := Members(m, start, nbits);
    var b := Members(m, 0, start);
    if i < |a| {
      assert r[i] == a[i] && a[i] in a;
      NextInMembers(m, start, nbits, nbits, a, i);
      var next := Next(a[i], m, nbits);
      if i + 1 < |a| {
        assert next == a[i + 1] && a[i + 1] in a;
        assert r[i + 1] == a[i + 1];
      } else {
        WrapRestart(m, start, nbits);
        if |b| > 0 {
          assert r[i + 1] == b[0] && b[0] in b;
        }
      }
    } else {
      var j := i - |a|;
      assert r[i] == b[j] && b[j] in b;
      NextInMembers(m, 0, start, nbits, b, j);
      if j + 1 < |b| {
        assert r[i + 1] == b[j + 1] && b[j + 1] in b;
      }
    }
  }

  /**
   * for_each_cpu_wrap(cpu, m, start) begins with cpumask_next_wrap(start-1, m,
   * start, false) and continues with cpumask_next_wrap(cpu, m, start, true):
   * the first call yields the first CPU of the rotated order, and each
   * further call steps to the next one, answering `nbits` after the last. So
   * the loop visits every member exactly once: those >= start ascending, then
   * those < start ascending.
   */
  lemma WrapWalk(m: Mask, start: nat, nbits: nat, r: seq<nat>)
    requires start <= nbits
    requires r == WrapOrder(m, start, nbits)
    ensures NextWrap(start - 1, m, start, false, nbits) == (if |r| > 0 then r[0] else nbits)
    ensures forall i :: 0 <= i < |r| ==>
              NextWrap(r[i], m, start, true, nbits) == (if i + 1 < |r| then r[i + 1] else nbits)
  {
    WrapFirst(m, start, nbits, r);
    forall i | 0 <= i < |r|
      ensures NextWrap(r[i], m, start, true, nbits) == (if i + 1 < |r| then r[i + 1] else nbits)
    {
      WrapStep(m, start, nbits, r, i);
    }
  }

  /**
   * The for_each_cpu_wrap loop itself: it visits exactly the rotated order,
   * every member of `m` once.
   */
  method ForEachCpuWrap(m: Mask, start: nat, nbits: nat) returns (visited: seq<nat>)
    requires start <= nbits
    ensures visited == Members(m, start, nbits) + Members(m, 0, start)
  {
    ghost var r := WrapOrder(m, start, nbits);
    visited := [];
    var cpu := NextWrap(start - 1, m, start, false, nbits);
    WrapFirst(m, start, nbits, r);
    ghost var i := 0;
    while cpu < nbits
      invariant 0 <= i <= |r|
      invariant |visited| == i
      invariant forall k :: 0 <= k < i ==> visited[k] == r[k]
      invariant cpu == (if i < |r| then r[i] else nbits)
      invariant i < |r| ==> cpu < nbits
      decreases |r| - i
    {
      WrapStep(m, start, nbits, r, i);
      visited := visited + [cpu];
      cpu := NextWrap(cpu, m, start, true, nbits);
      i := i + 1;
    }
    assert visited == r;
  }


}
