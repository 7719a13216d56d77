/**
 * The SCSI command history of the Exynos UFS debug support
 * (drivers/scsi/ufs/ufs-exynos-dbg.c): a ring of MAX_CMD_LOGS records,
 * a u32 count of records ever written, the slot the next record goes to,
 * and a per-tag pointer to the slot holding that tag's latest command.
 * Pointers into the ring are slot numbers here; the spinlock and the
 * clock are left out, and times arrive as parameters.
 */
module UfsCmdLog {
  import opened KernelTypes

  /** MAX_CMD_LOGS: the ring size and the number of tags pdata can hold. */
  const MAX_CMD_LOGS: nat := 32

  /** The SCSI UNMAP opcode. */
  const UNMAP: nat := 0x42

  /** struct cmd_data: one logged command. */
  datatype CmdData = CmdData(
    tag: nat, sct: nat, lba: nat, startTime: nat, endTime: nat,
    outstandingReqs: nat, retries: int, op: nat)

  /** A record as kzalloc leaves it. */
  const Zeroed: CmdData := CmdData(0, 0, 0, 0, 0, 0, 0, 0)

  /**
   * struct ufs_cmd_info: `total` commands logged (a u32), `last` the slot
   * the next one goes to, the ring itself and, per tag, the slot of that
   * tag's latest command (None for a NULL pointer).
   */
  datatype CmdInfo = CmdInfo(total: nat, last: nat, data: seq<CmdData>, pdata: seq<Option<nat>>)

  /** The shape every reachable ring has: `last` trails `total` modulo the ring size. */
  predicate Valid(info: CmdInfo) {
    && |info.data| == MAX_CMD_LOGS
    && |info.pdata| == MAX_CMD_LOGS
    && info.total < U32_MODULUS
    && info.last == info.total % MAX_CMD_LOGS
    && (forall t :: 0 <= t < MAX_CMD_LOGS && info.pdata[t].Some? ==> info.pdata[t].value < MAX_CMD_LOGS)
  }

  /** `n` copies of `x`. */
  function Repeat<T>(x: T, n: nat): (r: seq<T>)
    ensures |r| == n && forall i :: 0 <= i < n ==> r[i] == x
  {
    if n == 0 then [] else [x] + Repeat(x, n - 1)
  }

  /** The ring as the zeroing allocation leaves it. */
  const EmptyInfo: CmdInfo := CmdInfo(0, 0, Repeat(Zeroed, MAX_CMD_LOGS), Repeat(None, MAX_CMD_LOGS))

  /** The record a put stores for `c`: its fields, with end_time reset. */
  function Stamp(c: CmdData): CmdData {
    c.(endTime := 0)
  }

  /** Stamp applied to every record of a list. */
  function Stamps(w: seq<CmdData>): (r: seq<CmdData>)
    ensures |r| == |w| && forall k :: 0 <= k < |w| ==> r[k] == Stamp(w[k])
  {
    seq(|w|, k requires 0 <= k < |w| => Stamp(w[k]))
  }

  /**
   * ufs_s_put_cmd_log: the record goes into slot `last`, the count grows
   * by one (as a u32), `last` moves on modulo the ring size, and the tag's
   * pointer is aimed at the slot just written. No other slot or pointer
   * changes. pdata has MAX_CMD_LOGS entries, so the tag must be below that.
   */
  function Put(info: CmdInfo, c: CmdData): (r: CmdInfo)
    requires Valid(info) && c.tag < MAX_CMD_LOGS
    ensures Valid(r)
    ensures r.total == (info.total + 1) % U32_MODULUS
    ensures NewestSlot(r.last) == info.last
    ensures r.data[info.last] == Stamp(c)
    ensures forall j :: 0 <= j < MAX_CMD_LOGS && j != info.last ==> r.data[j] == info.data[j]
    ensures r.pdata[c.tag] == Some(info.last)
    ensures forall t :: 0 <= t < MAX_CMD_LOGS && t != c.tag ==> r.pdata[t] == info.pdata[t]
  {
    var slot := info.last;
    var total := (info.total + 1) % U32_MODULUS;
    var last := (info.last + 1) % MAX_CMD_LOGS;
    assert last == total % MAX_CMD_LOGS by {
      if info.total + 1 == U32_MODULUS {
        assert info.total % MAX_CMD_LOGS == 31;
      }
    }
    CmdInfo(total, last, info.data[slot := Stamp(c)], info.pdata[c.tag := Some(slot)])
  }

  /**
   * The dump loop of ufs_s_print_cmd_log: `n` records starting at slot
   * `idx`, stepping to the next slot and back to 0 after slot `wrapAt`.
   */
  function DumpLoop(data: seq<CmdData>, idx: nat, wrapAt: nat, n: nat): (r: seq<CmdData>)
    requires n == 0 || idx <= wrapAt < |data|
    ensures |r| == n
    ensures 0 < n <= wrapAt + 1 - idx ==> r == data[idx..idx + n]
    decreases n
  {
    if n == 0 then []
    else [data[idx]] + DumpLoop(data, if idx == wrapAt then 0 else idx + 1, wrapAt, n - 1)
  }

  /** Past slot `wrapAt` the loop continues from slot 0. */
  lemma {:induction false} DumpLoopWraps(data: seq<CmdData>, idx: nat, wrapAt: nat, n: nat)
    requires idx <= wrapAt < |data| && n > wrapAt + 1 - idx
    ensures DumpLoop(data, idx, wrapAt, n)
         == data[idx..wrapAt + 1] + DumpLoop(data, 0, wrapAt, n - (wrapAt + 1 - idx))
    decreases wrapAt - idx
  {
    if idx < wrapAt {
      DumpLoopWraps(data, idx + 1, wrapAt, n - 1);
      assert data[idx..wrapAt + 1] == [data[idx]] + data[idx + 1..wrapAt + 1];
    }
  }

  /**
   * The start of ufs_s_print_cmd_log: the record count `max`, the u32
   * `max - 1` the loop wraps at, and the first slot, computed from the slot
   * of the newest record as the source does.
   */
  function DumpStart(info: CmdInfo): (r: (nat, nat, nat))
    requires Valid(info)
    ensures r.0 == Min(info.total, MAX_CMD_LOGS)
    ensures info.total > 0 ==> r.1 == r.0 - 1
    ensures info.total > 0 ==> r.2 == (if info.total < MAX_CMD_LOGS then 0 else info.last)
  {
    var max := Min(info.total, MAX_CMD_LOGS);
    var last := (info.last + MAX_CMD_LOGS - 1) % MAX_CMD_LOGS;
    var maxMinusOne := (max + U32_MODULUS - 1) % U32_MODULUS;
    var idx := if last == maxMinusOne then 0 else last + 1;
    PreviousSlot(info.last);
    if max == 0 then (max, maxMinusOne, idx)
    else
      MinusOneWraps(max, U32_MODULUS);
      assert info.total < MAX_CMD_LOGS ==> info.last == info.total;
      (max, maxMinusOne, idx)
  }

  /** The slot before `last` in the ring, as `(last + 32 - 1) % 32` computes it. */
  lemma PreviousSlot(last: nat)
    requires last < MAX_CMD_LOGS
    ensures (last + MAX_CMD_LOGS - 1) % MAX_CMD_LOGS == if last == 0 then MAX_CMD_LOGS - 1 else last - 1
  {
  }

  /** `(x + m - 1) % m` is x - 1 for 0 < x <= m. */
  lemma MinusOneWraps(x: nat, m: nat)
    requires 0 < x <= m
    ensures (x + m - 1) % m == x - 1
  {
    if x < m {
      assert x + m - 1 == (x - 1) + m;
    }
  }

  /** With a full ring the loop reads every slot from `last` round to `last - 1`. */
  lemma FullRingOrder(data: seq<CmdData>, last: nat)
    requires last < |data|
    ensures DumpLoop(data, last, |data| - 1, |data|) == data[last..] + data[..last]
  {
    var wrapAt := |data| - 1;
    if last > 0 {
      DumpLoopWraps(data, last, wrapAt, |data|);
      assert DumpLoop(data, 0, wrapAt, last) == data[0..last];
      assert data[last..wrapAt + 1] == data[last..];
    } else {
      assert DumpLoop(data, 0, wrapAt, |data|) == data[0..|data|];
    }
  }

  /**
   * ufs_s_print_cmd_log, returning the records it prints: min(total, 32)
   * of them, oldest first — slots 0 upwards while the ring has not filled,
   * and otherwise every slot starting at the one after the newest. The
   * index arithmetic is the source's, including the u32 `max - 1`.
   */
  function Dump(info: CmdInfo): (r: seq<CmdData>)
    requires Valid(info)
    ensures |r| == Min(info.total, MAX_CMD_LOGS)
    ensures info.total == 0 ==> r == []
    ensures info.total < MAX_CMD_LOGS ==> r == info.data[..info.total]
    ensures info.total >= MAX_CMD_LOGS ==> r == info.data[info.last..] + info.data[..info.last]
  {
    var (max, wrapAt, idx) := DumpStart(info);
    if max == 0 then []
    else if info.total < MAX_CMD_LOGS then
      assert idx == 0 && max == info.total && wrapAt == max - 1;
      assert info.data[0..max] == info.data[..info.total];
      DumpLoop(info.data, idx, wrapAt, max)
    else
      assert idx == info.last && max == |info.data| && wrapAt == |info.data| - 1;
      FullRingOrder(info.data, info.last);
      DumpLoop(info.data, idx, wrapAt, max)
  }

  /** The ring after logging each command of `h` in turn from the empty ring. */
  function Replay(h: seq<CmdData>): (r: CmdInfo)
    requires forall k :: 0 <= k < |h| ==> h[k].tag < MAX_CMD_LOGS
    ensures Valid(r)
    decreases |h|
  {
    if h == [] then EmptyInfo else Put(Replay(h[..|h| - 1]), h[|h| - 1])
  }

  /** Distinct numbers less than a ring apart fall in distinct slots. */
  lemma SlotsDiffer(a: nat, b: nat)
    requires a < b < a + MAX_CMD_LOGS
    ensures a % MAX_CMD_LOGS != b % MAX_CMD_LOGS
  {
    var qa, qb := a / MAX_CMD_LOGS, b / MAX_CMD_LOGS;
    assert a == MAX_CMD_LOGS * qa + a % MAX_CMD_LOGS;
    assert b == MAX_CMD_LOGS * qb + b % MAX_CMD_LOGS;
  }

  /** The last min(n, 32) commands of `h` sit in slot (their position mod 32). */
  predicate Window(info: CmdInfo, h: seq<CmdData>)
    requires |info.data| == MAX_CMD_LOGS
  {
    forall k :: |h| - Min(|h|, MAX_CMD_LOGS) <= k < |h| ==> info.data[k % MAX_CMD_LOGS] == Stamp(h[k])
  }

  /** A put moves the window of the latest commands on by one. */
  lemma PutShiftsWindow(info: CmdInfo, h: seq<CmdData>, c: CmdData)
    requires Valid(info) && c.tag < MAX_CMD_LOGS
    requires info.last == |h| % MAX_CMD_LOGS && Window(info, h)
    ensures Window(Put(info, c), h + [c])
  {
    var r := Put(info, c);
    var h1 := h + [c];
    forall k | |h1| - Min(|h1|, MAX_CMD_LOGS) <= k < |h1|
      ensures r.data[k % MAX_CMD_LOGS] == Stamp(h1[k])
    {
      if k < |h| {
        SlotsDiffer(k, |h|);
        assert h1[k] == h[k];
      }
    }
  }

  lemma BelowModulus(x: nat)
    requires x < U32_MODULUS
    ensures x % U32_MODULUS == x
  {
  }

  /** While fewer than 2^32 commands have been logged, the count is exact. */
  lemma {:induction false} ReplayTotal(h: seq<CmdData>)
    requires forall k :: 0 <= k < |h| ==> h[k].tag < MAX_CMD_LOGS
    requires |h| < U32_MODULUS
    ensures Replay(h).total == |h|
    decreases |h|
  {
    if h != [] {
      var h0 := h[..|h| - 1];
      assert forall k :: 0 <= k < |h0| ==> h0[k] == h[k];
      ReplayTotal(h0);
      assert Replay(h) == Put(Replay(h0), h[|h| - 1]);
      BelowModulus(|h|);
    }
  }

  /**
   * While fewer than 2^32 commands have been logged, the count is exact and
   * the last min(n, 32) commands sit in slot (their position mod 32).
   */
  lemma {:induction false} ReplayWindow(h: seq<CmdData>)
    requires forall k :: 0 <= k < |h| ==> h[k].tag < MAX_CMD_LOGS
    requires |h| < U32_MODULUS
    ensures Replay(h).total == |h|
    ensures Window(Replay(h), h)
    decreases |h|
  {
    ReplayTotal(h);
    if h != [] {
      var h0 := h[..|h| - 1];
      var c := h[|h| - 1];
      assert forall k :: 0 <= k < |h0| ==> h0[k] == h[k];
      ReplayWindow(h0);
      var info := Replay(h0);
      assert Replay(h) == Put(info, c);
      PutShiftsWindow(info, h0, c);
      assert h0 + [c] == h;
    }
  }

  /** (32q + x) mod 32 is x. */
  lemma SlotOf(q: nat, x: nat)
    requires x < MAX_CMD_LOGS
    ensures (MAX_CMD_LOGS * q + x) % MAX_CMD_LOGS == x
  {
  }

  /** Entry i of the ring read from slot `last` round to slot `last - 1`. */
  lemma RotatedEntry(data: seq<CmdData>, last: nat, i: nat)
    requires |data| == MAX_CMD_LOGS && last < MAX_CMD_LOGS && i < MAX_CMD_LOGS
    ensures (data[last..] + data[..last])[i] == data[Rotate(last, i)]
  {
  }

  /** The slot `i` places after `last`, wrapping. */
  function Rotate(last: nat, i: nat): (r: nat)
    requires last < MAX_CMD_LOGS && i < MAX_CMD_LOGS
    ensures r < MAX_CMD_LOGS
  {
    if last + i < MAX_CMD_LOGS then last + i else last + i - MAX_CMD_LOGS
  }

  /** Command n - 32 + i sits `i` slots after slot n mod 32. */
  lemma WindowSlot(n: nat, i: nat)
    requires n >= MAX_CMD_LOGS && i < MAX_CMD_LOGS
    ensures (n - MAX_CMD_LOGS + i) % MAX_CMD_LOGS == Rotate(n % MAX_CMD_LOGS, i)
  {
    var q := n / MAX_CMD_LOGS;
    var last := n % MAX_CMD_LOGS;
    assert n == MAX_CMD_LOGS * q + last;
    if last + i < MAX_CMD_LOGS {
      SlotOf(q - 1, last + i);
    } else {
      SlotOf(q, last + i - MAX_CMD_LOGS);
    }
  }

  /** Once the ring has filled, entry i of the ring read from `last` onwards is command n - 32 + i. */
  lemma RotatedWindow(h: seq<CmdData>, info: CmdInfo, i: nat)
    requires |info.data| == MAX_CMD_LOGS && |h| >= MAX_CMD_LOGS && info.last == |h| % MAX_CMD_LOGS
    requires Window(info, h) && i < MAX_CMD_LOGS
    ensures (info.data[info.last..] + info.data[..info.last])[i] == Stamp(h[|h| - MAX_CMD_LOGS + i])
  {
    var k := |h| - MAX_CMD_LOGS + i;
    RotatedEntry(info.data, info.last, i);
    WindowSlot(|h|, i);
    assert info.data[k % MAX_CMD_LOGS] == Stamp(h[k]);
  }

  /** A ring holding the window of `h` dumps exactly that window, oldest first, with end times reset. */
  lemma DumpWindow(info: CmdInfo, h: seq<CmdData>)
    requires Valid(info) && info.total == |h| && Window(info, h)
    ensures Dump(info) == Stamps(h[|h| - Min(|h|, MAX_CMD_LOGS)..])
  {
    var lo := |h| - Min(|h|, MAX_CMD_LOGS);
    var w := Stamps(h[lo..]);
    if |h| < MAX_CMD_LOGS {
      var d := info.data[..|h|];
      forall i | 0 <= i < |h|
        ensures d[i] == w[i]
      {
        SlotOf(0, i);
        assert h[lo..][i] == h[i];
      }
      assert d == w;
    } else {
      var d := info.data[info.last..] + info.data[..info.last];
      forall i | 0 <= i < MAX_CMD_LOGS
        ensures d[i] == w[i]
      {
        RotatedWindow(h, info, i);
        assert h[lo..][i] == h[lo + i];
      }
      assert d == w;
    }
  }

  /**
   * The dump of a ring filled from empty by fewer than 2^32 commands is
   * exactly the last min(n, 32) of them, oldest first, with end times reset.
   */
  lemma DumpShowsLatest(h: seq<CmdData>)
    requires forall k :: 0 <= k < |h| ==> h[k].tag < MAX_CMD_LOGS
    requires |h| < U32_MODULUS
    ensures Dump(Replay(h)) == Stamps(h[|h| - Min(|h|, MAX_CMD_LOGS)..])
  {
    ReplayWindow(h);
    DumpWindow(Replay(h), h);
  }

  /** The slot holding the newest record: the one before `last`. */
  function NewestSlot(last: nat): (r: nat)
    requires last < MAX_CMD_LOGS
    ensures r < MAX_CMD_LOGS && (r + 1) % MAX_CMD_LOGS == last
  {
    if last == 0 then MAX_CMD_LOGS - 1 else last - 1
  }

  /** Whenever anything is logged, the dump ends with the newest slot. */
  lemma NewestDumped(info: CmdInfo)
    requires Valid(info) && info.total > 0
    ensures |Dump(info)| > 0 && Dump(info)[|Dump(info)| - 1] == info.data[NewestSlot(info.last)]
  {
    var d := Dump(info);
    if info.total < MAX_CMD_LOGS {
      assert info.last == info.total by {
        SlotOf(0, info.total);
      }
      assert d == info.data[..info.total];
      assert NewestSlot(info.last) == info.total - 1;
    } else {
      var k := MAX_CMD_LOGS - 1;
      assert d == info.data[info.last..] + info.data[..info.last];
      RotatedEntry(info.data, info.last, k);
      assert Rotate(info.last, k) == NewestSlot(info.last);
    }
  }

  /** The newest record of the dump after a put is the command just put, unless the count wrapped to 0. */
  lemma DumpEndsWithPut(info: CmdInfo, c: CmdData)
    requires Valid(info) && c.tag < MAX_CMD_LOGS
    requires info.total + 1 < U32_MODULUS
    ensures var d := Dump(Put(info, c)); |d| > 0 && d[|d| - 1] == Stamp(c)
  {
    var r := Put(info, c);
    BelowModulus(info.total + 1);
    NewestDumped(r);
    assert NewestSlot(r.last) == info.last;
  }

  /**
   * struct ufs_s_dbg_mgr: whether logging is active, the first and latest
   * dump times, the ring, and the temporary record a start fills in.
   */
  datatype DbgMgr = DbgMgr(active: bool, firstTime: nat, time: nat, info: CmdInfo, cmdLog: CmdData)

  predicate ValidMgr(m: DbgMgr) {
    Valid(m.info)
  }

  datatype InitResult = Initialised(mgr: DbgMgr) | InitFailed(err: Errno)

  /** exynos_ufs_init_dbg: a zeroed, active manager, or ENOMEM when the allocation fails. */
  function InitDbg(allocOk: bool): (r: InitResult)
    ensures r.InitFailed? <==> !allocOk
    ensures r.InitFailed? ==> r.err == ENOMEM
    ensures r.Initialised? ==> ValidMgr(r.mgr) && r.mgr.active && Dump(r.mgr.info) == []
  {
    if !allocOk then InitFailed(ENOMEM)
    else Initialised(DbgMgr(true, 0, 0, EmptyInfo, Zeroed))
  }

  /** The fields exynos_ufs_cmd_log_start reads from the SCSI command, already decoded. */
  datatype ScsiCmd = ScsiCmd(op: nat, lba: nat, sct: nat, allowed: int)

  /**
   * exynos_ufs_cmd_log_start: when active, fills the temporary record from
   * the command (keeping the previous lba for UNMAP) and puts it in the ring;
   * when inactive, nothing changes.
   */
  function LogStart(m: DbgMgr, tag: nat, cmd: ScsiCmd, outstanding: nat, now: nat): (r: DbgMgr)
    requires ValidMgr(m) && tag < MAX_CMD_LOGS
    ensures ValidMgr(r)
    ensures !m.active ==> r == m
    ensures m.active ==> r.active == m.active && r.firstTime == m.firstTime && r.time == m.time
    ensures m.active ==> r.cmdLog.lba == (if cmd.op == UNMAP then m.cmdLog.lba else cmd.lba)
    ensures m.active ==> r.cmdLog == CmdData(tag, cmd.sct, r.cmdLog.lba, now, m.cmdLog.endTime, outstanding, cmd.allowed, cmd.op)
    ensures m.active ==> r.info == Put(m.info, r.cmdLog)
  {
    if !m.active then m
    else
      var lba := if cmd.op != UNMAP then cmd.lba else m.cmdLog.lba;
      var log := m.cmdLog.(startTime := now, op := cmd.op, tag := tag, outstandingReqs := outstanding,
                           lba := lba, sct := cmd.sct, retries := cmd.allowed);
      m.(cmdLog := log, info := Put(m.info, log))
  }

  /**
   * exynos_ufs_cmd_log_end: when active, stamps the end time on the slot
   * the tag's pointer names, and on nothing else. A tag never started has a
   * NULL pointer, which the source would dereference.
   */
  function LogEnd(m: DbgMgr, tag: nat, now: nat): (r: DbgMgr)
    requires ValidMgr(m) && tag < MAX_CMD_LOGS
    requires m.active ==> m.info.pdata[tag].Some?
    ensures ValidMgr(r)
    ensures !m.active ==> r == m
    ensures m.active ==> r.info.data[m.info.pdata[tag].value] == m.info.data[m.info.pdata[tag].value].(endTime := now)
    ensures m.active ==> forall j :: 0 <= j < MAX_CMD_LOGS && j != m.info.pdata[tag].value ==> r.info.data[j] == m.info.data[j]
    ensures m.active ==> r == m.(info := m.info.(data := r.info.data))
  {
    if !m.active then m
    else
      var s := m.info.pdata[tag].value;
      m.(info := m.info.(data := m.info.data[s := m.info.data[s].(endTime := now)]))
  }

  /**
   * Starting and then ending a command on the same tag leaves it as the
   * newest dumped record, with the command's fields and the end time.
   */
  lemma StartThenEnd(m: DbgMgr, tag: nat, cmd: ScsiCmd, outstanding: nat, t0: nat, t1: nat)
    requires ValidMgr(m) && tag < MAX_CMD_LOGS && m.active
    requires m.info.total + 1 < U32_MODULUS
    ensures var m1 := LogStart(m, tag, cmd, outstanding, t0);
            var d := Dump(LogEnd(m1, tag, t1).info);
            && |d| > 0
            && d[|d| - 1] == m1.cmdLog.(endTime := t1)
            && d[|d| - 1].tag == tag && d[|d| - 1].op == cmd.op && d[|d| - 1].startTime == t0
  {
    var m1 := LogStart(m, tag, cmd, outstanding, t0);
    var m2 := LogEnd(m1, tag, t1);
    BelowModulus(m.info.total + 1);
    assert m1.info.pdata[tag] == Some(m.info.last);
    NewestDumped(m2.info);
  }

  /**
   * exynos_ufs_dump_info: when active, records the dump time (and the first
   * dump time, once) and returns the records printed; otherwise nothing.
   */
  function DumpInfo(m: DbgMgr, now: nat): (r: (DbgMgr, seq<CmdData>))
    requires ValidMgr(m)
    ensures !m.active ==> r == (m, [])
    ensures m.active ==> r.1 == Dump(m.info) && r.0.time == now && r.0.info == m.info
    ensures m.active ==> r.0.firstTime == (if m.firstTime == 0 then now else m.firstTime)
  {
    if !m.active then (m, [])
    else
      var m1 := m.(time := now);
      var m2 := if m1.firstTime == 0 then m1.(firstTime := m1.time) else m1;
      (m2, Dump(m2.info))
  }
}
