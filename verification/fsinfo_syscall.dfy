/**
 * The outer layers of fsinfo() (fs/fsinfo.c): the vfs_fsinfo loop that
 * negotiates a buffer large enough for the value, the mount-object entry
 * point's argument checks, and the system call's argument checks and copy
 * of the result to the user's buffer.
 *
 * The allocator's success is a parameter, and signal_pending is replaced by
 * a bound on the number of retries. Path and file-descriptor resolution are
 * oracles that run the query on the object they find.
 */
module FsInfoSyscall {
  import opened KernelTypes
  import opened FsInfo

  const PAGE_SIZE: nat := 4096

  /** What the loop needs besides the context: the tables and the allocator. */
  datatype Env = Env(fs: Option<FsTable>, commonGet: Handler, allocOk: nat -> bool)

  /** roundup(n, PAGE_SIZE): the least whole number of pages holding n bytes. */
  function RoundUpToPage(n: nat): (r: nat)
    ensures r >= n && r % PAGE_SIZE == 0 && r < n + PAGE_SIZE
  {
    (n + PAGE_SIZE - 1) / PAGE_SIZE * PAGE_SIZE
  }

  /** The context a call sees in a freshly zeroed buffer of `size` bytes. */
  function Fresh(ctx: Context, size: nat): Context {
    ctx.(bufSize := size, usage := 0, ids := [], info := None)
  }

  /**
   * The do-while loop of vfs_fsinfo with `fuel` retries before a signal is
   * noticed: allocate, call, and return once the value fits; otherwise
   * retry with the value's size rounded up to whole pages.
   */
  function ResizeLoop(ctx: Context, env: Env, fuel: nat): (r: Reply)
    ensures r.ret.Value? ==> r.ret.n <= r.ctx.bufSize <= INT_MAX
    ensures r.ret.Value? ==> env.allocOk(r.ctx.bufSize)
    ensures ctx.bufSize > INT_MAX ==> r == Reply(Fail(EMSGSIZE), ctx)
    ensures ctx.bufSize <= INT_MAX && !env.allocOk(ctx.bufSize) ==> r == Reply(Fail(ENOMEM), ctx)
    ensures r.ctx.requestedAttr == ctx.requestedAttr && r.ctx.wantSizeOnly == ctx.wantSizeOnly
    decreases fuel
  {
    if ctx.bufSize > INT_MAX then Reply(Fail(EMSGSIZE), ctx)
    else if !env.allocOk(ctx.bufSize) then Reply(Fail(ENOMEM), ctx)
    else
      var r := FsinfoCall(Fresh(ctx, ctx.bufSize), env.fs, env.commonGet);
      match r.ret
      case Fail(_) => r
      case Value(n) =>
        if n <= r.ctx.bufSize then r
        else if fuel == 0 then Reply(Fail(ERESTARTSYS), r.ctx)
        else ResizeLoop(r.ctx.(bufSize := RoundUpToPage(n)), env, fuel - 1)
  }

  /**
   * A value that does not fit the buffer it was fetched into is fetched
   * again into a buffer of whole pages at least as large as the value,
   * for the same attribute; once the retries are spent the loop reports
   * ERESTARTSYS.
   */
  lemma RetryAtRoundedSize(ctx: Context, env: Env, fuel: nat)
    requires ctx.bufSize <= INT_MAX && env.allocOk(ctx.bufSize)
    requires var first := FsinfoCall(Fresh(ctx, ctx.bufSize), env.fs, env.commonGet);
             first.ret.Value? && first.ret.n > ctx.bufSize
    ensures var first := FsinfoCall(Fresh(ctx, ctx.bufSize), env.fs, env.commonGet);
            var next := first.ctx.(bufSize := RoundUpToPage(first.ret.n));
            && next.bufSize >= first.ret.n > ctx.bufSize
            && next.bufSize % PAGE_SIZE == 0
            && next.requestedAttr == ctx.requestedAttr
            && (fuel == 0 ==> ResizeLoop(ctx, env, fuel) == Reply(Fail(ERESTARTSYS), first.ctx))
            && (fuel > 0 ==> ResizeLoop(ctx, env, fuel) == ResizeLoop(next, env, fuel - 1))
  {
  }

  /**
   * vfs_fsinfo (after the security check): a first call without a buffer
   * gives the size, which is all that is returned when only the size is
   * wanted; otherwise the loop fetches the value into a buffer it fits.
   */
  function VfsFsinfo(ctx: Context, env: Env, fuel: nat): (r: Reply)
    ensures r.ret.Value? && !ctx.wantSizeOnly ==> r.ret.n <= r.ctx.bufSize <= INT_MAX
    ensures ctx.wantSizeOnly ==> r == FsinfoCall(ctx.(bufSize := 0), env.fs, env.commonGet)
  {
    var first := FsinfoCall(ctx.(bufSize := 0), env.fs, env.commonGet);
    match first.ret
    case Fail(_) => first
    case Value(n) =>
      if ctx.wantSizeOnly then first
      else ResizeLoop(first.ctx.(bufSize := n), env, fuel)
  }

  /** Two contexts that ask the same question. */
  predicate SameQuery(c: Context, ctx: Context) {
    c.requestedAttr == ctx.requestedAttr && c.nth == ctx.nth && c.mth == ctx.mth
    && c.wantSizeOnly == ctx.wantSizeOnly
  }

  /**
   * A value whose size does not depend on the buffer offered is fetched
   * with a single allocation, so no signal can interrupt it.
   */
  lemma StableSizeNeedsOneBuffer(ctx: Context, env: Env, fuel: nat, n: nat)
    requires !ctx.wantSizeOnly
    requires forall c: Context :: SameQuery(c, ctx) ==> FsinfoCall(c, env.fs, env.commonGet).ret == Value(n)
    requires n <= INT_MAX && env.allocOk(n)
    ensures VfsFsinfo(ctx, env, fuel).ret == Value(n)
  {
    var first := FsinfoCall(ctx.(bufSize := 0), env.fs, env.commonGet);
    assert SameQuery(ctx.(bufSize := 0), ctx);
    var c := first.ctx.(bufSize := n);
    assert SameQuery(Fresh(c, c.bufSize), ctx);
  }

  /**
   * Listing the attributes takes one buffer: the first call counts four
   * bytes per table entry, and that buffer holds the distinct ids of both
   * tables, which is what is returned.
   */
  lemma ListingNeedsOneBuffer(ctx: Context, env: Env, fuel: nat)
    requires ctx.requestedAttr == ATTR_ATTRIBUTES && !ctx.wantSizeOnly
    requires ctx.usage == 0 && ctx.ids == []
    requires ID_ENTRY_SIZE * |AllIds(env.fs)| <= INT_MAX
    requires env.allocOk(ID_ENTRY_SIZE * |AllIds(env.fs)|)
    ensures var r := VfsFsinfo(ctx, env, fuel);
            && r.ret == Value(ID_ENTRY_SIZE * |Dedup(AllIds(env.fs))|)
            && r.ctx.ids == Dedup(AllIds(env.fs))
  {
    var c0 := ctx.(bufSize := 0);
    var first := FsinfoCall(c0, env.fs, env.commonGet);
    AttributeListIsUnion(c0, env.fs, env.commonGet);
    var fsIds := if env.fs.Some? then Ids(env.fs.value.table) else [];
    InsertAllAppend(c0, fsIds, Ids(CommonAttributes));
    InsertAllNoBuffer(c0, AllIds(env.fs));
    var size := ID_ENTRY_SIZE * |AllIds(env.fs)|;
    assert first.ret == Value(size);
    var c1 := Fresh(first.ctx.(bufSize := size), size);
    AttributeListIsUnion(c1, env.fs, env.commonGet);
    var second := FsinfoCall(c1, env.fs, env.commonGet);
    assert second.ret.n <= second.ctx.bufSize;
    assert ResizeLoop(first.ctx.(bufSize := size), env, fuel) == second;
    assert VfsFsinfo(ctx, env, fuel) == ResizeLoop(first.ctx.(bufSize := size), env, fuel);
  }

  // ---------------------------------------------------------------------
  // Mount objects

  /** 2^64: kstrtoul refuses (ERANGE) anything an unsigned long cannot hold. */
  const ULONG_MODULUS: nat := 0x1_0000_0000_0000_0000

  /** 2^63: the first unsigned long that reads back negative through a long. */
  const LONG_SIGN_BIT: nat := 0x8000_0000_0000_0000

  type ULong = x: nat | x < ULONG_MODULUS

  /** The outcome of copying the mount id string in and parsing it with kstrtoul. */
  datatype ParsedId = ParsedId(id: ULong) | ParseFailed(e: Errno)

  /**
   * The unsigned long kstrtoul stores, read back through `long mnt_id`:
   * the same 64 bits as a two's-complement value.
   */
  function AsLong(id: ULong): (v: int)
    ensures -(LONG_SIGN_BIT as int) <= v < LONG_SIGN_BIT
    ensures v % ULONG_MODULUS == id
    ensures v < 0 <==> id >= LONG_SIGN_BIT
  {
    if id < LONG_SIGN_BIT then id else id - ULONG_MODULUS
  }

  /**
   * lookup_mount_object followed by vfs_fsinfo on what it finds, given the
   * mount id as the caller holds it.
   */
  type MountQuery = (int, Context) -> Reply

  /**
   * vfs_fsinfo_mount as written: the id is compared with INT_MAX as a
   * signed long. One that is positive and above INT_MAX leaves by the
   * error exit while the status still holds kstrtoul's 0, so the call
   * reports a value of size 0 without looking anything up; one of 2^63 or
   * more reads back negative, passes the check, and is handed to the
   * lookup as a negative id.
   */
  function FsinfoMountAsWritten(filenameGiven: bool, parsed: ParsedId, ctx: Context, lookup: MountQuery): (r: Reply)
    ensures !filenameGiven ==> r == Reply(Fail(EINVAL), ctx)
    ensures filenameGiven && parsed.ParseFailed? ==> r == Reply(Fail(parsed.e), ctx)
    ensures filenameGiven && parsed.ParsedId? && parsed.id <= INT_MAX ==> r == lookup(parsed.id, ctx)
    ensures filenameGiven && parsed.ParsedId? && INT_MAX < parsed.id < LONG_SIGN_BIT ==> r == Reply(Value(0), ctx)
    ensures filenameGiven && parsed.ParsedId? && parsed.id >= LONG_SIGN_BIT
            ==> r == lookup(parsed.id - ULONG_MODULUS, ctx)
  {
    if !filenameGiven then Reply(Fail(EINVAL), ctx)
    else match parsed
      case ParseFailed(e) => Reply(Fail(e), ctx)
      case ParsedId(id) =>
        var mntId := AsLong(id);
        if mntId > INT_MAX then Reply(Value(0), ctx)
        else lookup(mntId, ctx)
  }

  /** The mount id 2^31 is accepted by the parser and answered as a success. */
  lemma MountIdOverflowSucceeds(ctx: Context, lookup: MountQuery)
    ensures FsinfoMountAsWritten(true, ParsedId(INT_MAX + 1), ctx, lookup) == Reply(Value(0), ctx)
  {
  }

  /** The mount id 2^64 - 1 reaches the lookup as -1. */
  lemma MountIdWrapsNegative(ctx: Context, lookup: MountQuery)
    ensures FsinfoMountAsWritten(true, ParsedId(ULONG_MODULUS - 1), ctx, lookup) == lookup(-1, ctx)
  {
  }

  /**
   * vfs_fsinfo_mount with every id above INT_MAX, as the parser reads it,
   * rejected as invalid: the lookup is only ever asked for an id in
   * 0..INT_MAX.
   */
  function FsinfoMount(filenameGiven: bool, parsed: ParsedId, ctx: Context, lookup: MountQuery): (r: Reply)
    ensures r.ret.Value? ==> filenameGiven && parsed.ParsedId? && parsed.id <= INT_MAX
                             && r == lookup(parsed.id, ctx)
    ensures !filenameGiven ==> r == Reply(Fail(EINVAL), ctx)
    ensures filenameGiven && parsed.ParseFailed? ==> r == Reply(Fail(parsed.e), ctx)
    ensures filenameGiven && parsed.ParsedId? && parsed.id > INT_MAX ==> r == Reply(Fail(EINVAL), ctx)
  {
    if !filenameGiven then Reply(Fail(EINVAL), ctx)
    else match parsed
      case ParseFailed(e) => Reply(Fail(e), ctx)
      case ParsedId(id) =>
        if id > INT_MAX then Reply(Fail(EINVAL), ctx)
        else lookup(id, ctx)
  }

  /** The two agree on every id in 0..INT_MAX and on every early error. */
  lemma MountFixOnlyRejectsOverflow(filenameGiven: bool, parsed: ParsedId, ctx: Context, lookup: MountQuery)
    requires !(filenameGiven && parsed.ParsedId? && parsed.id > INT_MAX)
    ensures FsinfoMount(filenameGiven, parsed, ctx, lookup) == FsinfoMountAsWritten(filenameGiven, parsed, ctx, lookup)
  {
  }

  // ---------------------------------------------------------------------
  // The system call

  const QUERY_MASK: bv32 := 0x7
  const QUERY_PATH: bv32 := 0
  const QUERY_FD: bv32 := 1
  const QUERY_MOUNT: bv32 := 2

  /** struct fsinfo_params as far as the call reads it. */
  datatype Params = Params(flags: bv32, request: nat, nth: nat, mth: nat)

  /** The outcome of copy_struct_from_user. */
  datatype ParamsCopy = Copied(p: Params) | CopyFailed(e: Errno)

  /**
   * The arguments: which pointers are non-NULL, the sizes, what copying the
   * parameter block yields, and for a mount query what parsing the name
   * yields.
   */
  datatype Args = Args(
    paramsGiven: bool,
    paramsSize: nat,
    params: ParamsCopy,
    pathnameGiven: bool,
    mountId: ParsedId,
    resultGiven: bool,
    resultBufSize: nat)

  /** Path lookup and file-descriptor lookup, each running vfs_fsinfo on what it finds. */
  datatype Resolvers = Resolvers(path: Context -> Reply, fd: Context -> Reply, mount: MountQuery)

  /**
   * The call's result and what it writes to the user's buffer: `written`
   * at its start, then `cleared` zero bytes.
   */
  datatype Outcome = Outcome(ret: Ret, written: seq<bv8>, cleared: nat)

  /** A pointer and its size must be both absent or both present. */
  predicate PairsConsistent(a: Args) {
    (a.paramsGiven <==> a.paramsSize != 0) && (a.resultGiven <==> a.resultBufSize != 0)
  }

  /**
   * The context the query runs with: instance 0 of the statfs attribute on
   * a path by default, or what the parameter block asks for.
   */
  function InitialContext(a: Args): (c: Context)
    requires a.paramsGiven ==> a.params.Copied?
  {
    var base := Context(ATTR_STATFS, 0, 0, a.resultBufSize == 0, false, 0, 0, [], None);
    if a.paramsGiven then
      base.(requestedAttr := a.params.p.request, nth := a.params.p.nth, mth := a.params.p.mth)
    else base
  }

  /** The query mode the flags select (the whole flag word is a query mode once checked). */
  function QueryMode(a: Args): bv32 {
    if a.paramsGiven && a.params.Copied? then a.params.p.flags & QUERY_MASK else QUERY_PATH
  }

  /** The byte at position i of the kernel buffer, whose unwritten part stays zeroed. */
  function BufferByte(data: seq<bv8>, i: nat): bv8 {
    if i < |data| then data[i] else 0
  }

  /**
   * Copy-out: min(ret, result_buf_size) bytes of the value, and zeroes over
   * the rest of the user's buffer only when the value is a struct.
   */
  function CopyResult(n: nat, resultBufSize: nat, clearTail: bool, data: seq<bv8>): (o: Outcome)
    ensures o.ret == Value(n)
    ensures |o.written| == Min(n, resultBufSize) <= resultBufSize
    ensures forall i :: 0 <= i < |o.written| ==> o.written[i] == BufferByte(data, i)
    ensures o.cleared == (if clearTail then resultBufSize - |o.written| else 0)
  {
    var size := Min(n, resultBufSize);
    var copied := seq(size, i requires 0 <= i < size => BufferByte(data, i));
    Outcome(Value(n), copied, if clearTail && resultBufSize > size then resultBufSize - size else 0)
  }

  /**
   * The argument checks of sys_fsinfo in the order it makes them: the
   * error of the first that fails, or None.
   */
  function CheckArgs(a: Args): (e: Option<Errno>)
    ensures !PairsConsistent(a) ==> e == Some(EINVAL)
    ensures PairsConsistent(a) && a.resultBufSize > UINT_MAX ==> e == Some(EOVERFLOW)
    ensures PairsConsistent(a) && a.resultBufSize <= UINT_MAX && a.paramsGiven && a.params.CopyFailed?
            ==> e == Some(a.params.e)
    ensures e.None? ==> && PairsConsistent(a) && a.resultBufSize <= UINT_MAX
                        && (a.paramsGiven ==> a.params.Copied? && a.params.p.flags & !QUERY_MASK == 0)
                        && (QueryMode(a) == QUERY_PATH || QueryMode(a) == QUERY_FD || QueryMode(a) == QUERY_MOUNT)
                        && !(QueryMode(a) == QUERY_FD && a.pathnameGiven)
  {
    if !PairsConsistent(a) then Some(EINVAL)
    else if a.resultBufSize > UINT_MAX then Some(EOVERFLOW)
    else if a.paramsGiven && a.params.CopyFailed? then Some(a.params.e)
    else if a.paramsGiven && a.params.p.flags & !QUERY_MASK != 0 then Some(EINVAL)
    else
      var mode := QueryMode(a);
      if mode == QUERY_FD && a.pathnameGiven then Some(EINVAL)
      else if mode != QUERY_PATH && mode != QUERY_FD && mode != QUERY_MOUNT then Some(EINVAL)
      else None
  }

  /**
   * Flag checks: a flag bit outside the query mask, or a query mode other
   * than path, fd and mount, is EINVAL.
   */
  lemma UnknownFlagsRejected(a: Args)
    requires PairsConsistent(a) && a.resultBufSize <= UINT_MAX
    requires a.paramsGiven && a.params.Copied?
    ensures a.params.p.flags & !QUERY_MASK != 0 ==> CheckArgs(a) == Some(EINVAL)
    ensures a.params.p.flags & QUERY_MASK > QUERY_MOUNT ==> CheckArgs(a) == Some(EINVAL)
  {
  }

  /** A file-descriptor query may not name a path. */
  lemma FdQueryWithPathRejected(a: Args)
    requires PairsConsistent(a) && a.resultBufSize <= UINT_MAX
    requires a.paramsGiven && a.params.Copied? && a.params.p.flags == QUERY_FD && a.pathnameGiven
    ensures CheckArgs(a) == Some(EINVAL)
  {
    assert QueryMode(a) == QUERY_FD;
  }

  /** A vfs_fsinfo_mount: the as-written one or the corrected one. */
  type MountEntry = (bool, ParsedId, Context, MountQuery) -> Reply

  /**
   * The query sys_fsinfo makes once its arguments pass the checks: by
   * path, by file descriptor or by mount id, from the initial context.
   */
  function Query(a: Args, resolve: Resolvers, mountEntry: MountEntry): Reply
    requires CheckArgs(a).None?
  {
    var ctx := InitialContext(a);
    var mode := QueryMode(a);
    if mode == QUERY_PATH then resolve.path(ctx)
    else if mode == QUERY_FD then resolve.fd(ctx)
    else mountEntry(a.pathnameGiven, a.mountId, ctx, resolve.mount)
  }

  /**
   * The body of sys_fsinfo with the mount entry point as a parameter:
   * argument checks, the query, and the copy-out; `data` stands for the
   * bytes the getter left in the kernel buffer after the skip. Nothing is
   * written to the user's buffer on failure. On success the call returns
   * the full size of the value, however little of it fits the buffer.
   */
  function SysFsinfo(a: Args, resolve: Resolvers, data: seq<bv8>, mountEntry: MountEntry): (o: Outcome)
    ensures CheckArgs(a).Some? ==> o == Outcome(Fail(CheckArgs(a).value), [], 0)
    ensures CheckArgs(a).None? ==> o.ret == Query(a, resolve, mountEntry).ret
    ensures CheckArgs(a).None? && Query(a, resolve, mountEntry).ret.Value? ==>
              o == CopyResult(Query(a, resolve, mountEntry).ret.n, a.resultBufSize,
                              Query(a, resolve, mountEntry).ctx.clearTail, data)
    ensures o.ret.Fail? ==> o.written == [] && o.cleared == 0
    ensures o.ret.Value? ==> |o.written| + o.cleared <= a.resultBufSize
  {
    match CheckArgs(a)
    case Some(e) => Outcome(Fail(e), [], 0)
    case None =>
      var r := Query(a, resolve, mountEntry);
      match r.ret
      case Fail(e) => Outcome(Fail(e), [], 0)
      case Value(n) => CopyResult(n, a.resultBufSize, r.ctx.clearTail, data)
  }

  /** sys_fsinfo as written, mount queries going to vfs_fsinfo_mount as written. */
  function Fsinfo(a: Args, resolve: Resolvers, data: seq<bv8>): (o: Outcome)
    ensures CheckArgs(a).Some? ==> o == Outcome(Fail(CheckArgs(a).value), [], 0)
    ensures CheckArgs(a).None? ==> o.ret == Query(a, resolve, FsinfoMountAsWritten).ret
    ensures CheckArgs(a).None? && Query(a, resolve, FsinfoMountAsWritten).ret.Value? ==>
              o == CopyResult(Query(a, resolve, FsinfoMountAsWritten).ret.n, a.resultBufSize,
                              Query(a, resolve, FsinfoMountAsWritten).ctx.clearTail, data)
    ensures o.ret.Fail? ==> o.written == [] && o.cleared == 0
    ensures o.ret.Value? ==> |o.written| + o.cleared <= a.resultBufSize
  {
    SysFsinfo(a, resolve, data, FsinfoMountAsWritten)
  }

  /** sys_fsinfo with mount queries going to the corrected vfs_fsinfo_mount. */
  function FsinfoFixed(a: Args, resolve: Resolvers, data: seq<bv8>): (o: Outcome)
    ensures CheckArgs(a).Some? ==> o == Outcome(Fail(CheckArgs(a).value), [], 0)
    ensures CheckArgs(a).None? ==> o.ret == Query(a, resolve, FsinfoMount).ret
    ensures CheckArgs(a).None? && Query(a, resolve, FsinfoMount).ret.Value? ==>
              o == CopyResult(Query(a, resolve, FsinfoMount).ret.n, a.resultBufSize,
                              Query(a, resolve, FsinfoMount).ctx.clearTail, data)
    ensures o.ret.Fail? ==> o.written == [] && o.cleared == 0
    ensures o.ret.Value? ==> |o.written| + o.cleared <= a.resultBufSize
    ensures o.ret.Value? && QueryMode(a) == QUERY_MOUNT ==> a.mountId.ParsedId? && a.mountId.id <= INT_MAX
  {
    SysFsinfo(a, resolve, data, FsinfoMount)
  }

  /** A mount query whose id, as parsed, is above INT_MAX. */
  predicate OverflowingMountQuery(a: Args) {
    CheckArgs(a).None? && QueryMode(a) == QUERY_MOUNT
    && a.pathnameGiven && a.mountId.ParsedId? && a.mountId.id > INT_MAX
  }

  /**
   * As written, a mount query with an id from 2^31 to 2^63 - 1 succeeds
   * with a 0-byte value and leaves the user's buffer alone, although no
   * mount was looked up.
   */
  lemma MountOverflowReportsSuccess(a: Args, resolve: Resolvers, data: seq<bv8>)
    requires OverflowingMountQuery(a) && a.mountId.id < LONG_SIGN_BIT
    ensures Fsinfo(a, resolve, data) == Outcome(Value(0), [], 0)
  {
    var o := CopyResult(0, a.resultBufSize, false, data);
    assert o.written == [];
  }

  /**
   * Corrected, a mount query with an id the kernel cannot hold is refused
   * and the user's buffer is left alone.
   */
  lemma MountOverflowRefused(a: Args, resolve: Resolvers, data: seq<bv8>)
    requires OverflowingMountQuery(a)
    ensures FsinfoFixed(a, resolve, data) == Outcome(Fail(EINVAL), [], 0)
  {
  }

  /** The correction changes the outcome of no other call. */
  lemma SyscallFixOnlyRejectsOverflow(a: Args, resolve: Resolvers, data: seq<bv8>)
    requires !OverflowingMountQuery(a)
    ensures FsinfoFixed(a, resolve, data) == Fsinfo(a, resolve, data)
  {
    if CheckArgs(a).None? && QueryMode(a) == QUERY_MOUNT {
      MountFixOnlyRejectsOverflow(a.pathnameGiven, a.mountId, InitialContext(a), resolve.mount);
    }
  }

  /**
   * A call without parameters queries statfs instance 0,0 on the path, and
   * a call without a result buffer only asks for the size.
   */
  lemma SyscallDefaults(a: Args)
    ensures !a.paramsGiven ==> QueryMode(a) == QUERY_PATH
    ensures !a.paramsGiven ==> var c := InitialContext(a);
              c.requestedAttr == ATTR_STATFS && c.nth == 0 && c.mth == 0
    ensures (a.paramsGiven ==> a.params.Copied?) ==>
              (InitialContext(a).wantSizeOnly <==> a.resultBufSize == 0)
  {
  }

  /** The user's buffer after the copy-out. */
  function ApplyOutcome(prior: seq<bv8>, o: Outcome): (r: seq<bv8>)
    requires |o.written| + o.cleared <= |prior|
    ensures |r| == |prior|
  {
    o.written + seq(o.cleared, i => 0 as bv8) + prior[|o.written| + o.cleared..]
  }

  /**
   * After a successful call the user's buffer starts with the value, cut
   * to the buffer; the rest is zeroed for a struct value and left alone
   * for any other.
   */
  lemma UserBufferAfterCopy(n: nat, clearTail: bool, data: seq<bv8>, prior: seq<bv8>)
    ensures var o := CopyResult(n, |prior|, clearTail, data);
            var r := ApplyOutcome(prior, o);
            var m := Min(n, |prior|);
            && (forall i :: 0 <= i < m ==> r[i] == BufferByte(data, i))
            && (clearTail ==> forall i :: m <= i < |prior| ==> r[i] == 0)
            && (!clearTail ==> forall i :: m <= i < |prior| ==> r[i] == prior[i])
  {
    var o := CopyResult(n, |prior|, clearTail, data);
    var r := ApplyOutcome(prior, o);
    var m := Min(n, |prior|);
    forall i | m <= i < |prior|
      ensures clearTail ==> r[i] == 0
      ensures !clearTail ==> r[i] == prior[i]
    {
      if clearTail {
        assert r[i] == seq(o.cleared, j => 0 as bv8)[i - m];
      }
    }
  }
}
