/**
 * The PA-RISC futex operations (arch/parisc/include/asm/futex.h), as the
 * value semantics of one sequential call. The hashed lock array is
 * modelled only through its index computation; the locking itself, IRQ
 * state and real user memory are left out. The user word is a 32-bit value
 * with two flags saying whether reading or writing it faults. The C `int`
 * values oparg and *oval are modelled by their 32-bit patterns.
 */
module PariscFutex {
  import opened KernelTypes

  /** The futex operation codes of the generic futex interface. */
  const FUTEX_OP_SET: int := 0
  const FUTEX_OP_ADD: int := 1
  const FUTEX_OP_OR: int := 2
  const FUTEX_OP_ANDN: int := 3
  const FUTEX_OP_XOR: int := 4

  /**
   * The lock a user address hashes to: ((long)uaddr & 0xf0) >> 2, a word
   * index into lws_lock_start. Bits 4..7 of the address pick one of sixteen
   * four-word locks, so the index is a multiple of 4 below 64.
   */
  function LockIndex(addr: bv64): (r: bv64)
    ensures r & 3 == 0 && r < 64
  {
    (addr & 0xf0) >> 2
  }

  /** Two addresses share a lock exactly when they agree on bits 4..7. */
  lemma SameLockIff(a: bv64, b: bv64)
    ensures LockIndex(a) == LockIndex(b) <==> a & 0xf0 == b & 0xf0
  {
  }

  /** Every one of the sixteen locks is reached: address 16k hashes to lock word 4k. */
  lemma EveryLockUsed(k: bv64)
    requires k < 16
    ensures LockIndex(k << 4) == k << 2
  {
  }

  /** The user word at uaddr, and whether get_user / put_user on it fault. */
  datatype UserWord = UserWord(value: bv32, readFaults: bool, writeFaults: bool)

  /** The outcome of a call: the error (None for 0), the user word afterwards, and *oval. */
  datatype OpOutcome = OpOutcome(err: Option<Errno>, word: bv32, oval: bv32)

  predicate KnownOp(op: int) {
    op == FUTEX_OP_SET || op == FUTEX_OP_ADD || op == FUTEX_OP_OR
    || op == FUTEX_OP_ANDN || op == FUTEX_OP_XOR
  }

  /**
   * The new value an operation computes from the previous one (ADD is u32
   * addition, wrapping modulo 2^32); unknown ops are never applied.
   */
  function Apply(op: int, prev: bv32, oparg: bv32): (r: bv32)
    requires KnownOp(op)
  {
    if op == FUTEX_OP_SET then oparg
    else if op == FUTEX_OP_ADD then prev + oparg
    else if op == FUTEX_OP_OR then prev | oparg
    else if op == FUTEX_OP_ANDN then prev & !oparg
    else prev ^ oparg
  }

  /**
   * arch_futex_atomic_op_inuser: EFAULT when the read faults, ENOSYS for an
   * unknown op, EFAULT when the write faults; on success the new value is
   * stored and *oval receives the value read. *oval is set only on success
   * and the word changes only on success.
   */
  function AtomicOpInUser(op: int, oparg: bv32, oval: bv32, u: UserWord): (r: OpOutcome)
    ensures r.err.None? <==> !u.readFaults && KnownOp(op) && !u.writeFaults
    ensures u.readFaults ==> r.err == Some(EFAULT)
    ensures !u.readFaults && !KnownOp(op) ==> r.err == Some(ENOSYS)
    ensures !u.readFaults && KnownOp(op) && u.writeFaults ==> r.err == Some(EFAULT)
    ensures r.err.None? ==> r.oval == u.value && r.word == Apply(op, u.value, oparg)
    ensures r.err.Some? ==> r.oval == oval && r.word == u.value
  {
    if u.readFaults then OpOutcome(Some(EFAULT), u.value, oval)
    else
      var oldval := u.value;
      var err := if KnownOp(op) then None else Some(ENOSYS);
      var tmp := if KnownOp(op) then Apply(op, oldval, oparg) else oldval;
      var err' := if err.None? && u.writeFaults then Some(EFAULT) else err;
      var word := if err.None? && !u.writeFaults then tmp else u.value;
      OpOutcome(err', word, if err'.None? then oldval else oval)
  }

  /** SET stores the argument. */
  lemma SetStoresArgument(prev: bv32, oparg: bv32)
    ensures Apply(FUTEX_OP_SET, prev, oparg) == oparg
  {
  }

  /** OR sets the argument's bits and keeps every other bit. */
  lemma OrSetsBits(prev: bv32, oparg: bv32)
    ensures Apply(FUTEX_OP_OR, prev, oparg) & oparg == oparg
    ensures Apply(FUTEX_OP_OR, prev, oparg) & !oparg == prev & !oparg
  {
  }

  /** ANDN clears the argument's bits and keeps every other bit. */
  lemma AndnClearsBits(prev: bv32, oparg: bv32)
    ensures Apply(FUTEX_OP_ANDN, prev, oparg) & oparg == 0
    ensures Apply(FUTEX_OP_ANDN, prev, oparg) & !oparg == prev & !oparg
  {
  }

  /** XOR with the same argument twice gives back the previous value. */
  lemma XorTwiceRestores(prev: bv32, oparg: bv32)
    ensures Apply(FUTEX_OP_XOR, Apply(FUTEX_OP_XOR, prev, oparg), oparg) == prev
  {
  }

  /**
   * The outcome of futex_atomic_cmpxchg_inatomic: the error (None for 0),
   * the user word afterwards, and *uval.
   */
  datatype CmpxchgOutcome = CmpxchgOutcome(err: Option<Errno>, word: bv32, uval: bv32)

  /**
   * futex_atomic_cmpxchg_inatomic: EFAULT for address 0 under kernel
   * access, for an address failing access_ok, or when the read or the
   * write faults; otherwise newval is stored exactly when the word equals
   * oldval, and *uval receives the value read.
   */
  function CmpxchgInatomic(kernelAccess: bool, addr: bv64, accessOk: bool, u: UserWord,
                           oldval: bv32, newval: bv32, uval: bv32): (r: CmpxchgOutcome)
    ensures r.err.None? <==>
              !(kernelAccess && addr == 0) && accessOk && !u.readFaults && !(u.value == oldval && u.writeFaults)
    ensures r.err.Some? ==> r.err == Some(EFAULT) && r.uval == uval && r.word == u.value
    ensures r.err.None? ==> r.uval == u.value && r.word == (if u.value == oldval then newval else u.value)
  {
    if kernelAccess && addr == 0 then CmpxchgOutcome(Some(EFAULT), u.value, uval)
    else if !accessOk then CmpxchgOutcome(Some(EFAULT), u.value, uval)
    else if u.readFaults then CmpxchgOutcome(Some(EFAULT), u.value, uval)
    else
      var val := u.value;
      if val == oldval && u.writeFaults then CmpxchgOutcome(Some(EFAULT), u.value, uval)
      else
        var word := if val == oldval then newval else val;
        CmpxchgOutcome(None, word, val)
  }

  /**
   * A successful cmpxchg behaves as compare-and-swap: the caller learns the
   * previous value, and the swap happened exactly when it matched.
   */
  lemma CmpxchgIsCompareAndSwap(kernelAccess: bool, addr: bv64, accessOk: bool, u: UserWord,
                                oldval: bv32, newval: bv32, uval: bv32)
    requires CmpxchgInatomic(kernelAccess, addr, accessOk, u, oldval, newval, uval).err.None?
    ensures var r := CmpxchgInatomic(kernelAccess, addr, accessOk, u, oldval, newval, uval);
            && (r.uval == oldval ==> r.word == newval)
            && (r.uval != oldval ==> r.word == r.uval)
  {
  }
}
