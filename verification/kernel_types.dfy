/**
 * Small vocabulary shared by the models: an option type and the kernel error
 * codes the modelled code returns. Error codes are kept symbolic: the code
 * only ever compares them for equality or returns them, and their numeric
 * values differ between architectures (ENOSYS on PA-RISC, for one).
 */
module KernelTypes {

  datatype Option<T> = None | Some(value: T)

  /** The negated errno values returned by the modelled functions. */
  datatype Errno =
    | EINVAL       // invalid argument
    | EFAULT       // bad user address
    | ENOSYS       // operation not implemented
    | ENODATA      // the attribute exists but the Nth/Mth value does not
    | EOPNOTSUPP   // attribute not supported
    | ENOPKG       // internal failure: unknown attribute type
    | EMSGSIZE     // value unmanageably large
    | ENOMEM       // allocation failed
    | ENODEV       // the bus lacks a needed capability
    | EOVERFLOW    // size does not fit
    | ERESTARTSYS  // interrupted by a signal

  /** 2^32, the modulus of the kernel's u32 arithmetic. */
  const U32_MODULUS: nat := 0x1_0000_0000

  /** UINT_MAX and INT_MAX of the 32-bit C types. */
  const UINT_MAX: nat := 0xFFFF_FFFF
  const INT_MAX: nat := 0x7FFF_FFFF

  /** min() of two sizes or counts. */
  function Min(a: nat, b: nat): nat {
    if a <= b then a else b
  }
}
