/** Sizes and error numbers the modules share. */
module Limits {
  /** One more than the largest u32. */
  const U32: nat := 0x1_0000_0000

  const ENOMEM: int := 12
  const EINVAL: int := 22
}
