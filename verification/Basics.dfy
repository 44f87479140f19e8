/** What several components share. */
module Basics {

  /** The usual optional value; `None` is "absent". */
  datatype Option<+T> = None | Some(value: T)

  /** A 256-bit hash, read as a number; zero is the null hash. */
  type Hash256 = nat

  const TWO_32: nat := 0x1_0000_0000
  const TWO_64: nat := 0x1_0000_0000_0000_0000

  /** The limit for a block without its witnesses, in bytes. */
  const MAX_BLOCK_BASE_SIZE: nat := 1000000
}
