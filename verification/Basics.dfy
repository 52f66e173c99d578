/** What several modules share. */
module Basics {
  datatype Option<+T> = None | Some(value: T)

  /** The largest `int` of the Cortex-M4. */
  const INT_MAX: nat := 0x7FFF_FFFF
}
