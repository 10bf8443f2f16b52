/** The result shapes and the machine limit the other modules share. */
module Wrappers {
  datatype Option<+T> = None | Some(value: T)

  datatype Result<+T, +E> = Ok(value: T) | Err(error: E)

  /** One past the largest 32-bit unsigned value. */
  const U32_LIMIT := 0x1_0000_0000
}
