/** Option and Result, in place of the source's optional values and error returns. */
module Wrappers {
  datatype Option<+T> = None | Some(value: T)

  datatype Result<+T, +E> = Ok(value: T) | Err(error: E)

  /** A UTF-8 code unit; file contents and encoder inputs are sequences of these. */
  type byte = b: int | 0 <= b < 256
}
