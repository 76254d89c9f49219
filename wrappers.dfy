/** Option and Result, the two ways the modelled code reports absence and failure. */
module Wrappers {

  /** A value that may be absent (Python's `None`). */
  datatype Option<+T> = None | Some(value: T)

  /** A computation that either produced a value or raised an exception. */
  datatype Result<+T, +E> = Ok(value: T) | Err(error: E)
}
