/** Option and Result types shared by the other modules. */
module Wrappers {

  /** A value that may be absent (Python's `Optional`, SQL's NULL). */
  datatype Option<+T> = None | Some(value: T)

  /** The outcome of an operation that can fail with an error value. */
  datatype Result<+T, +E> = Ok(value: T) | Err(error: E)
}
