/** Optional values and results shared by every module of the model. */
module Wrappers {

  /** A value that may be absent (Python's `None`, a nullable column). */
  datatype Option<+T> = None | Some(value: T)

  /** The outcome of an operation that either succeeds with a value or fails with an error. */
  datatype Result<+T, +E> = Ok(value: T) | Err(error: E)
}
