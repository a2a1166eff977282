/** Option and Result types used across the model. */
module Wrappers {

  /** A value that may be absent (Python's `None`). */
  datatype Option<+T> = None | Some(value: T)

  /** An operation that either succeeds or raises an exception whose text is kept. */
  datatype Result<+R, +E> = Success(value: R) | Failure(error: E)
}
