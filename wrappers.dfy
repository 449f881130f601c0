/** Failure-compatible wrappers used across the model. */
module Wrappers {

  datatype Option<+T> = None | Some(value: T)

  /** The value of an operation that either succeeds or raises one of the source's exceptions. */
  datatype Result<+R, +E> = Success(value: R) | Failure(error: E)
}
