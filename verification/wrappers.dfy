/** Failure-compatible wrappers used across the model. */
module Wrappers {

  /** An optional value: `None` stands for a missing child, key or view. */
  datatype Option<+T> = None | Some(value: T)

  /** The outcome of an operation that may throw: its value, or the exception it throws. */
  datatype Result<+R, +E> = Success(value: R) | Failure(error: E)
}
