/** Failure-compatible wrappers used throughout the model: `Option` for a
    reference that may be null, `Result` for an operation that may throw. */
module Wrappers {

  datatype Option<+T> = None | Some(value: T)

  datatype Result<+T, +E> = Success(value: T) | Failure(error: E)
}
