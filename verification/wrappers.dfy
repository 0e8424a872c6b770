/** Failure-compatible wrappers used across the model: an optional value and
    a success/failure result carrying an error description. */
module Wrappers {

  datatype Option<+T> = None | Some(value: T)

  datatype Result<+T, +E> = Success(value: T) | Failure(error: E)
}
