/** The success-or-error value that Rust's `Result` and the `?` operator stand for. */
module Wrappers {
  datatype Result<+T, +E> = Success(value: T) | Failure(error: E)
}
