/** `Option` and `Result`, used across the model. */
module Wrappers {

  /** An optional value: Rust's `Option`. */
  datatype Option<+T> = None | Some(value: T)

  /** A value or an error: Rust's `Result`. */
  datatype Result<+T, +E> = Success(value: T) | Failure(error: E)
}
