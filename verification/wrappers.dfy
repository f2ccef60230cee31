/** Failure-carrying datatypes standing for Rust's `Option`, `Result<T>` and `Result<()>`. */
module Wrappers {

  /** Rust's `Option<T>`. */
  datatype Option<+T> = None | Some(value: T)

  /** Rust's `Result<T, E>`. */
  datatype Result<+T, +E> = Success(value: T) | Failure(error: E)

  /** Rust's `Result<(), E>`: a step either passes or fails with an error. */
  datatype Outcome<+E> = Pass | Fail(error: E)
}
