/** Failure-compatible result types shared by the model. */
module Wrappers {

  /** An optional value (Rust's `Option`). */
  datatype Option<+T> = None | Some(value: T)

  /** A value or an error (Rust's `Result`). */
  datatype Result<+T, +E> = Ok(value: T) | Err(error: E)

  /** One of two successor states (the `either::Either` crate). */
  datatype Either<+L, +R> = Left(left: L) | Right(right: R)
}
