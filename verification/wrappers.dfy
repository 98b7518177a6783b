/** Failure-compatible values used throughout the model: a nullable Java
    reference becomes an `Option`, an operation that can throw becomes a `Result`. */
module Wrappers {

  /** A Java reference that may be null (`None`). */
  datatype Option<+T> = None | Some(value: T)

  /** A computation that either yields a value or raises an error. */
  datatype Result<+R, +E> = Success(value: R) | Failure(error: E)
}
