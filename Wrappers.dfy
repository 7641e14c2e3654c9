/** Failure-carrying result types shared by the model's modules. */
module Wrappers {

  /** A value that may be absent (a `TryParse` that returned false, a missing XML root). */
  datatype Option<+T> = None | Some(value: T)

  /** A value or the error that replaced it (a thrown exception). */
  datatype Result<+T, +E> = Success(value: T) | Failure(error: E)

  /** A check that either passes or fails with an error (a method that returns or throws). */
  datatype Outcome<+E> = Pass | Fail(error: E)
}
