/** Failure-carrying result types used for the Java exceptions of the model. */
module Wrappers {

  /** A value that may be absent (Java's `null`). */
  datatype Option<+T> = None | Some(value: T)

  /** Either a value or the error that replaced it (a thrown exception). */
  datatype Result<+R, +E> = Success(value: R) | Failure(error: E)

  /** Success without a value, or an error (a `void` method that may throw). */
  datatype Outcome<+E> = Pass | Fail(error: E)
}
