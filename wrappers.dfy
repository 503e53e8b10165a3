/** Failure-carrying result types used in place of Java's null returns and exceptions. */
module Wrappers {

  /** Some value, or none in place of a Java null. */
  datatype Option<+T> = None | Some(value: T)

  /** A value, or the error the Java code would throw instead of returning it. */
  datatype Result<+R, +E> = Success(value: R) | Failure(error: E)

  /** The outcome of a void Java method that may throw. */
  datatype Outcome<+E> = Pass | Fail(error: E)
}
