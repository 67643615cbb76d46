/** Option, Result and Outcome: Java's null, Optional and thrown exceptions as values. */
module Wrappers {

  /** A value that may be absent: a nullable Java reference or an `Optional`. */
  datatype Option<+T> = None | Some(value: T)

  /** The value of an operation that returns something or throws. */
  datatype Result<+R, +E> = Success(value: R) | Failure(error: E)

  /** The outcome of a `void` operation that may throw. */
  datatype Outcome<+E> = Pass | Fail(error: E)
}
