/** Failure-carrying return values, standing in for Java's nullable
    references, Optional results and thrown exceptions. */
module Wrappers {

  /** A Java reference that may be null, or an Optional. */
  datatype Option<+T> = None | Some(value: T)

  /** The result of an operation that either returns a value or throws. */
  datatype Result<+R, +E> = Success(value: R) | Failure(error: E)

  /** The result of a `void` operation that may throw. */
  datatype Outcome<+E> = Pass | Fail(error: E)
}
