/** Option and outcome types standing in for Java's nulls, Optional and thrown exceptions. */
module Wrappers {

  /** A value that may be absent: a Java reference that may be null, or an `Optional`. */
  datatype Option<+T> = None | Some(value: T)

  /** A call that returns a value or throws. */
  datatype Result<+T, +E> = Success(value: T) | Failure(error: E)

  /** A `void` call: it returns normally or throws. */
  datatype Outcome<+E> = Pass | Fail(error: E)
}
