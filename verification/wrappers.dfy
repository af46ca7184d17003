/** Failure-carrying datatypes used in place of Java's null references and exceptions. */
module Wrappers {

  /** A value that may be absent; `None` plays the role of a Java null reference. */
  datatype Option<+T> = None | Some(value: T)

  /** The outcome of an operation that either returns a value or throws. */
  datatype Result<+R, +E> = Success(value: R) | Failure(error: E)
}
