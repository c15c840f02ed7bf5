/** Failure-compatible wrappers used for Java's null results and thrown errors. */
module Wrappers {

  /** A value that may be absent (a Java reference that may be null). */
  datatype Option<+T> = None | Some(value: T)

  /** Either a value or the error a Java method would have thrown instead. */
  datatype Result<+R, +E> = Success(value: R) | Failure(error: E)
}
