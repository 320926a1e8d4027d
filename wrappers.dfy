/** Option and Result, the value-level stand-ins for Java's null and exceptions. */
module Wrappers {

  /** A value that may be absent (Java `null`). */
  datatype Option<+T> = None | Some(value: T)

  /** A successful value or a failure that the caller must react to (a Java exception). */
  datatype Result<+R, +E> = Success(value: R) | Failure(error: E)
}
