/** Failure-carrying values used in place of Java's null, Optional and exceptions. */
module Wrappers {

  /** java.util.Optional, or a nullable reference. */
  datatype Option<+T> = None | Some(value: T)

  /** A value, or the exception an operation throws instead of returning. */
  datatype Result<+R, +E> = Success(value: R) | Failure(error: E)

  /** A void operation that either completes or throws. */
  datatype Outcome<+E> = Pass | Fail(error: E)
}
