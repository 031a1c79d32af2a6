/** Failure-carrying values used in place of PHP's null and exceptions. */
module Wrappers {

  /** A value that may be absent: PHP's `null` for an unset slot or key. */
  datatype Option<+T> = None | Some(value: T)

  /** The outcome of an operation that may throw: `Failure` carries what it throws. */
  datatype Result<+R, +E> = Success(value: R) | Failure(error: E)
}
