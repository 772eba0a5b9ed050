/** Failure-compatible result types used in place of Java's exceptions and Optional. */
module Wrappers {

  /** Java's Optional: a value or nothing. */
  datatype Option<+T> = None | Some(value: T)

  /** The outcome of a call that returns a value or throws. */
  datatype Result<+T, +E> = Success(value: T) | Failure(error: E)

  /** The outcome of a void call that may throw. */
  datatype Outcome<+E> = Pass | Fail(error: E)
}
