/** Option and outcome types standing in for C#'s null and for exceptions. */
module Wrappers {

  /** A possibly-null value: `None` is C#'s `null`. */
  datatype Option<+T> = None | Some(value: T)

  /** The result of an operation that either produces a value or throws. */
  datatype Result<+R, +E> = Success(value: R) | Failure(error: E)

  /** The result of an operation that produces nothing, or throws. */
  datatype Outcome<+E> = Pass | Fail(error: E)
}
