/** Failure-carrying result types used across the model. */
module Wrappers {

  datatype Option<+T> = None | Some(value: T)

  datatype Result<+R, +E> = Success(value: R) | Failure(error: E)

  /** Pass, or the message of the exception the operation raised. */
  datatype Outcome = Pass | Fail(message: string)
}
