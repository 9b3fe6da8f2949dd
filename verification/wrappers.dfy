/** Failure-carrying result types shared by the whole model. */
module Wrappers {

  /** A value that may be absent, such as an environment variable that is not set. */
  datatype Option<+T> = None | Some(value: T)

  /** Either a computed value or the error that prevented it. */
  datatype Result<+R, +E> = Success(value: R) | Failure(error: E)
}
