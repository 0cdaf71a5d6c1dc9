/** Failure-carrying wrappers shared by every module of the model. */
module Wrappers {

  /** A value that may be absent (`undefined` in the original program). */
  datatype Option<+T> = None | Some(value: T)

  /** The outcome of an operation that either produces a value or throws. */
  datatype Result<+R, +E> = Success(value: R) | Failure(error: E)
}
