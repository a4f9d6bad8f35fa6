/** Failure-carrying datatypes shared by the other modules. */
module Wrappers {

  /** A value that may be absent: a parse that did not succeed, a header that is not there. */
  datatype Option<+T> = None | Some(value: T)

  /** The outcome of an operation that may fail with an error value instead of an exception. */
  datatype Result<+R, +E> = Success(value: R) | Failure(error: E)
}
