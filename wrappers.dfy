/** Option and Result, the two failure-carrying wrappers the rest of the model uses. */
module Wrappers {

  /** A value that may be absent: JavaScript's `undefined` for an optional field. */
  datatype Option<+T> = None | Some(value: T)

  /** A value or the error a call raised instead of returning. */
  datatype Result<+R, +E> = Success(value: R) | Failure(error: E)
}
