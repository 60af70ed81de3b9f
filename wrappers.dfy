/** Optional values and failure-carrying results, shared by every module of the model. */
module Wrappers {

  /** A value that may be absent (a JavaScript property that may be `undefined`). */
  datatype Option<+T> = None | Some(value: T)

  /** The outcome of an operation that either returns a value or throws an error. */
  datatype Result<+R, +E> = Success(value: R) | Failure(error: E)
}
