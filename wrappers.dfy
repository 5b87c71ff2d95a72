/** Optional values and results with an error, as used by the rest of the model. */
module Wrappers {

  /** A value that may be absent, like a JavaScript `undefined`. */
  datatype Option<+T> = None | Some(value: T)

  /** The outcome of an operation that either succeeds or throws. */
  datatype Result<+R, +E> = Success(value: R) | Failure(error: E)
}
