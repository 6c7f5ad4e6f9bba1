/** Optional values and success-or-failure results used by every handler. */
module Wrappers {

  /** An optional value: a field that may be absent from a document or request. */
  datatype Option<+T> = None | Some(value: T)

  /** The outcome of a request handler: a value, or the error it reports. */
  datatype Result<+R, +E> = Success(value: R) | Failure(error: E)
}
