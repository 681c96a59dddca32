/** Optional values and results, shared by every module of the model. */
module Wrappers {

  /** A value that may be absent: Python's `None` or a row that `.first()` did not find. */
  datatype Option<+T> = None | Some(value: T)

  /** The outcome of a request handler: a value, or the error the handler reports (an HTTP 404, a redirect). */
  datatype Result<+R, +E> = Success(value: R) | Failure(error: E)
}
