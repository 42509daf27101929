/** Optional values and error-carrying results used across the crawler model. */
module Outcomes {

  /** A value that may be absent, such as a URL that failed to parse. */
  datatype Option<+T> = None | Some(value: T)

  /** Either a value or the error a Go function would have returned beside a nil value. */
  datatype Result<+T, +E> = Success(value: T) | Failure(error: E)
}
