/** Optional values and success/failure results. */
module Wrappers {

  /** A value that may be absent, as `dict.get` returns `None` for a missing key. */
  datatype Option<+T> = None | Some(value: T)

  /** The outcome of an operation that either succeeds with a value or fails with an error. */
  datatype Result<+R, +E> = Success(value: R) | Failure(error: E)
}
