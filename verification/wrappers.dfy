/** Optional and fallible values: Python's `None` and raised exceptions made explicit. */
module Wrappers {

  /** A value that may be absent, as a Python function returning `None`. */
  datatype Option<+T> = None | Some(value: T)

  /** A computation that either produced a value or raised `error`. */
  datatype Result<+T, +E> = Success(value: T) | Failure(error: E)
}
