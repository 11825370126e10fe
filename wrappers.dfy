/** Optional values and the success-or-error results that stand in for
    Python's `None` and for the exceptions the converter raises. */
module Wrappers {

  datatype Option<+T> = None | Some(value: T)

  /** A computation that either produced a value or raised an error. */
  datatype Result<+T, +E> = Success(value: T) | Failure(error: E)
}
