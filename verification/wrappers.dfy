/** Optional values and success/failure results, used where the Python code
    has `None` or catches an exception. */
module Wrappers {

  /** A value that may be absent (Python's `None`). */
  datatype Option<+T> = None | Some(value: T)

  /** The outcome of a step that either produces a value or fails with an
      error (Python's `try`/`except`). */
  datatype Result<+R, +E> = Success(value: R) | Failure(error: E)
}
