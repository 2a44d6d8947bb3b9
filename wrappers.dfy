/** Optional values and results with an error, shared by the other modules. */
module Wrappers {

  /** A value that may be absent (Python's `None`, TypeScript's `undefined`). */
  datatype Option<+T> = None | Some(value: T)

  /** Either a value or the exception that was raised instead. */
  datatype Result<+T, +E> = Success(value: T) | Failure(error: E)
}
