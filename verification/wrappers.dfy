/** Failure-carrying values used where the profiled program raises or has nothing to return. */
module Wrappers {

  /** Something or nothing; Python's `Optional`. */
  datatype Option<+T> = None | Some(value: T)

  /** A value, or the error the program would have raised instead. */
  datatype Result<+T, +E> = Success(value: T) | Failure(error: E)
}
