/** Success/failure values standing in for Python's optional results and exceptions. */
module Wrappers {

  /** A value that may be missing (a dictionary key that is absent, a search that finds nothing). */
  datatype Option<+T> = None | Some(value: T)

  /** The outcome of a call that either returns a value or raises. */
  datatype Result<+R, +E> = Success(value: R) | Failure(error: E)
}
