/** Failure-carrying values used where the Python code returns a sentinel or raises. */
module Wrappers {

  /** A value or nothing; stands for Python's "object or False" returns. */
  datatype Option<+T> = None | Some(value: T)

  /** A value or the error that Python would raise instead of returning it. */
  datatype Result<+R, +E> = Success(value: R) | Failure(error: E)

  /** A check that either passes or fails with an error. */
  datatype Outcome<+E> = Pass | Fail(error: E)
}
