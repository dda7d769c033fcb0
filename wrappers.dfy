/** Failure-compatible wrappers used for the Python code's exceptions and
    missing values. */
module Wrappers {

  /** A value that may be absent (Python's `None`, pandas' `NaN`/`NaT`). */
  datatype Option<+T> = None | Some(value: T)

  /** The outcome of an operation that may raise. */
  datatype Result<+R, +E> = Success(value: R) | Failure(error: E)
}
