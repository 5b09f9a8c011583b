/** Option and Result: a missing cell, and an operation that either yields a
    value or raises an error. */
module Wrappers {

  /** A table cell that may be null (NaN once the CSV reader has parsed it). */
  datatype Option<+T> = None | Some(value: T)

  /** The value an operation returns, or the error it raises. */
  datatype Result<+T, +E> = Success(value: T) | Failure(error: E)
}
