/** Failure-compatible result types used in place of Python's exceptions. */
module Wrappers {

  /** A value that may be absent: a lookup miss or a parse failure. */
  datatype Option<T> = None | Some(value: T)

  /** The outcome of an operation that raises on bad input. */
  datatype Result<T, E> = Success(value: T) | Failure(error: E)
}
