/** Option and Result, the two failure-compatible wrappers the model uses. */
module Wrappers {

  /** A value that may be missing; stands for Python's `None` (and for the empty-string template of a Node). */
  datatype Option<+T> = None | Some(value: T)

  /** The outcome of an operation that raises an exception in the source. */
  datatype Result<+T, +E> = Ok(value: T) | Err(error: E)
}
