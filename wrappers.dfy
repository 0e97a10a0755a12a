/** Failure-carrying return types shared by the modules of this model. */
module Wrappers {

  /** A value that may be absent: Python's `None` or a value. */
  datatype Option<T> = None | Some(value: T)

  /** The outcome of an operation that either returns a value or fails. */
  datatype Result<T, E> = Success(value: T) | Failure(error: E)
}
