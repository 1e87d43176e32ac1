/** Failure-carrying result types shared by every module of the model. */
module Wrappers {

  /** A value that may be absent: the model's stand-in for a null pointer or `npos`. */
  datatype Option<+T> = None | Some(value: T)

  /** The outcome of an operation that may throw: `Err` carries the exception. */
  datatype Result<+T, +E> = Ok(value: T) | Err(error: E)
}
