/** Failure-carrying results used by every module of the model. */
module Wrappers {

  /** A value that may be absent, as `None` is in Python. */
  datatype Option<+T> = None | Some(value: T)

  /** The value of a computation, or the error it raises. */
  datatype Result<+T, +E> = Ok(value: T) | Err(error: E)
}
