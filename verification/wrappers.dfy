/** Failure-carrying return values, standing in for values that may be absent
    and for operations that may raise a game error. */
module Wrappers {

  /** A value that may be absent (Python's `None`). */
  datatype Option<+T> = None | Some(value: T)

  /** Either the value an operation computes, or the error it raised. */
  datatype Result<+T, +E> = Ok(value: T) | Err(error: E)
}
