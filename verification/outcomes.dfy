/** The two failure-aware wrappers the model needs: an optional value, which
    stands for Python's `None` versus a value, and a result that is either a
    value or the exception that aborted the computation. */
module Outcomes {

  /** A value that may be absent (Python's `None`). */
  datatype Option<+T> = None | Some(value: T)

  /** A value, or the error that stopped the computation producing it. */
  datatype Result<+T, +E> = Ok(value: T) | Err(error: E)
}
