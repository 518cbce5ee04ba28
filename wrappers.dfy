/** Option and Result values for Python's `None` returns and raised errors. */
module Wrappers {

  /** A value that may be missing, as Python's `X | None`. */
  datatype Option<+T> = None | Some(value: T)

  /** The outcome of a call that either returns a value or raises an error. */
  datatype Result<+T, +E> = Ok(value: T) | Err(error: E)
}
