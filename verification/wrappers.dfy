/** Failure-carrying values shared by the whole model. */
module Wrappers {

  /** A value that may be absent: Python's `None` or an unset field. */
  datatype Option<+T> = None | Some(value: T)

  /** The outcome of an operation that can raise: `Ok` carries the value,
      `Err` the exception the Python code raises. */
  datatype Result<+T, +E> = Ok(value: T) | Err(error: E)
}
