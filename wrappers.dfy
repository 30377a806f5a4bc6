/** Option and Result values standing in for Python's `None` and for raised exceptions. */
module Wrappers {

  /** A value that may be missing (Python `None`). */
  datatype Option<+T> = None | Some(value: T)

  /** Either a computed value or the exception the Python code raises instead. */
  datatype Result<+T, +E> = Ok(value: T) | Err(error: E)
}
