/** Option and Result, used for Python's `None` and for the `fail(...)` exits of the CLI. */
module Wrappers {
  datatype Option<+T> = None | Some(value: T)

  datatype Result<+T, +E> = Ok(value: T) | Err(error: E)
}
