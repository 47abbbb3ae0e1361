/** Option and Result values shared by the template and formatting modules. */
module Wrappers {

  /** A value that may be absent: JavaScript's `null`/`undefined` at an API edge. */
  datatype Option<+T> = None | Some(value: T)

  /** The outcome of an operation that can throw in the original program. */
  datatype Result<+T, +E> = Ok(value: T) | Err(error: E)
}
