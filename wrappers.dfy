/**
  The optional value used wherever the C code returns a pointer that may be
  NULL, and the result of an operation that can fail with an error.
 */
module Wrappers {

  datatype Option<+T> = None | Some(value: T)

  datatype Result<+T, +E> = Ok(value: T) | Err(error: E)

}
