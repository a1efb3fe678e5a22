/** Error-carrying results, standing in for Python's exceptions. */
module Wrappers {

  datatype Option<+T> = None | Some(value: T)

  /** `Ok(value)` is a normal return; `Err(error)` is a raised exception. */
  datatype Result<+T, +E> = Ok(value: T) | Err(error: E)
}
