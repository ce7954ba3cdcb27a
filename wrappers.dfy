/** Optional values and error returns, used where the source returns None or raises. */
module Wrappers {

  datatype Option<+T> = None | Some(value: T)

  /** `Ok(value)` for a normal return, `Err(error)` for a raised validation error. */
  datatype Result<+T, +E> = Ok(value: T) | Err(error: E)
}
