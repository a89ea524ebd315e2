/** Optional values and error-carrying results shared by every module. */
module Wrappers {

  /** `None` plays the part of PHP's `null` / SQL's `NULL`. */
  datatype Option<+T> = None | Some(value: T)

  /** A computation that either succeeds with a value or reports an error. */
  datatype Result<+T, +E> = Ok(value: T) | Err(error: E)
}
