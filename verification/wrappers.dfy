/** Optional values and results with failures. */
module Wrappers {

  /** Absence of a value: a NULL pointer, an unset environment variable. */
  datatype Option<+T> = None | Some(value: T)

  /** A value or the reason there is none. */
  datatype Result<+T, +E> = Ok(value: T) | Err(error: E)
}
