/** Optional values and error-carrying results. */
module Wrappers {

  /** Python's `Optional`: `None`, or some value. */
  datatype Option<+T> = None | Some(value: T)

  /** A value, or the exception the source raises instead of returning. */
  datatype Result<+T, +E> = Ok(value: T) | Err(error: E)
}
