/** Failure-carrying results for the queries whose Python counterparts can raise. */
module Wrappers {

  /** A value, or nothing (the query raised IndexError). */
  datatype Option<+T> = None | Some(value: T)

  /** A value, or the error the query raised. */
  datatype Result<+T, +E> = Ok(value: T) | Err(error: E)
}
