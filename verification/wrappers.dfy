/** Failure-carrying return values: Go's `(value, ok)` and `(value, error)` pairs. */
module Wrappers {

  /** A value that may be absent. */
  datatype Option<+T> = None | Some(value: T)

  /** Either a value or an error, as a Go function returning `(T, error)`. */
  datatype Result<+T, +E> = Ok(value: T) | Err(error: E)
}
