/** Failure-compatible wrappers used for the Go `(value, error)` return pairs. */
module Results {

  /** A value that may be absent (a Go nil pointer result). */
  datatype Option<+T> = None | Some(value: T)

  /** Either a value or the error the Go function would have returned. */
  datatype Result<+T, +E> = Ok(value: T) | Err(error: E)
}
