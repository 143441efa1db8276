/** Failure-carrying results shared by the model: Go returns `(value, error)`
    pairs and `(value, ok)` lookups; both become one of these. */
module Results {

  /** A lookup or computation that may have nothing to return. */
  datatype Option<+T> = None | Some(value: T)

  /** A computation that either succeeds with a value or fails with an error. */
  datatype Result<+T, +E> = Ok(value: T) | Err(error: E)
}
