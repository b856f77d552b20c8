/** Go's optional pointers and (value, error) pairs, as values. */
module Wrappers {

  /** A Go pointer that may be nil: `None` is nil, `Some(v)` points at `v`. */
  datatype Option<+T> = None | Some(value: T)

  /** The outcome of a step that either yields a value or fails. */
  datatype Result<+T, +E> = Ok(value: T) | Err(error: E)
}
