/** Small helper datatypes shared by every module of the model. */
module Wrappers {
  /** A value that may be absent: a nil reference, a zero time.Time, a missing map entry. */
  datatype Option<T> = None | Some(value: T)

  /** A Go `(value, error)` pair in which exactly one side is meaningful. */
  datatype Result<T, E> = Ok(value: T) | Err(error: E)
}
