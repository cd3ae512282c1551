/** Failure-carrying datatypes used in place of Go's (value, error) pairs and nil pointers. */
module Wrappers {

  /** An optional value: the outcome of a lookup or of a call that may fail silently. */
  datatype Option<+T> = None | Some(value: T)

  /** Either a value or an error message, as a Go function returning (T, error). */
  datatype Result<+T, +E> = Success(value: T) | Failure(error: E)
}
