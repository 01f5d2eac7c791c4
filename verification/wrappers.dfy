/** Failure-carrying values: Go's `(value, error)` pairs become a Result, nil pointers an Option. */
module Wrappers {

  datatype Option<+T> = None | Some(value: T)

  datatype Result<+T, +E> = Success(value: T) | Failure(error: E)
}
