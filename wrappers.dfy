/** Option and Result, for Go's nil pointers and (value, error) returns. */
module Wrappers {

  datatype Option<+T> = None | Some(value: T)

  /** A Go `(T, error)` return: `Failure` stands for a non-nil error, in which
      case the Go code always returns the zero value beside it. */
  datatype Result<+T, +E> = Success(value: T) | Failure(error: E)
}
