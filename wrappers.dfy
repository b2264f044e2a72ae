/** Option and Result, used for the nil pointers and the `error` returns of the client. */
module Wrappers {

  /** A Go pointer that may be nil: `None` is nil. */
  datatype Option<+T> = None | Some(value: T)

  /** A Go `(value, error)` pair where exactly one side is meaningful. */
  datatype Result<+R, +E> = Success(value: R) | Failure(error: E)
}
