/** Option and Result, for values that may be absent and for calls that may fail. */
module Wrappers {

  /** A Go `error` that may be nil: None stands for nil. */
  datatype Option<+T> = None | Some(value: T)

  /** A Go `(resp, err)` pair of which exactly one half is set. */
  datatype Result<+R, +E> = Success(value: R) | Failure(error: E)
}
