/** Option and Result, the shapes Go's `(value, ok)` and `(value, err)` pairs take in this model. */
module Wrappers {

  /** A value that may be missing: Go's `(v, ok)` pair, or a nil map or error. */
  datatype Option<+T> = None | Some(value: T)

  /** Either a value or the error Go would have returned beside it. */
  datatype Result<+R, +E> = Success(value: R) | Failure(error: E)
}
