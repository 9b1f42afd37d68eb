/** The optional-value and result types shared by the model's modules. */
module Wrappers {

  /** A value that may be absent: Go's nil slice, nil IP or empty lookup. */
  datatype Option<+T> = None | Some(value: T)

  /** A value or the error that prevented it: Go's `(value, error)` pair. */
  datatype Result<+T, +E> = Success(value: T) | Failure(error: E)
}
