// Result types used throughout: Option for a value that may be undefined, Result for a call
// that may throw.
module Wrappers {
  datatype Option<+T> = None | Some(value: T)

  datatype Result<+T, +E> = Success(value: T) | Failure(error: E)
}
