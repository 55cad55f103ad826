/** Option and Result, the failure-carrying values used by every module. */
module Wrappers {

  datatype Option<+T> = None | Some(value: T)

  /** A handler either produces a value or throws; `Failure` carries what was thrown. */
  datatype Result<+T, +E> = Success(value: T) | Failure(error: E)
}
