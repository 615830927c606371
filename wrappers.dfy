/** Option and Result values used for lookups that can miss and for the
    errors a driver can raise. */
module Wrappers {
  datatype Option<+T> = None | Some(value: T)

  datatype Result<+R, +E> = Success(value: R) | Failure(error: E)
}
