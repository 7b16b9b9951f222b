/** Option and Result, used for Go's nil slices and for the (value, error) returns of the commands. */
module Wrappers {

  datatype Option<+T> = None | Some(value: T)

  datatype Result<+R, +E> = Success(value: R) | Failure(error: E)
}
