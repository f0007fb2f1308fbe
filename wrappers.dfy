/** Option and Result, the two failure-carrying datatypes the model uses for
    "nothing found" and for the errors the source raises. */
module Wrappers {

  datatype Option<+T> = None | Some(value: T)

  datatype Result<+R, +E> = Success(value: R) | Failure(error: E)
}
