/** Option and Result, the two failure-carrying datatypes the model uses for
    null values and for the exceptions the modelled code throws. */
module Wrappers {

  datatype Option<+T> = None | Some(value: T)

  datatype Result<+R, +E> = Success(value: R) | Failure(error: E)
}
