/** Option and Result, the two shapes in which the model reports a Python exception or a missing value. */
module Wrappers {

  datatype Option<+T> = None | Some(value: T)

  datatype Result<+T, +E> = Success(value: T) | Failure(error: E)
}
