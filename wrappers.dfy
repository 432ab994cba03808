/** Option and Result, used for the partial steps of the program: a reduction
    over an empty list and a %-format that raises. */
module Wrappers {

  datatype Option<+T> = None | Some(value: T)

  datatype Result<+R, +E> = Success(value: R) | Failure(error: E)
}
