/** Option and Result, the two wrappers the model needs for Python's `None`
    and for the one exception the analytics can raise. */
module Wrappers {

  datatype Option<+T> = None | Some(value: T)

  datatype Result<+R, +E> = Success(value: R) | Failure(error: E)
}
