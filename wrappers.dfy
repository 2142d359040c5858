/** Option and Result, used for the "null" results and the thrown exceptions of the adapter. */
module Wrappers {

  datatype Option<+T> = None | Some(value: T)

  datatype Result<+R, +E> = Success(value: R) | Failure(error: E)
}
