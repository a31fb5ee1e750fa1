/** Option and Result, shared by the capture pipeline and the data-URI splitter. */
module Wrappers {

  datatype Option<+T> = None | Some(value: T)

  datatype Result<+T, +E> = Success(value: T) | Failure(error: E)
}
