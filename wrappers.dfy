/** Option and Result, standing for std::optional and for a value or a thrown std::runtime_error. */
module Wrappers {

  datatype Option<+T> = None | Some(value: T)

  datatype Result<+T, +E> = Success(value: T) | Failure(error: E)
}
