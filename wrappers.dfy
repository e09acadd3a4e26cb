/** Optional values and error results, standing in for the null pointers and
    exceptions of the original code. */
module Wrappers {

  datatype Option<+T> = None | Some(value: T)

  datatype Result<+T, +E> = Success(value: T) | Failure(error: E)
}
