/** Optional values and results: the model's stand-ins for Python's `None`
    and for exceptions that the source raises. */
module Wrappers {

  datatype Option<+T> = None | Some(value: T)

  datatype Result<+T, +E> = Success(value: T) | Failure(error: E)
}
