/** Optional values and results: the model's stand-ins for `null` and for a
    thrown `Error`. */
module Wrappers {
  datatype Option<+T> = None | Some(value: T)

  datatype Result<+T, +E> = Success(value: T) | Failure(error: E)
}
