/** Optional values and results with an error, as used by the models of
    the pubstack analytics module. */
module Wrappers {

  datatype Option<+T> = None | Some(value: T)

  datatype Result<+T, +E> = Success(value: T) | Failure(error: E)
}
