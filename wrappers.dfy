/** Optional values and results with an error payload, used for the
    server's lookup and dispatch paths. */
module Wrappers {

  datatype Option<+T> = None | Some(value: T)

  datatype Result<+T, +E> = Success(value: T) | Failure(error: E)
}
