/** Optional values and results with an error message, used wherever the
    source returns `null`/no match or throws an `Error`. */
module Wrappers {

  datatype Option<+T> = None | Some(value: T)

  datatype Result<+T, +E> = Success(value: T) | Failure(error: E)
}
