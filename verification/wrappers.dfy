/** Optional values and results: `None` stands for Go's `nil`, `Failure` for a returned error. */
module Wrappers {

  datatype Option<+T> = None | Some(value: T)

  datatype Result<+T, +E> = Success(value: T) | Failure(error: E)
}
