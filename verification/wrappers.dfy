/** Optional values (a C# reference that may be null) and results that may carry an error
    (an operation that may throw). */
module Wrappers {

  datatype Option<+T> = None | Some(value: T)

  datatype Result<+R, +E> = Success(value: R) | Failure(error: E)
}
