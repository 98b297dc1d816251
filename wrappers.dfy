/** Optional values (Kotlin's nullable types) and success-or-error results
    (the exceptions the services throw). */
module Wrappers {

  datatype Option<+T> = None | Some(value: T)

  datatype Result<+T, +E> = Success(value: T) | Failure(error: E)
}
