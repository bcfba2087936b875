/** Optional values (JavaScript's `undefined`) and fallible results (a thrown exception). */
module Wrappers {

  datatype Option<T> = None | Some(value: T)

  datatype Result<T, E> = Success(value: T) | Failure(error: E)
}
