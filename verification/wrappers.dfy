/** Optional values and error results, used where the Ruby code returns nil or raises. */
module Wrappers {

  datatype Option<T> = None | Some(value: T)

  datatype Result<T, E> = Success(value: T) | Failure(error: E)

  /** The outcome of an operation that returns nothing of interest but may fail. */
  datatype Outcome<E> = Pass | Fail(error: E)
}
