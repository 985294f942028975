/** Optional values and results: Java's Optional and the exceptions the
    expense tracker throws or catches become values of these types. */
module Wrappers {

  datatype Option<+T> = None | Some(value: T)

  datatype Result<+T, +E> = Success(value: T) | Failure(error: E)
}
