/** Optional values (Java's nullable references) and computations that may fail (Java's checked exceptions). */
module Wrappers {

  datatype Option<+T> = None | Some(value: T)

  datatype Result<+R, +E> = Success(value: R) | Failure(error: E)
}
