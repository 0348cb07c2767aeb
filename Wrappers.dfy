/** Optional values (a Java reference that may be null) and results (a value or the message of the
    exception the source throws). */
module Wrappers {

  datatype Option<+T> = None | Some(value: T)

  datatype Result<+R, +E> = Success(value: R) | Failure(error: E)
}
