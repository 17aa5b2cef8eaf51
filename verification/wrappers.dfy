/** Optional values and error-carrying results, standing in for Python's
    `None` and for the exceptions the scripts raise. */
module Wrappers {

  datatype Option<+T> = None | Some(value: T)

  datatype Result<+R, +E> = Success(value: R) | Failure(error: E)
}
