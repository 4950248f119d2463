/** Optional values and success-or-failure results, used where the Python code
    returns None-like "no frame" or raises an exception. */
module Wrappers {

  datatype Option<+T> = None | Some(value: T)

  datatype Result<+R, +E> = Success(value: R) | Failure(error: E)
}
