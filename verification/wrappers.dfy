/** Optional values and success-or-error results, used where the Python code
    either returns a value or raises and catches an exception. */
module Wrappers {

  datatype Option<+T> = None | Some(value: T)

  datatype Result<+R, +E> = Success(value: R) | Failure(error: E)
}
