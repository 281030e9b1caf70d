/** Optional values and success-or-error outcomes, used for the fields the
    avatar format leaves optional and for the loader's fatal errors. */
module Wrappers {

  datatype Option<+T> = None | Some(value: T)

  datatype Result<+R, +E> = Success(value: R) | Failure(error: E)
}
