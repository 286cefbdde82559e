/** Optional values and results with an error, used for absent request
    fields, missing rows and the price validator's error. */
module Wrappers {

  datatype Option<+T> = None | Some(value: T)

  datatype Result<+R, +E> = Success(value: R) | Failure(error: E)
}
