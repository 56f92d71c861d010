/** Optional values and results with an error, for the absent resource
    buffer and for the failures of the layout reader. */
module Wrappers {

  datatype Option<+T> = None | Some(value: T)

  datatype Result<+R, +E> = Success(value: R) | Failure(error: E)
}
