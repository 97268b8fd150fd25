/** Optional values and results with an error, the model's stand-ins for
    JavaScript's `undefined`/`null` and for a thrown `Error`. */
module Wrappers {

  datatype Option<+T> = None | Some(value: T)

  datatype Result<+R, +E> = Success(value: R) | Failure(error: E)
}
