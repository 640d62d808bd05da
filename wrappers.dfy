/** Optional values and results with an error, used for the JavaScript `undefined`
    of absent fields and for the exceptions the migration throws. */
module Wrappers {

  datatype Option<+T> = None | Some(value: T)

  datatype Result<+R, +E> = Success(value: R) | Failure(error: E)
}
