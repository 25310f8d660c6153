/** Option and Result, for absent values (JavaScript `undefined`/`NaN`, a
    Python dict key that is not there) and for operations that can fail. */
module Wrappers {

  datatype Option<+T> = None | Some(value: T)

  datatype Result<+R, +E> = Success(value: R) | Failure(error: E)
}
