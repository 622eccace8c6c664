/** Optional values and results with an error, standing for Kotlin's nullable
    returns and for the parser's ParseException. */
module Wrappers {

  datatype Option<+T> = None | Some(value: T)

  datatype Result<+R, +E> = Success(value: R) | Failure(error: E)
}
