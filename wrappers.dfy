/** Result type used for every operation that the source aborts with `retassure`/`reterror`. */
module Wrappers {

  datatype Result<+T, +E> = Success(value: T) | Failure(error: E)
}
