/** Result: the model's stand-in for Go's `(value, error)` returns. */
module Wrappers {

  datatype Result<+R, +E> = Success(value: R) | Failure(error: E)
}
