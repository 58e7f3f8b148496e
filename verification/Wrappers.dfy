/** The usual failure-carrying datatypes, standing for Python's None/exceptions and Go's nil/error results. */
module Wrappers {
  datatype Option<+T> = None | Some(value: T)

  datatype Result<+T, +E> = Success(value: T) | Failure(error: E)
}
