/** The two result shapes used everywhere: a lookup that may find nothing, and a
    call that returns a value or an error. */
module Wrappers {
  datatype Option<+T> = None | Some(value: T)

  datatype Result<+T, +E> = Success(value: T) | Failure(error: E)
}
