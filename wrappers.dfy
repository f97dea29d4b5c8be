/**
 * The optional value that Python expresses with None, and the outcome of a
 * call that either returns a value or raises.
 */
module Wrappers {

  datatype Option<+T> = None | Some(value: T)

  datatype Result<+T, +E> = Success(value: T) | Failure(error: E)
}
