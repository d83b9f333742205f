/** Success/failure values for the operations of the name mapper that can throw. */
module Wrappers {

  /** A value that may be absent: JavaScript's `undefined` argument, a key missing from a table. */
  datatype Option<+T> = None | Some(value: T)

  /** The outcome of a call that either returns a value or throws an error. */
  datatype Result<+R, +E> = Success(value: R) | Failure(error: E)
}
