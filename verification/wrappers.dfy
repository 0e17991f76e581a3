/** Failure-carrying datatypes shared by the whole model. */
module Wrappers {

  /** A value that may be absent: a dictionary key that `.get` does not find, or a JSON null. */
  datatype Option<+T> = None | Some(value: T)

  /** The outcome of a step that can raise: a value, or the exception it raises. */
  datatype Result<+R, +E> = Success(value: R) | Failure(error: E)

  /** The outcome of a check that returns nothing on success and raises on failure. */
  datatype Outcome<+E> = Pass | Fail(error: E)
}
