/** Failure-carrying values for the exceptions the modelled code raises. */
module Wrappers {

  datatype Option<T> = None | Some(value: T)

  /** A value, or the error an operation raised instead of returning it. */
  datatype Result<T, E> = Success(value: T) | Failure(error: E)

  /** Success without a value (a procedure that either returns or raises). */
  datatype Outcome<E> = Pass | Fail(error: E)
}
