/** Option and Result: the absent value and the raised exception of the modelled code. */
module Wrappers {

  datatype Option<+T> = None | Some(value: T)

  datatype Result<+T, +E> = Success(value: T) | Failure(error: E)

  /** The outcome of a procedure that returns nothing or raises `error`. */
  datatype Outcome<+E> = Pass | Fail(error: E)
}
