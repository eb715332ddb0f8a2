/** Failure-carrying values shared by every module of the model. */
module Wrappers {

  /** A value that may be absent (Python's `Optional[T]`, `None` included). */
  datatype Option<+T> = None | Some(value: T)

  /** The outcome of a call that either returns a value or raises. */
  datatype Result<+T> = Success(value: T) | Failure(error: string)

  /** The outcome of a call that returns nothing or raises. */
  datatype Outcome = Pass | Fail(error: string)
}
