/** Failure-carrying wrappers: a Java reference that may be null, and a result
    that may be an exception instead of a value. */
module Wrappers {

  /** `None` stands for a Java `null`. */
  datatype Option<+T> = None | Some(value: T)

  /** The value of a call, or the exception it throws. */
  datatype Result<+R, +E> = Success(value: R) | Failure(error: E)

  /** The outcome of a `void` call: it returns, or it throws. */
  datatype Outcome<+E> = Pass | Fail(error: E)
}
