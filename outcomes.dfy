/** Option and Result values used throughout the model in place of Python's
    `None` and of raised exceptions. */
module Outcomes {

  datatype Option<+T> = None | Some(value: T)

  /** A computation that either returns a value or raises; the error is the
      raised exception's message text. */
  datatype Result<+T, +E> = Success(value: T) | Failure(error: E)

  /** A check that either passes or raises with a message. */
  datatype Outcome<+E> = Pass | Fail(error: E)
}
