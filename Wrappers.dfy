/**
 * Optional values, used for the source's `None` and for parses that can
 * fail, and results of operations that can raise an exception.
 */
module Wrappers {
  datatype Option<+T> = None | Some(value: T)

  /** A value, or the message of the exception raised instead. */
  datatype Result<+T> = Success(value: T) | Failure(error: string)
}
