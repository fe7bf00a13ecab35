/** Option and Result values used in place of Python's `None` and exceptions. */
module Wrappers {

  datatype Option<+T> = None | Some(value: T)

  datatype Result<+R, +E> = Success(value: R) | Failure(error: E)

  /** Pass, or a failure carrying an error: a check that returns nothing. */
  datatype Outcome<+E> = Pass | Fail(error: E)
}
