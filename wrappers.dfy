/** Failure-carrying datatypes: the model's replacement for exceptions. */
module Wrappers {

  /** An optional value. */
  datatype Option<+T> = None | Some(value: T)

  /** Either a value or the error that prevented computing it. */
  datatype Result<+R, +E> = Success(value: R) | Failure(error: E)

  /** Pass, or fail with an error; carries no value. */
  datatype Outcome<+E> = Pass | Fail(error: E)
}
