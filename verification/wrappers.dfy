/** Failure-carrying values shared by every module of the claims workflow. */
module Wrappers {

  /** A value that may be absent; stands for a nullable reference or column. */
  datatype Option<+T> = None | Some(value: T)

  /** The answer of a request: either a value or the reason it was refused. */
  datatype Result<+R, +E> = Success(value: R) | Failure(error: E)

  /** The answer of a request that produces no value of its own. */
  datatype Outcome<+E> = Pass | Fail(error: E)
}
