/** Failure-carrying datatypes used in place of the exceptions the ETL job raises. */
module Wrappers {

  /** A value that may be absent; stands in for Python's `None`. */
  datatype Option<+T> = None | Some(value: T)

  /** The outcome of a stage: its value, or the error it raised. */
  datatype Result<+R, +E> = Success(value: R) | Failure(error: E)
}
