/** Result types that stand for Python's `None` return value and for the
    `ValueError` the validating constructors and setters raise. */
module Wrappers {

  /** `None` is the "no data" signal some queries return instead of a list. */
  datatype Option<+T> = None | Some(value: T)

  /** The outcome of a constructor that may raise. */
  datatype Result<+T, +E> = Success(value: T) | Failure(error: E)

  /** The outcome of a setter that may raise: it returns nothing on success. */
  datatype Outcome<+E> = Pass | Fail(error: E)
}
