/** Option and Result, the failure-carrying values used across the model. */
module Wrappers {

  /** A possibly absent value; `None` stands for Python's `None` as "no value". */
  datatype Option<+T> = None | Some(value: T)

  /** The outcome of an operation that can raise. */
  datatype Result<+R, +E> = Success(value: R) | Failure(error: E)
}
