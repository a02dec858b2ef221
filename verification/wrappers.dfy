/** Option and Result, the two failure-carrying shapes the model uses in
    place of Python's `None` defaults and raised exceptions. */
module Wrappers {

  /** An optional value: `None` stands for an omitted Python argument. */
  datatype Option<+T> = None | Some(value: T)

  /** The outcome of an operation that either returns or raises. */
  datatype Result<+R, +E> = Success(value: R) | Failure(error: E)
}
