/** Failure-carrying result types shared by the model. */
module Wrappers {

  /** An optional value: the absent case stands for "could not be parsed". */
  datatype Option<+T> = None | Some(value: T)

  /** The outcome of an operation that may fail with an error of type E. */
  datatype Result<+R, +E> = Success(value: R) | Failure(error: E)
}
