/** Failure-carrying result types shared by the readers and the property mappers. */
module Wrappers {

  /** PHP's nullable values: `null` or a present value. */
  datatype Option<+T> = None | Some(value: T)

  /** The outcome of an operation that either yields a value or throws. */
  datatype Result<+T, +E> = Success(value: T) | Failure(error: E)
}
