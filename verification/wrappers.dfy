/** Failure-compatible result types shared by the block-list model. */
module Wrappers {

  /** Some value, or nothing (the model's stand-in for "not found"). */
  datatype Option<+T> = None | Some(value: T)

  /** A value, or the exception the Java code throws instead of returning. */
  datatype Result<+R, +X> = Success(value: R) | Failure(error: X)

  /** The unchecked exceptions the list raises. */
  datatype Thrown =
    | IndexOutOfBounds
    | ConcurrentModification
    | IllegalState
}
