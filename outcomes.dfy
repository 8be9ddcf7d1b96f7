/** Shared result types: the exceptions the data structures throw become
    `Err` values, and a `null` reference becomes `None`. */
module Outcomes {

  /** A value that may be absent (a nullable reference in the source). */
  datatype Option<T> = None | Some(value: T)

  /** The exception kinds the core raises. `NullPointer` and `IndexOutOfBounds`
      stand for the Java runtime exceptions a few operations run into. */
  datatype Error =
    | InvalidPosition
    | BoundaryViolation
    | EmptyTree
    | NonEmptyTree
    | EmptyPriorityQueue
    | InvalidKey
    | NullPointer
    | IndexOutOfBounds

  /** Either the value an operation returns or the exception it throws. */
  datatype Result<T> = Ok(value: T) | Err(error: Error)
}
