/** Values shared by every part of the model: Java's `null` and the exceptions
    that the collection classes throw. */
module Common {

  /** A reference that may be `null`. */
  datatype Option<+T> = None | Some(value: T)

  /** The exceptions the modelled operations throw instead of returning. */
  datatype Error =
    | IndexOutOfBounds
    | NoSuchElement
    | UnsupportedOperation
    | NullPointer

  /** The outcome of an operation that returns a value or throws. */
  datatype Result<+T> = Success(value: T) | Failure(error: Error)
}
