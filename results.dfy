/** Outcome types used in place of the C++ exceptions of the modelled header. */
module Results {

  datatype Option<+T> = None | Some(value: T)

  /** A computation that either produces a value or fails with an error kind. */
  datatype Result<+T, +E> = Success(value: T) | Failure(error: E)
}
