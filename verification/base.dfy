/** Failure-carrying values shared by every module of the model. */
module Base {

  /** A value that may be absent: an optional query parameter, a lookup miss. */
  datatype Option<+T> = None | Some(value: T)

  /** Either the value an operation produced or the error it raised. */
  datatype Result<+T, +E> = Success(value: T) | Failure(error: E)
}
