/** Small value types shared by the whole model. */
module Wrappers {

  /** A value that may be absent: a JSON field that is missing or null, an
      environment variable that is not set. */
  datatype Option<+T> = None | Some(value: T)

  /** The outcome of a call into an external collaborator that returns
      nothing on success and throws an error with a message on failure. */
  datatype Outcome<+E> = Pass | Fail(error: E)

  /** The outcome of a call into an external collaborator that returns a
      value on success and throws an error with a message on failure. */
  datatype Result<+R, +E> = Success(value: R) | Failure(error: E)

  /** One octet of a binary response body. */
  newtype byte = x: int | 0 <= x < 256
}
