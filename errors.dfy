/** Error kinds of the services and the result wrappers every operation returns.
    NotFound stands for EntityNotFoundException (HTTP 404), Conflict for
    DataModificationProhibitedException and SecurityException (HTTP 409) and
    Validation for ValidationException (HTTP 400). */
module Errors {

  datatype Error = NotFound | Conflict | Validation

  datatype Option<+T> = None | Some(value: T)

  /** The outcome of an operation that yields a value. */
  datatype Result<+T> = Ok(value: T) | Err(error: Error)

  /** The outcome of a check or of an operation that yields nothing. */
  datatype Outcome = Pass | Fail(error: Error)
}
