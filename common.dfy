/** Outcome and error types shared by every part of the model. */
module Common {

  datatype Option<T> = None | Some(value: T)

  /** The failures the backend reports to its callers. */
  datatype Error =
    | NotFound                   // get_object_or_404 on a missing row (HTTP 404)
    | Duplicate(message: string) // a pair that a uniqueness validator already finds (HTTP 400)
    | SelfFollow(message: string) // a subscription whose user is its own author (HTTP 400)
    | Missing(message: string)   // removal of a pair that does not exist (HTTP 400)
    | Invalid(message: string)   // a validation error raised by a serializer or validator
    | ServerError(cause: string) // an exception nothing catches (HTTP 500)

  /** A value or the error that stopped its computation. */
  datatype Result<T> = Ok(value: T) | Err(error: Error)

  /** Success without a value, or the error that stopped the operation. */
  datatype Outcome = Pass | Fail(error: Error)
}
