/** Small value types shared by every module: an optional value, the outward
    HTTP error a handler raises, and a handler's result. */
module Common {

  datatype Option<T> = None | Some(value: T)

  /** An `HTTPException`: a status code and its `detail` message. */
  datatype HttpError = HttpError(status: int, detail: string)

  /** What a handler returns: a response body, or the exception it raised. */
  datatype Result<T> = Ok(value: T) | Err(error: HttpError)
}
