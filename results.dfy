/** Optional values and the HTTP error outcomes the handlers raise. */
module Results {

  datatype Option<T> = None | Some(value: T) {
    /** `d.get(key, default)`: the value when present, else the default. */
    function GetOr(default: T): T {
      match this
      case Some(v) => v
      case None => default
    }
  }

  /** An `HTTPException(status, detail)`. */
  datatype HttpError = HttpError(status: int, detail: string)

  /** A handler's response: a reply, or the exception it raised. */
  datatype Result<T> = Ok(value: T) | Err(error: HttpError)
}
