/** Values shared by every module: an optional value, and the outcome of a
    route handler, which either returns a value or raises an HTTP error with a
    status code and a detail text. */
module Http {

  datatype Option<T> = None | Some(value: T)

  /** `Err(status, detail)` stands for `HTTPException(status_code=status, detail=detail)`. */
  datatype Result<T> = Ok(value: T) | Err(status: int, detail: string)

  const BadRequest: int := 400
  const Unauthorized: int := 401
  const ForbiddenStatus: int := 403
}
