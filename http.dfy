/** FastAPI's `HTTPException(status_code, detail)` as a value, and the two
    shapes a handler returns: it either falls through or raises one. */
module Http {

  const BadRequest := 400
  const Unauthorized := 401
  const Forbidden := 403
  const NotFound := 404
  const InternalServerError := 500
  const GatewayTimeout := 504

  datatype HttpError = HttpError(status: int, detail: string)

  /** A check that returns normally (`Pass`) or raises (`Fail`). */
  datatype Outcome = Pass | Fail(error: HttpError)

  /** A function that returns a value or raises. */
  datatype Result<+T> = Success(value: T) | Failure(error: HttpError)
}
