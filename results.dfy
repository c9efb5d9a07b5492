// Option and Result values shared by every module: a Python `None` or a
// JavaScript `null`, and an operation that either answers or raises.
module Results {

  datatype Option<+T> = None | Some(value: T) {
    function GetOr(default: T): T {
      match this
      case Some(v) => v
      case None => default
    }
  }

  /** An HTTP error as FastAPI's HTTPException carries it: a status and a detail message. */
  datatype HttpError = HttpError(status: int, detail: string)

  datatype Result<+T> = Ok(value: T) | Err(error: HttpError)

  const Unauthorized := 401
  const NotFound := 404
  const BadRequest := 400
  const Unprocessable := 422
}
