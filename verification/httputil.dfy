/**
 * The errors the service hands to the HTTP layer and the status code the
 * error-handling middleware answers each with.
 */
module HttpUtil {

  datatype Error =
    | BadRequest(message: string)  // 400, with a message for the client
    | ErrNotFound                  // 404
    | ErrInternalServerError       // 500, cause kept server-side

  function Status(e: Error): int
  {
    match e
    case BadRequest(_) => 400
    case ErrNotFound => 404
    case ErrInternalServerError => 500
  }

  const StatusOK := 200
}
