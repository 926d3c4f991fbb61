/** The outcome of a request handler: the HTTP status the handler chooses, with the
    JSON body (success) or the message (failure) it sends. */
module Http {

  datatype Response<+T> =
    | Ok(body: T)                     // 200
    | Created(body: T)                // 201
    | BadRequest(message: string)     // 400
    | Unauthorized(message: string)   // 401
    | NotFound(message: string)       // 404
    | ServerError(message: string)    // 500
  {
    function Status(): int
    {
      match this
      case Ok(_) => 200
      case Created(_) => 201
      case BadRequest(_) => 400
      case Unauthorized(_) => 401
      case NotFound(_) => 404
      case ServerError(_) => 500
    }

    predicate IsSuccess()
    {
      Ok? || Created?
    }
  }
}
