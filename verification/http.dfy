/** What a handler answers: a 200 with a payload, or an error status. */
module Http {

  datatype Status = Ok | BadRequest | NotFound | UnprocessableEntity | InternalServerError

  function Code(s: Status): int {
    match s
    case Ok => 200
    case BadRequest => 400
    case NotFound => 404
    case UnprocessableEntity => 422
    case InternalServerError => 500
  }

  /** Response bodies are reduced to the payload of a 200; message texts are left out. */
  datatype Reply<+T> = Success(value: T) | Failure(status: Status) {
    function StatusOf(): Status {
      match this
      case Success(_) => Ok
      case Failure(s) => s
    }
  }
}
