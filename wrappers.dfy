/** Option and Result for nullable columns and the HTTP errors the routes raise. */
module Wrappers {

  datatype Option<+T> = None | Some(value: T)

  /** The exceptions a route raises (FastAPI's HTTPException), by status code. */
  datatype HttpError = NotFound | BadRequest | Forbidden {
    function Status(): int {
      match this
      case NotFound => 404
      case BadRequest => 400
      case Forbidden => 403
    }
  }

  datatype Result<+R> = Success(value: R) | Failure(error: HttpError)

  /** Python truthiness of an optional string: `None` and `""` are both false. */
  predicate Given(o: Option<string>) {
    o.Some? && o.value != ""
  }
}
