/**
 * Answers of the routes: a status and what the body carries. `res.send(n)`
 * with a status code sets that status (Express 4), so a 401, 404 or 204
 * answer carries no record.
 */
module Http {
  import opened Wrappers
  import opened InputValidation

  /**
   * The statuses of the routes' `CodeResponsesEnum`, and the 500 Express's
   * default error handler answers when a handler throws.
   */
  datatype Status = Ok | Created | NoContent | BadRequest | Unauthorized | NotFound | InternalError

  /**
   * What an answer's body carries. `Empty` is an answer without a record:
   * no body for 204, for 401 and 404 the status text Express sends,
   * and for 500 the default error handler's page.
   */
  datatype Payload<T> = Empty | Problems(errorsMessages: seq<FieldError>) | One(item: T) | Many(items: seq<T>)

  datatype Reply<T> = Reply(status: Status, payload: Payload<T>)

  /**
   * The middlewares in front of a handler: authorization first (401 when it
   * fails), then input validation over the errors `errs` the chains
   * recorded (400 with the reported errors). `None` means the handler runs.
   */
  function Screen<T>(authorized: bool, errs: seq<Validation.ValidationError>): (r: Option<Reply<T>>)
    ensures !authorized ==> r == Some(Reply(Unauthorized, Empty))
    ensures authorized ==> (r.None? <==> errs == [])
    ensures authorized && r.Some? ==>
              && r.value.status == BadRequest
              && r.value.payload.Problems?
              && r.value.payload.errorsMessages != []
  {
    if !authorized then Some(Reply(Unauthorized, Empty))
    else
      match Middleware(errs)
      case Reject(problems) => Some(Reply(BadRequest, Problems(problems)))
      case Next => None
  }

  /** `res.send(record)` when found, `res.send(404)` when not. */
  function Found<T>(found: Option<T>): (r: Reply<T>)
    ensures r.status == Ok <==> found.Some?
    ensures r.status == NotFound <==> found.None?
    ensures found.Some? ==> r.payload == One(found.value)
  {
    match found
    case Some(x) => Reply(Ok, One(x))
    case None => Reply(NotFound, Empty)
  }

  /** The answer to an update or delete: 404 for a `null` repository result, 204 otherwise. */
  function Done<T>(result: Option<T>): (r: Reply<T>)
    ensures r.status == NoContent <==> result.Some?
    ensures r.status == NotFound <==> result.None?
    ensures r.payload == Empty
  {
    if result.Some? then Reply(NoContent, Empty) else Reply(NotFound, Empty)
  }
}
