/** The shape every route handler's answer takes: a status code and a JSON
    body that is either the payload or `{ error: <message> }`, together with
    the store as it stands after the request. */
module Http {

  const OK: nat := 200
  const CREATED: nat := 201
  const BAD_REQUEST: nat := 400
  const CONFLICT: nat := 409
  const INTERNAL_ERROR: nat := 500

  /** The message every handler's `catch` block answers with. */
  const INTERNAL_ERROR_MESSAGE: string := "Erro interno do servidor"

  datatype Body<+T> = Json(value: T) | Error(message: string)

  datatype Reply<+T> = Reply(status: nat, body: Body<T>)

  /** The result of one request: the reply sent and the store left behind. */
  datatype Step<+T, +S> = Step(reply: Reply<T>, store: S)

  /** What the `catch` block of every handler returns. */
  function InternalError<T>(): (r: Reply<T>)
    ensures r.status == INTERNAL_ERROR
    ensures r.body.Error?
  {
    Reply(INTERNAL_ERROR, Error(INTERNAL_ERROR_MESSAGE))
  }

  /** Where, if anywhere, one of the handler's awaited external calls throws.
      A throw sends control to the handler's `catch` block. */
  datatype Fault =
    | NoFault
      /** The connection, the request parsing or the business check's own
          query throws (for instance on an identifier the store cannot cast):
          no decision has been made and nothing is written. */
    | FailsOnConnect
      /** The insert itself throws: the business check has run, nothing is written. */
    | FailsOnInsert
      /** A call after the insert throws: the record is already stored. */
    | FailsAfterInsert
}
