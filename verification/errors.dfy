/** The SDK's error values (src/error.rs) as the token cache and the client produce them. */
module Errors {
  import opened Options

  datatype ErrorBody = ErrorBody(code: string, errorType: string, message: string)

  datatype Error =
    | Api(status: nat, body: ErrorBody)
    | Http
    | Decode(status: nat)
    | InvalidConfig(message: string)

  type Result<+T> = Outcome<T, Error>

  const INSUFFICIENT_BALANCE := "insufficient_balance"
  const TRANSACTION_FAILED := "transaction_failed"
  const TOKEN_EXPIRED := "token_expired"

  /** A reply's bytes, by what `serde_json` makes of them: an `ErrorBody`, the expected value, both or neither. */
  datatype Body = Body(asError: Option<ErrorBody>, asValue: Option<string>)

  /** A decoded gateway reply: HTTP status plus the deserialized value. */
  datatype Reply = Reply(status: nat, value: string)

  predicate IsTokenExpired(body: Body) {
    body.asError.Some? && body.asError.value.code == TOKEN_EXPIRED
  }

  const UNDECODABLE_ERROR := ErrorBody("unknown", "unknown", "failed to decode error response")

  /** `Error::status`. */
  function StatusOf(error: Error): Option<nat> {
    match error
    case Api(status, _) => Some(status)
    case Decode(status) => Some(status)
    case _ => None
  }

  /**
   Whatever the bytes are, the caller learns the HTTP status, in the reply or in the error,
   and the gateway's own error body whenever there is one to be read.
   */
  function DecodeReply(status: nat, body: Body): (result: Result<Reply>)
    ensures result.Ok? <==> status < 400 && body.asValue.Some?
    ensures result.Ok? ==> result.value == Reply(status, body.asValue.value)
    ensures !result.Ok? ==> result.Err? && StatusOf(result.error) == Some(status)
    ensures result.Err? && result.error.Api? <==> status >= 400
    ensures status >= 400 && body.asError.Some? ==> result == Err(Api(status, body.asError.value))
    ensures status >= 400 && body.asError.None? ==>
              result == Err(Api(status, ErrorBody("unknown", "unknown", "failed to decode error response")))
  {
    if status >= 400 then
      Err(Api(status, if body.asError.Some? then body.asError.value else UNDECODABLE_ERROR))
    else if body.asValue.None? then
      Err(Decode(status))
    else
      Ok(Reply(status, body.asValue.value))
  }
}
