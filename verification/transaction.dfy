/** Replies of `POST /api/v1/transactions` (src/transaction.rs) and what a caller reads off them. */
module Transactions {
  import opened Options
  import opened Errors
  import Client
  import SendSpec

  const TRANSACTIONS_PATH := "/api/v1/transactions"
  const STATUS_PENDING := "PENDING"
  const STATUS_BROADCAST := "BROADCAST"

  datatype Operation = Transfer | ProgramCall | ContractCall

  function OperationName(op: Operation): (name: string)
    ensures name != ""
  {
    match op
    case Transfer => "TRANSFER"
    case ProgramCall => "PROGRAM_CALL"
    case ContractCall => "CONTRACT_CALL"
  }

  /** The JSON body of a create reply. */
  datatype TxBody = TxBody(txId: string, status: string, message: string, txHash: Option<string>)

  datatype TxResponse = TxResponse(body: TxBody, httpStatus: nat, operation: string)

  predicate IsAccepted(r: TxResponse) {
    r.httpStatus == 202
    || (r.operation != "" && r.operation != OperationName(Transfer) && r.body.status == STATUS_PENDING)
  }

  predicate IsBroadcast(r: TxResponse) {
    r.body.status == STATUS_BROADCAST
  }

  /** `http_status` and `operation` are filled in by the client, not by the gateway. */
  function Respond(op: Operation, status: nat, body: TxBody): TxResponse {
    TxResponse(body, status, OperationName(op))
  }

  /** `create_transaction_with_headers`; `payload` and `read` are the JSON forms of request and reply. */
  method CreateTransactionWithHeaders(client: Client.MpcClient, op: Operation, payload: string,
                                      headers: seq<SendSpec.Header>, read: string -> TxBody, gateway: Client.Gateway)
    returns (result: Result<TxResponse>)
    modifies client.tokens, gateway
    ensures var (cache, world, reply) :=
              SendSpec.Send(old(client.tokens.state), old(gateway.World()), client.tokens.credentials,
                            SendSpec.Request(client.baseUrl + TRANSACTIONS_PATH, headers, payload));
            && client.tokens.state == cache && gateway.World() == world
            && (reply.Ok? <==> result.Ok?)
            && (reply.Ok? ==> result.value == Respond(op, reply.value.status, read(reply.value.value)))
            && (reply.Ok? ==>
                  && result.value.httpStatus == reply.value.status
                  && result.value.body == read(reply.value.value)
                  && result.value.operation ==
                       (if op.Transfer? then "TRANSFER" else if op.ProgramCall? then "PROGRAM_CALL" else "CONTRACT_CALL"))
            && (reply.Err? ==> result == Err(reply.error))
  {
    var reply := client.PostWithStatusAndHeaders(TRANSACTIONS_PATH, payload, headers, gateway);
    match reply {
      case Ok(r) =>
        var resp := TxResponse(read(r.value), 0, "");
        resp := resp.(httpStatus := r.status);
        resp := resp.(operation := OperationName(op));
        return Ok(resp);
      case Err(error) => return Err(error);
      case Panicked => return Panicked;
    }
  }

  /** The documented success replies: a `TRANSFER` is queued; a call is broadcast, or its outcome is unknown. */
  predicate Documented(op: Operation, status: nat, body: TxBody) {
    if op.Transfer? then status == 200 && body.status == STATUS_PENDING && body.txHash.None?
    else
      || (status == 200 && body.status == STATUS_BROADCAST && body.txHash.Some?)
      || (status == 202 && body.status == STATUS_PENDING && body.txHash.None?)
  }

  /**
   Any reply, documented or not: a caller of the client sees it accepted on a 202, or when it
   is `PENDING` and the request was no transfer; one decoded by hand is told by its status only.
   */
  lemma AcceptedOnAnyReply(op: Operation, status: nat, body: TxBody)
    ensures IsAccepted(Respond(op, status, body)) <==> status == 202 || (op != Transfer && body.status == "PENDING")
    ensures IsAccepted(TxResponse(body, status, "")) <==> status == 202
    ensures IsBroadcast(Respond(op, status, body)) <==> body.status == "BROADCAST"
  {
    assert OperationName(ProgramCall)[0] != OperationName(Transfer)[0];
    assert OperationName(ContractCall)[0] != OperationName(Transfer)[0];
  }

  /** On documented replies the two readings are exclusive, and a replay changes neither. */
  lemma DocumentedReplies(op: Operation, status: nat, body: TxBody)
    requires Documented(op, status, body)
    ensures IsAccepted(Respond(op, status, body)) <==> status == 202
    ensures IsAccepted(Respond(op, 200, body)) <==> status == 202
    ensures IsBroadcast(Respond(op, status, body)) <==> !op.Transfer? && status == 200
    ensures !(IsAccepted(Respond(op, status, body)) && IsBroadcast(Respond(op, status, body)))
  {
    assert OperationName(ProgramCall)[0] != OperationName(Transfer)[0];
    assert OperationName(ContractCall)[0] != OperationName(Transfer)[0];
    assert STATUS_PENDING[0] != STATUS_BROADCAST[0];
  }
}
