/**
 Submitting transactions under a `reference_id` and an `Idempotency-Key`: any number of
 sends with their token_expired retries, lost replies and replays, against the gateway
 the documentation describes. The gateway keeps working on a request whose sender is gone.
 */
module Submission {
  import opened Options
  import opened Transactions

  /** `payload` is everything else the request says: wallet, recipient, amount, data. */
  datatype Request = Request(op: Operation, payload: string, reference: Option<string>, key: Option<string>)

  datatype Stage =
    | Waiting(job: nat, retry: bool)
    | Refreshing   // the first reply was `401 token_expired`, and the retry needs a token
    | Finished(reply: Option<TxResponse>)   // None: any error, or no reply at all

  datatype Send = Send(request: Request, stage: Stage)

  datatype Answer = Success(status: nat, body: TxBody) | TokenExpired | Refusal(status: nat)

  /** The gateway's work on one API request. */
  datatype Phase = Arrived | Working(row: nat) | Answered(answer: Answer)

  datatype Job = Job(send: nat, phase: Phase)

  /** A transaction row, for the request that created it, with the engine's success reply once there is one. */
  datatype Row = Row(send: nat, request: Request, txId: string, reply: Option<(nat, TxBody)>)

  datatype State = State(sends: seq<Send>, jobs: seq<Job>, rows: seq<Row>, replays: map<string, TxBody>)

  const INITIAL := State([], [], [], map[])

  datatype Step =
    | Submit(request: Request)
    | ExpireToken(job: nat)
    | Replay(job: nat)
    | Refuse(job: nat, status: nat)
    | Insert(job: nat, txId: string)
    | Succeed(job: nat, status: nat, body: TxBody, remembered: bool)
    | Fail(job: nat, status: nat)
    | Forget(key: string)
    | Receive(send: nat)
    | Resend(send: nat)
    | GiveUp(send: nat)

  function RequestOf(s: State, j: nat): Request
    requires j < |s.jobs| && s.jobs[j].send < |s.sends|
  {
    s.sends[s.jobs[j].send].request
  }

  predicate Referenced(s: State, reference: Option<string>) {
    reference.Some? && exists r :: 0 <= r < |s.rows| && s.rows[r].request.reference == reference
  }

  predicate Enabled(s: State, step: Step) {
    match step
    case Submit(_) => true
    case ExpireToken(j) => j < |s.jobs| && s.jobs[j].phase.Arrived?
    case Replay(j) =>
      && j < |s.jobs| && s.jobs[j].phase.Arrived? && s.jobs[j].send < |s.sends|
      && RequestOf(s, j).key.Some? && RequestOf(s, j).key.value in s.replays
    case Refuse(j, status) => j < |s.jobs| && s.jobs[j].phase.Arrived? && status >= 400
    case Insert(j, txId) =>
      && j < |s.jobs| && s.jobs[j].phase.Arrived? && s.jobs[j].send < |s.sends|
      && !Referenced(s, RequestOf(s, j).reference)
      && forall r :: 0 <= r < |s.rows| ==> s.rows[r].txId != txId
    case Succeed(j, status, body, _) =>
      && j < |s.jobs| && s.jobs[j].phase.Working? && s.jobs[j].send < |s.sends|
      && s.jobs[j].phase.row < |s.rows|
      && Documented(RequestOf(s, j).op, status, body)
      && body.txId == s.rows[s.jobs[j].phase.row].txId
    case Fail(j, status) => j < |s.jobs| && s.jobs[j].phase.Working? && status >= 400
    case Forget(_) => true
    case Receive(i) =>
      && i < |s.sends| && s.sends[i].stage.Waiting?
      && s.sends[i].stage.job < |s.jobs| && s.jobs[s.sends[i].stage.job].phase.Answered?
    case Resend(i) => i < |s.sends| && s.sends[i].stage.Refreshing?
    case GiveUp(i) => i < |s.sends| && !s.sends[i].stage.Finished?
  }

  function Advance(s: State, j: nat, phase: Phase): State
    requires j < |s.jobs|
  {
    s.(jobs := s.jobs[j := s.jobs[j].(phase := phase)])
  }

  function Become(s: State, i: nat, stage: Stage): State
    requires i < |s.sends|
  {
    s.(sends := s.sends[i := s.sends[i].(stage := stage)])
  }

  /** What the sender makes of the answer it ends with. */
  function Reading(op: Operation, answer: Answer): Option<TxResponse> {
    if answer.Success? then Some(Respond(op, answer.status, answer.body)) else None
  }

  /** Where the answer leaves the sender: it retries once, on `token_expired`. */
  function StageAfter(op: Operation, answer: Answer, retry: bool): Stage {
    if answer.TokenExpired? && !retry then Refreshing else Finished(Reading(op, answer))
  }

  function Apply(s: State, step: Step): State
    requires Enabled(s, step)
  {
    match step
    case Submit(request) =>
      s.(sends := s.sends + [Send(request, Waiting(|s.jobs|, false))], jobs := s.jobs + [Job(|s.sends|, Arrived)])
    case ExpireToken(j) => Advance(s, j, Answered(TokenExpired))
    case Replay(j) => Advance(s, j, Answered(Success(200, s.replays[RequestOf(s, j).key.value])))
    case Refuse(j, status) => Advance(s, j, Answered(Refusal(status)))
    case Insert(j, txId) =>
      Advance(s, j, Working(|s.rows|)).(rows := s.rows + [Row(s.jobs[j].send, RequestOf(s, j), txId, None)])
    case Succeed(j, status, body, remembered) =>
      var row, key := s.jobs[j].phase.row, RequestOf(s, j).key;
      Advance(s, j, Answered(Success(status, body))).(
        rows := s.rows[row := s.rows[row].(reply := Some((status, body)))],
        replays := if remembered && key.Some? then s.replays[key.value := body] else s.replays)
    case Fail(j, status) => Advance(s, j, Answered(Refusal(status)))
    case Forget(key) => s.(replays := s.replays - {key})
    case Receive(i) =>
      var send := s.sends[i];
      Become(s, i, StageAfter(send.request.op, s.jobs[send.stage.job].phase.answer, send.stage.retry))
    case Resend(i) => Become(s, i, Waiting(|s.jobs|, true)).(jobs := s.jobs + [Job(i, Arrived)])
    case GiveUp(i) => Become(s, i, Finished(None))
  }

  ghost predicate Valid(run: seq<Step>)
    decreases |run|, 0
  {
    run == [] || (Valid(run[..|run| - 1]) && Enabled(Final(run[..|run| - 1]), run[|run| - 1]))
  }

  ghost function Final(run: seq<Step>): State
    requires Valid(run)
    decreases |run|, 1
  {
    if run == [] then INITIAL else Apply(Final(run[..|run| - 1]), run[|run| - 1])
  }

  // ---- the invariant ----

  ghost predicate RowsInv(rows: seq<Row>) {
    && (forall a, b :: 0 <= a < b < |rows| && rows[a].request.reference.Some? ==>
          rows[a].request.reference != rows[b].request.reference)
    && (forall a, b :: 0 <= a < b < |rows| ==> rows[a].txId != rows[b].txId)
    && (forall r :: 0 <= r < |rows| && rows[r].reply.Some? ==>
          && rows[r].reply.value.1.txId == rows[r].txId
          && Documented(rows[r].request.op, rows[r].reply.value.0, rows[r].reply.value.1))
  }

  /** `body`, answered with `status` to `request`, is the reply of row `r`: its own, or a replay under its key. */
  ghost predicate RepliedBy(rows: seq<Row>, r: int, request: Request, status: nat, body: TxBody) {
    && 0 <= r < |rows| && rows[r].reply.Some? && rows[r].reply.value.1 == body
    && ((rows[r].request == request && rows[r].reply.value.0 == status)
        || (rows[r].request.key.Some? && rows[r].request.key == request.key && status == 200))
  }

  ghost predicate Replied(rows: seq<Row>, request: Request, status: nat, body: TxBody) {
    exists r :: RepliedBy(rows, r, request, status, body)
  }

  ghost predicate Remembered(rows: seq<Row>, key: string, body: TxBody) {
    exists r :: 0 <= r < |rows| && rows[r].request.key == Some(key)
                && rows[r].reply.Some? && rows[r].reply.value.1 == body
  }

  ghost predicate JobsInv(s: State) {
    && (forall j :: 0 <= j < |s.jobs| ==> s.jobs[j].send < |s.sends|)
    && (forall r :: 0 <= r < |s.rows| ==>
          s.rows[r].send < |s.sends| && s.sends[s.rows[r].send].request == s.rows[r].request)
    && (forall j :: 0 <= j < |s.jobs| && s.jobs[j].phase.Working? ==>
          && s.jobs[j].phase.row < |s.rows|
          && s.rows[s.jobs[j].phase.row].request == RequestOf(s, j)
          && s.rows[s.jobs[j].phase.row].reply.None?)
    && (forall j, k :: 0 <= j < k < |s.jobs| && s.jobs[j].phase.Working? && s.jobs[k].phase.Working? ==>
          s.jobs[j].phase.row != s.jobs[k].phase.row)
    && (forall i :: 0 <= i < |s.sends| && s.sends[i].stage.Waiting? ==>
          s.sends[i].stage.job < |s.jobs| && s.jobs[s.sends[i].stage.job].send == i)
  }

  ghost predicate AnswersInv(s: State) {
    && (forall key :: key in s.replays ==> Remembered(s.rows, key, s.replays[key]))
    && (forall j :: 0 <= j < |s.jobs| && s.jobs[j].send < |s.sends|
                    && s.jobs[j].phase.Answered? && s.jobs[j].phase.answer.Success? ==>
          Replied(s.rows, RequestOf(s, j), s.jobs[j].phase.answer.status, s.jobs[j].phase.answer.body))
    && (forall i :: 0 <= i < |s.sends| && s.sends[i].stage.Finished? && s.sends[i].stage.reply.Some? ==>
          && s.sends[i].stage.reply.value.operation == OperationName(s.sends[i].request.op)
          && Replied(s.rows, s.sends[i].request, s.sends[i].stage.reply.value.httpStatus,
                     s.sends[i].stage.reply.value.body))
  }

  ghost predicate Inv(s: State) {
    RowsInv(s.rows) && JobsInv(s) && AnswersInv(s)
  }

  lemma RowsKept(s: State, step: Step)
    requires RowsInv(s.rows) && JobsInv(s) && Enabled(s, step)
    ensures RowsInv(Apply(s, step).rows)
  {
    if step.Insert? {
      assert forall r :: 0 <= r < |s.rows| && RequestOf(s, step.job).reference.Some? ==>
               s.rows[r].request.reference != RequestOf(s, step.job).reference;
    }
  }

  lemma JobsKeptByGateway(s: State, step: Step)
    requires JobsInv(s) && Enabled(s, step)
    requires step.Replay? || step.Refuse? || step.ExpireToken? || step.Fail? || step.Forget?
    ensures JobsInv(Apply(s, step))
  {
  }

  lemma JobsKeptByInsert(s: State, step: Step)
    requires JobsInv(s) && Enabled(s, step) && step.Insert?
    ensures JobsInv(Apply(s, step))
  {
  }

  lemma JobsKeptBySuccess(s: State, step: Step)
    requires JobsInv(s) && Enabled(s, step) && step.Succeed?
    ensures JobsInv(Apply(s, step))
  {
  }

  lemma JobsKeptBySubmit(s: State, step: Step)
    requires JobsInv(s) && Enabled(s, step) && step.Submit?
    ensures JobsInv(Apply(s, step))
  {
    var s' := Apply(s, step);
    assert forall i :: 0 <= i < |s.sends| ==> s'.sends[i] == s.sends[i];
    assert forall j :: 0 <= j < |s.jobs| ==> s'.jobs[j] == s.jobs[j];
  }

  /** A sender that stops waiting leaves the gateway's work as it is. */
  lemma JobsKeptByLeaving(s: State, i: nat, stage: Stage)
    requires JobsInv(s) && i < |s.sends| && !stage.Waiting?
    ensures JobsInv(Become(s, i, stage))
  {
  }

  lemma JobsKeptByResend(s: State, i: nat)
    requires JobsInv(s) && Enabled(s, Resend(i))
    ensures JobsInv(Apply(s, Resend(i)))
  {
    var s' := Apply(s, Resend(i));
    assert forall k :: 0 <= k < |s.sends| ==> s'.sends[k].request == s.sends[k].request;
    assert forall j :: 0 <= j < |s.jobs| ==> s'.jobs[j] == s.jobs[j];
  }

  lemma JobsKept(s: State, step: Step)
    requires JobsInv(s) && Enabled(s, step)
    ensures JobsInv(Apply(s, step))
  {
    if step.Insert? {
      JobsKeptByInsert(s, step);
    } else if step.Succeed? {
      JobsKeptBySuccess(s, step);
    } else if step.Submit? {
      JobsKeptBySubmit(s, step);
    } else if step.GiveUp? || step.Receive? {
      JobsKeptByLeaving(s, step.send, Apply(s, step).sends[step.send].stage);
    } else if step.Resend? {
      JobsKeptByResend(s, step.send);
    } else {
      JobsKeptByGateway(s, step);
    }
  }

  /** Replies, once there, stay. */
  ghost predicate Grows(rows: seq<Row>, rows': seq<Row>) {
    |rows| <= |rows'|
    && forall r :: 0 <= r < |rows| && rows[r].reply.Some? ==> rows'[r] == rows[r]
  }

  lemma GrowsKeeps(rows: seq<Row>, rows': seq<Row>)
    requires Grows(rows, rows')
    ensures forall key, body :: Remembered(rows, key, body) ==> Remembered(rows', key, body)
    ensures forall request, status, body ::
              Replied(rows, request, status, body) ==> Replied(rows', request, status, body)
  {
    forall request, status, body | Replied(rows, request, status, body)
      ensures Replied(rows', request, status, body)
    {
      var r :| RepliedBy(rows, r, request, status, body);
      assert RepliedBy(rows', r, request, status, body);
    }
  }

  lemma AnswersKeptBySuccess(s: State, step: Step)
    requires JobsInv(s) && AnswersInv(s) && Enabled(s, step) && step.Succeed?
    ensures AnswersInv(Apply(s, step))
  {
    var s' := Apply(s, step);
    var row := s.jobs[step.job].phase.row;
    assert Grows(s.rows, s'.rows);
    GrowsKeeps(s.rows, s'.rows);
    assert RepliedBy(s'.rows, row, RequestOf(s, step.job), step.status, step.body);
  }

  lemma AnswersKeptByAnswering(s: State, j: nat, answer: Answer)
    requires AnswersInv(s) && j < |s.jobs| && s.jobs[j].send < |s.sends|
    requires answer.Success? ==> Replied(s.rows, RequestOf(s, j), answer.status, answer.body)
    ensures AnswersInv(Advance(s, j, Answered(answer)))
  {
  }

  lemma AnswersKeptByReplay(s: State, step: Step)
    requires JobsInv(s) && AnswersInv(s) && Enabled(s, step) && step.Replay?
    ensures AnswersInv(Apply(s, step))
  {
    var request := RequestOf(s, step.job);
    var body := s.replays[request.key.value];
    var r :| 0 <= r < |s.rows| && s.rows[r].request.key == request.key
             && s.rows[r].reply.Some? && s.rows[r].reply.value.1 == body;
    assert RepliedBy(s.rows, r, request, 200, body);
    AnswersKeptByAnswering(s, step.job, Success(200, body));
  }

  lemma AnswersKept(s: State, step: Step)
    requires JobsInv(s) && AnswersInv(s) && Enabled(s, step)
    ensures AnswersInv(Apply(s, step))
  {
    if step.Succeed? {
      AnswersKeptBySuccess(s, step);
    } else if step.Replay? {
      AnswersKeptByReplay(s, step);
    } else {
      assert Grows(s.rows, Apply(s, step).rows);
      GrowsKeeps(s.rows, Apply(s, step).rows);
    }
  }

  lemma {:induction false} Reachable(run: seq<Step>)
    requires Valid(run)
    ensures Inv(Final(run))
    decreases |run|
  {
    if run != [] {
      var before := run[..|run| - 1];
      Reachable(before);
      RowsKept(Final(before), run[|run| - 1]);
      JobsKept(Final(before), run[|run| - 1]);
      AnswersKept(Final(before), run[|run| - 1]);
    }
  }

  // ---- what callers may rely on ----

  function CountJobs(jobs: seq<Job>, i: nat): nat {
    if jobs == [] then 0 else CountJobs(jobs[..|jobs| - 1], i) + if jobs[|jobs| - 1].send == i then 1 else 0
  }

  lemma {:induction false} SameSenders(jobs: seq<Job>, jobs': seq<Job>, i: nat)
    requires |jobs| == |jobs'| && forall j :: 0 <= j < |jobs| ==> jobs[j].send == jobs'[j].send
    ensures CountJobs(jobs, i) == CountJobs(jobs', i)
  {
    if jobs != [] {
      SameSenders(jobs[..|jobs| - 1], jobs'[..|jobs'| - 1], i);
    }
  }

  lemma {:induction false} NoJobsYet(jobs: seq<Job>, i: nat)
    requires forall j :: 0 <= j < |jobs| ==> jobs[j].send < i
    ensures CountJobs(jobs, i) == 0
  {
    if jobs != [] {
      NoJobsYet(jobs[..|jobs| - 1], i);
    }
  }

  /** A send that has not retried has made one request; no send makes more than two. */
  function RequestLimit(stage: Stage): nat {
    if stage.Refreshing? || (stage.Waiting? && !stage.retry) then 1 else 2
  }

  /** A step starts a request for send `i` only by submitting it, or by its one retry. */
  lemma RequestsGrow(s: State, step: Step, i: nat)
    requires Enabled(s, step) && i < |Apply(s, step).sends|
    ensures var s' := Apply(s, step);
            if |s'.jobs| == |s.jobs| then
              && i < |s.sends|
              && RequestLimit(s.sends[i].stage) <= RequestLimit(s'.sends[i].stage)
              && forall j :: 0 <= j < |s.jobs| ==> s'.jobs[j].send == s.jobs[j].send
            else
              && |s'.jobs| == |s.jobs| + 1 && s'.jobs[..|s.jobs|] == s.jobs
              && (s'.jobs[|s.jobs|].send == i && i < |s.sends| ==>
                    RequestLimit(s.sends[i].stage) < RequestLimit(s'.sends[i].stage))
              && (i < |s.sends| ==> RequestLimit(s.sends[i].stage) <= RequestLimit(s'.sends[i].stage))
  {
  }

  lemma {:induction false} AtMostTwoRequests(run: seq<Step>, i: nat)
    requires Valid(run) && i < |Final(run).sends|
    ensures CountJobs(Final(run).jobs, i) <= RequestLimit(Final(run).sends[i].stage)
    decreases |run|
  {
    if run != [] {
      var before, step := run[..|run| - 1], run[|run| - 1];
      var s := Final(before);
      RequestsGrow(s, step, i);
      if i < |s.sends| {
        AtMostTwoRequests(before, i);
      } else {
        Reachable(before);
        NoJobsYet(s.jobs, i);
      }
      if |Apply(s, step).jobs| == |s.jobs| {
        SameSenders(s.jobs, Apply(s, step).jobs, i);
      }
    }
  }

  /** The gateway's unique key, as the callers' lemmas below use it. */
  lemma AtMostOneRow(run: seq<Step>, a: nat, b: nat)
    requires Valid(run) && a < |Final(run).rows| && b < |Final(run).rows|
    requires Final(run).rows[a].request.reference.Some?
    requires Final(run).rows[a].request.reference == Final(run).rows[b].request.reference
    ensures a == b
  {
    Reachable(run);
  }

  predicate Succeeded(s: State, i: int) {
    0 <= i < |s.sends| && s.sends[i].stage.Finished? && s.sends[i].stage.reply.Some?
  }

  /** The key of `request`, if it has one, is never sent with another request. */
  ghost predicate KeyIsOwn(s: State, request: Request) {
    forall j :: 0 <= j < |s.sends| && request.key.Some? && s.sends[j].request.key == request.key ==>
      s.sends[j].request == request
  }

  /** A success is the reply of a row its own request created, first hand or replayed. */
  lemma ReplyOfOwnRow(run: seq<Step>, i: nat) returns (r: nat)
    requires Valid(run) && Succeeded(Final(run), i) && KeyIsOwn(Final(run), Final(run).sends[i].request)
    ensures var s := Final(run);
            && r < |s.rows| && s.rows[r].request == s.sends[i].request
            && s.rows[r].reply.Some?
            && var reply, original := s.sends[i].stage.reply.value, s.rows[r].reply.value;
               && reply.body == original.1 && reply.body.txId == s.rows[r].txId
               && Documented(s.rows[r].request.op, original.0, original.1)
               && (reply.httpStatus == original.0 || reply.httpStatus == 200)
  {
    Reachable(run);
    var s := Final(run);
    var reply := s.sends[i].stage.reply.value;
    r :| RepliedBy(s.rows, r, s.sends[i].request, reply.httpStatus, reply.body);
    assert s.sends[s.rows[r].send].request == s.rows[r].request;
  }

  /**
   All successes under one `reference_id` are of one request, name one transaction and read
   the same, although a replay arrives as 200.
   */
  lemma RepliesAgree(run: seq<Step>, i: nat, j: nat)
    requires Valid(run) && Succeeded(Final(run), i) && Succeeded(Final(run), j)
    requires KeyIsOwn(Final(run), Final(run).sends[i].request) && KeyIsOwn(Final(run), Final(run).sends[j].request)
    requires Final(run).sends[i].request.reference.Some?
    requires Final(run).sends[i].request.reference == Final(run).sends[j].request.reference
    ensures Final(run).sends[i].request == Final(run).sends[j].request
    ensures var x, y := Final(run).sends[i].stage.reply.value, Final(run).sends[j].stage.reply.value;
            x.body == y.body && IsAccepted(x) == IsAccepted(y) && IsBroadcast(x) == IsBroadcast(y)
  {
    var a := ReplyOfOwnRow(run, i);
    var b := ReplyOfOwnRow(run, j);
    AtMostOneRow(run, a, b);
    Reachable(run);
    var s := Final(run);
    DocumentedReplies(s.rows[a].request.op, s.rows[a].reply.value.0, s.rows[a].reply.value.1);
  }

  /** Whatever the keys, two different requests are told of one transaction only if they share a key. */
  lemma RepliesDoNotCross(run: seq<Step>, i: nat, j: nat)
    requires Valid(run) && Succeeded(Final(run), i) && Succeeded(Final(run), j)
    requires var x, y := Final(run).sends[i].request, Final(run).sends[j].request;
             x != y && (x.key.None? || x.key != y.key)
    ensures Final(run).sends[i].stage.reply.value.body.txId != Final(run).sends[j].stage.reply.value.body.txId
  {
    Reachable(run);
    var s := Final(run);
    var x, y := s.sends[i].stage.reply.value, s.sends[j].stage.reply.value;
    var a :| RepliedBy(s.rows, a, s.sends[i].request, x.httpStatus, x.body);
    var b :| RepliedBy(s.rows, b, s.sends[j].request, y.httpStatus, y.body);
  }

  // ---- what key and reference are each for ----

  lemma Extend(run: seq<Step>, step: Step)
    requires Valid(run) && Enabled(Final(run), step)
    ensures Valid(run + [step]) && Final(run + [step]) == Apply(Final(run), step)
  {
    assert (run + [step])[..|run|] == run;
  }

  /** A first request gets its row. */
  lemma FirstInserted(request: Request, txId: string) returns (run: seq<Step>)
    ensures Valid(run)
    ensures Final(run) == State([Send(request, Waiting(0, false))], [Job(0, Working(0))],
                                [Row(0, request, txId, None)], map[])
  {
    Extend([], Submit(request));
    run := [] + [Submit(request)];
    assert Final(run) == State([Send(request, Waiting(0, false))], [Job(0, Arrived)], [], map[]);
    assert RequestOf(Final(run), 0) == request && !Referenced(Final(run), request.reference);
    Extend(run, Insert(0, txId));
    run := run + [Insert(0, txId)];
  }

  /** It is then answered, and the reply is remembered under its key. */
  lemma FirstAnswered(request: Request, body: TxBody) returns (run: seq<Step>)
    requires request.key.Some? && Documented(request.op, 200, body)
    ensures Valid(run)
    ensures Final(run) == State([Send(request, Waiting(0, false))], [Job(0, Answered(Success(200, body)))],
                                [Row(0, request, body.txId, Some((200, body)))], map[request.key.value := body])
  {
    run := FirstInserted(request, body.txId);
    Extend(run, Succeed(0, 200, body, true));
    run := run + [Succeed(0, 200, body, true)];
  }

  lemma FirstSucceeds(request: Request, body: TxBody) returns (run: seq<Step>)
    requires request.key.Some? && Documented(request.op, 200, body)
    ensures Valid(run)
    ensures Final(run) == State([Send(request, Finished(Some(Respond(request.op, 200, body))))],
                                [Job(0, Answered(Success(200, body)))],
                                [Row(0, request, body.txId, Some((200, body)))], map[request.key.value := body])
  {
    run := FirstAnswered(request, body);
    Extend(run, Receive(0));
    run := run + [Receive(0)];
  }

  /** A second request under the same key is answered from what is remembered. */
  lemma SecondIsReplayed(run: seq<Step>, request: Request, key: string) returns (run': seq<Step>)
    requires Valid(run) && |Final(run).sends| == |Final(run).jobs| == 1
    requires request.key == Some(key) && key in Final(run).replays
    ensures Valid(run') && Final(run').rows == Final(run).rows
    ensures Final(run').sends == Final(run).sends
              + [Send(request, Finished(Some(Respond(request.op, 200, Final(run).replays[key]))))]
  {
    var s := Final(run);
    Extend(run, Submit(request));
    run' := run + [Submit(request)];
    assert Final(run').jobs[1] == Job(1, Arrived) && RequestOf(Final(run'), 1) == request;
    Extend(run', Replay(1));
    run' := run' + [Replay(1)];
    assert Final(run').jobs[1].phase == Answered(Success(200, s.replays[key]));
    Extend(run', Receive(1));
    run' := run' + [Receive(1)];
  }

  /** A documented 200 of the operation. */
  function SampleReply(op: Operation): (body: TxBody)
    ensures Documented(op, 200, body)
  {
    if op.Transfer? then TxBody("tx", STATUS_PENDING, "", None) else TxBody("tx", STATUS_BROADCAST, "", Some("hash"))
  }

  /** Sends `i` of request `x` and `j` of request `y` both succeed, and are told of one transaction. */
  ghost predicate Crossed(run: seq<Step>, i: nat, j: nat, x: Request, y: Request) {
    && Valid(run) && Succeeded(Final(run), i) && Succeeded(Final(run), j)
    && Final(run).sends[i].request == x && Final(run).sends[j].request == y
    && Final(run).sends[i].stage.reply.value.body.txId == Final(run).sends[j].stage.reply.value.body.txId
  }

  /** One key for two requests: the second can be answered with the transaction of the first, and get no row of its own. */
  lemma ReusedKeyCrosses(x: Request, y: Request) returns (run: seq<Step>)
    requires x.key.Some? && y.key == x.key
    ensures Crossed(run, 0, 1, x, y)
    ensures |Final(run).rows| == 1 && Final(run).rows[0].request == x
  {
    run := FirstSucceeds(x, SampleReply(x.op));
    run := SecondIsReplayed(run, y, x.key.value);
  }

  /** Two different requests may be told of one transaction exactly if they share a key, whatever their references. */
  lemma CrossingIff(x: Request, y: Request)
    requires x != y
    ensures (exists run, i, j :: Crossed(run, i, j, x, y)) <==> x.key.Some? && x.key == y.key
  {
    if x.key.Some? && x.key == y.key {
      var run := ReusedKeyCrosses(x, y);
    } else {
      forall run, i, j | Crossed(run, i, j, x, y) ensures false {
        RepliesDoNotCross(run, i, j);
      }
    }
  }

  /** A sender that gave up leaves the gateway at work on its row. */
  lemma LostWhileWorking(request: Request, txId: string) returns (run: seq<Step>)
    ensures Valid(run)
    ensures Final(run) == State([Send(request, Finished(None))], [Job(0, Working(0))],
                                [Row(0, request, txId, None)], map[])
  {
    run := FirstInserted(request, txId);
    Extend(run, GiveUp(0));
    run := run + [GiveUp(0)];
  }

  /** Rows `a` and `b` are both of `request`, the only one ever sent. */
  ghost predicate TwoRows(run: seq<Step>, a: nat, b: nat, request: Request) {
    && Valid(run) && a < b < |Final(run).rows|
    && Final(run).rows[a].request == request && Final(run).rows[b].request == request
    && forall i :: 0 <= i < |Final(run).sends| ==> Final(run).sends[i].request == request
  }

  /** No `reference_id`: resending after a lost reply can create a second row, under the same key too. */
  lemma KeyAloneIsNotEnough(request: Request) returns (run: seq<Step>)
    requires request.reference.None?
    ensures TwoRows(run, 0, 1, request) && Final(run).rows[0].txId != Final(run).rows[1].txId
  {
    run := LostWhileWorking(request, "tx");
    Extend(run, Submit(request));
    run := run + [Submit(request)];
    assert Final(run).jobs[1] == Job(1, Arrived) && RequestOf(Final(run), 1) == request;
    assert Final(run).rows == [Row(0, request, "tx", None)];
    assert "tx"[0] != "x2"[0];
    Extend(run, Insert(1, "x2"));
    run := run + [Insert(1, "x2")];
  }

  /** Sent any number of times, and alone, a request can leave two rows exactly if it has no `reference_id`. */
  lemma TwoRowsIff(request: Request)
    ensures (exists run, a, b :: TwoRows(run, a, b, request)) <==> request.reference.None?
  {
    if request.reference.None? {
      var run := KeyAloneIsNotEnough(request);
    } else {
      forall run, a, b | TwoRows(run, a, b, request) ensures false {
        AtMostOneRow(run, a, b);
      }
    }
  }
}
