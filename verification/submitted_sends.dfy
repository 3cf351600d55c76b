/**
 A send of the submission machine is a `send` of the client, over whole runs: whatever it
 heard and did, in any world that answers so the client returns the same after as many
 requests, and there is such a world.
 */
module SubmittedSends {
  import opened Options
  import opened Errors
  import opened TokenCache
  import opened Transactions
  import opened Submission
  import SendSpec

  /** What `create_transaction_with_headers` returns on a result of `send`, any error being none. */
  function Created(op: Operation, read: string -> TxBody, result: Result<Reply>): Option<TxResponse> {
    if result.Ok? then Some(Respond(op, result.value.status, read(result.value.value))) else None
  }

  /** `reply` is how the gateway's `answer` reaches the client. */
  predicate Carries(reply: Option<(nat, Body)>, answer: Answer, read: string -> TxBody) {
    && reply.Some?
    && var (status, body) := reply.value;
       match answer
       case Success(code, created) =>
         status == code < 400 && body.asValue.Some? && read(body.asValue.value) == created
       case TokenExpired => SendSpec.Expired(reply)
       case Refusal(code) => status == code >= 400 && !SendSpec.Expired(reply)
  }

  /** The answer a `Receive` acts on. */
  function Received(s: State, i: nat): Answer
    requires Enabled(s, Receive(i))
  {
    s.jobs[s.sends[i].stage.job].phase.answer
  }

  function NextStage(s: State, step: Step, i: nat): Stage
    requires Enabled(s, step) && i < |s.sends| && (step == Receive(i) || step == GiveUp(i))
  {
    Apply(s, step).sends[i].stage
  }

  lemma ReadingIsDecoding(reply: Option<(nat, Body)>, answer: Answer, op: Operation, read: string -> TxBody)
    requires Carries(reply, answer, read)
    ensures Reading(op, answer) == Created(op, read, SendSpec.Decoded(reply))
  {
  }

  lemma FirstReplyReceived(s: State, i: nat, read: string -> TxBody,
                           cache: Cache, w: SendSpec.World, c: SendSpec.Credentials, request: SendSpec.Request)
    requires Enabled(s, Receive(i)) && !s.sends[i].stage.retry
    requires SendSpec.TryOnce(cache, w, c, request, None).token.Ok?
    requires Carries(SendSpec.NthAnswer(w.apiScript, 0).reply, Received(s, i), read)
    ensures NextStage(s, Receive(i), i) ==
              if SendSpec.Retries(SendSpec.TryOnce(cache, w, c, request, None)) then Refreshing
              else Finished(Created(s.sends[i].request.op, read, SendSpec.Send(cache, w, c, request).2))
  {
    SendSpec.AttemptCalls(cache, w, c, request, None);
    ReadingIsDecoding(SendSpec.NthAnswer(w.apiScript, 0).reply, Received(s, i), s.sends[i].request.op, read);
  }

  lemma RetryReplyReceived(s: State, i: nat, read: string -> TxBody,
                           cache: Cache, w: SendSpec.World, c: SendSpec.Credentials, request: SendSpec.Request)
    requires Enabled(s, Receive(i)) && s.sends[i].stage.retry
    requires |SendSpec.Sent(cache, w, c, request)| == 2
    requires Carries(SendSpec.NthAnswer(w.apiScript, 1).reply, Received(s, i), read)
    ensures NextStage(s, Receive(i), i) ==
              Finished(Created(s.sends[i].request.op, read, SendSpec.Send(cache, w, c, request).2))
  {
    SendSpec.ResultIsLastReply(cache, w, c, request);
    ReadingIsDecoding(SendSpec.NthAnswer(w.apiScript, 1).reply, Received(s, i), s.sends[i].request.op, read);
  }

  /** No reply to a request, or no token to retry with: to the submission the sender has given up. */
  lemma NoReplyIsGivingUp(s: State, i: nat, read: string -> TxBody,
                          cache: Cache, w: SendSpec.World, c: SendSpec.Credentials, request: SendSpec.Request)
    requires Enabled(s, GiveUp(i))
    requires var first := SendSpec.TryOnce(cache, w, c, request, None);
             first.token.Ok? &&
             if SendSpec.Retries(first)
             then !SendSpec.TryAgain(first, c, request).token.Ok? || SendSpec.NthAnswer(w.apiScript, 1).reply.None?
             else SendSpec.NthAnswer(w.apiScript, 0).reply.None?
    ensures NextStage(s, GiveUp(i), i) ==
              Finished(Created(s.sends[i].request.op, read, SendSpec.Send(cache, w, c, request).2))
    ensures Apply(s, GiveUp(i)).jobs == s.jobs
  {
    SendSpec.ResultIsLastReply(cache, w, c, request);
    SendSpec.AttemptCalls(cache, w, c, request, None);
    SendSpec.RetryIff(cache, w, c, request);
  }

  // ---- the life of a send ----

  /** The answers a send received, whether it sent its retry, and whether it gave up. */
  datatype Life = Life(heard: seq<Answer>, resent: bool, gaveUp: bool)

  ghost function LifeOf(run: seq<Step>, i: nat): Life
    requires Valid(run)
    decreases |run|
  {
    if run == [] then Life([], false, false) else
      var before, step := run[..|run| - 1], run[|run| - 1];
      var life := LifeOf(before, i);
      if step == Receive(i) then life.(heard := life.heard + [Received(Final(before), i)])
      else if step == Resend(i) then life.(resent := true)
      else if step == GiveUp(i) then life.(gaveUp := true)
      else life
  }

  /** Where a send stands after the life it had. */
  predicate Stands(send: Send, life: Life) {
    match send.stage
    case Waiting(_, retry) => life == if retry then Life([TokenExpired], true, false) else Life([], false, false)
    case Refreshing => life == Life([TokenExpired], false, false)
    case Finished(reply) =>
      if life.gaveUp then
        reply.None? && (life.heard == [TokenExpired] || (life.heard == [] && !life.resent))
      else
        && 1 <= |life.heard| <= 2
        && (|life.heard| == 2 <==> life.resent) && (life.heard[0].TokenExpired? <==> life.resent)
        && reply == Reading(send.request.op, life.heard[|life.heard| - 1])
  }

  lemma StandsKept(s: State, step: Step, i: nat, life: Life)
    requires Enabled(s, step) && i < |s.sends| && Stands(s.sends[i], life)
    ensures i < |Apply(s, step).sends|
    ensures Stands(Apply(s, step).sends[i],
                   if step == Receive(i) then life.(heard := life.heard + [Received(s, i)])
                   else if step == Resend(i) then life.(resent := true)
                   else if step == GiveUp(i) then life.(gaveUp := true)
                   else life)
  {
  }

  lemma {:induction false} NoLifeYet(run: seq<Step>, i: nat)
    requires Valid(run) && i >= |Final(run).sends|
    ensures LifeOf(run, i) == Life([], false, false)
    decreases |run|
  {
    if run != [] {
      NoLifeYet(run[..|run| - 1], i);
    }
  }

  lemma {:induction false} LifeStands(run: seq<Step>, i: nat)
    requires Valid(run) && i < |Final(run).sends|
    ensures Stands(Final(run).sends[i], LifeOf(run, i))
    decreases |run|
  {
    var before, step := run[..|run| - 1], run[|run| - 1];
    if i < |Final(before).sends| {
      LifeStands(before, i);
      StandsKept(Final(before), step, i, LifeOf(before, i));
    } else {
      NoLifeYet(before, i);
    }
  }

  /** The requests a send has at the gateway: its first, and its retry once that was sent. */
  lemma {:induction false} JobsOfLife(run: seq<Step>, i: nat)
    requires Valid(run) && i < |Final(run).sends|
    ensures CountJobs(Final(run).jobs, i) == if LifeOf(run, i).resent then 2 else 1
    decreases |run|
  {
    var before, step := run[..|run| - 1], run[|run| - 1];
    var s, s' := Final(before), Final(run);
    if i < |s.sends| {
      JobsOfLife(before, i);
      LifeStands(before, i);
    } else {
      Reachable(before);
      NoJobsYet(s.jobs, i);
      NoLifeYet(before, i);
    }
    JobsGrow(s, step, i);
    if |s'.jobs| == |s.jobs| {
      SameSenders(s.jobs, s'.jobs, i);
    } else {
      assert s'.jobs[..|s'.jobs| - 1] == s.jobs;
    }
  }

  /** Only a submission or a retry brings the gateway a request, and it is the sender's own. */
  lemma JobsGrow(s: State, step: Step, i: nat)
    requires Enabled(s, step) && i < |Apply(s, step).sends|
    ensures var s' := Apply(s, step);
            if step.Submit? || step.Resend? then
              && |s'.jobs| == |s.jobs| + 1 && s'.jobs[..|s.jobs|] == s.jobs
              && (s'.jobs[|s.jobs|].send == i <==> i >= |s.sends| || step == Resend(i))
            else
              && i < |s.sends| && |s'.jobs| == |s.jobs|
              && forall j :: 0 <= j < |s.jobs| ==> s'.jobs[j].send == s.jobs[j].send
  {
  }

  // ---- worlds that answer so ----

  /** The world answers a `send` of the client the way the gateway answered in that life. */
  predicate Plays(life: Life, read: string -> TxBody,
                  cache: Cache, w: SendSpec.World, c: SendSpec.Credentials, request: SendSpec.Request)
  {
    var first := SendSpec.TryOnce(cache, w, c, request, None);
    var replies := (SendSpec.NthAnswer(w.apiScript, 0).reply, SendSpec.NthAnswer(w.apiScript, 1).reply);
    && first.token.Ok?
    && (if life.heard == [] then replies.0.None? else Carries(replies.0, life.heard[0], read))
    && (SendSpec.Retries(first) ==> (life.resent <==> SendSpec.TryAgain(first, c, request).token.Ok?))
    && (life.resent ==>
          if |life.heard| < 2 then replies.1.None? else Carries(replies.1, life.heard[1], read))
  }

  /** What a finished send came to is what the client returns in such a world, and it takes as many requests. */
  lemma SubmittedSendIsSend(run: seq<Step>, i: nat, read: string -> TxBody,
                            cache: Cache, w: SendSpec.World, c: SendSpec.Credentials, request: SendSpec.Request)
    requires Valid(run) && i < |Final(run).sends| && Final(run).sends[i].stage.Finished?
    requires Plays(LifeOf(run, i), read, cache, w, c, request)
    ensures var send := Final(run).sends[i];
            send.stage.reply == Created(send.request.op, read, SendSpec.Send(cache, w, c, request).2)
    ensures CountJobs(Final(run).jobs, i) == |SendSpec.Sent(cache, w, c, request)|
  {
    LifeStands(run, i);
    JobsOfLife(run, i);
    PlayedToItsEnd(Final(run).sends[i], LifeOf(run, i), read, cache, w, c, request);
  }

  lemma PlayedToItsEnd(send: Send, life: Life, read: string -> TxBody,
                       cache: Cache, w: SendSpec.World, c: SendSpec.Credentials, request: SendSpec.Request)
    requires send.stage.Finished? && Stands(send, life) && Plays(life, read, cache, w, c, request)
    ensures send.stage.reply == Created(send.request.op, read, SendSpec.Send(cache, w, c, request).2)
    ensures |SendSpec.Sent(cache, w, c, request)| == if life.resent then 2 else 1
  {
    PlayedRequests(send, life, read, cache, w, c, request);
    SendSpec.ResultIsLastReply(cache, w, c, request);
    if life.heard == [] {
      assert SendSpec.NthAnswer(w.apiScript, 0).reply.None?;
    } else if !life.resent {
      ReadingIsDecoding(SendSpec.NthAnswer(w.apiScript, 0).reply, life.heard[0], send.request.op, read);
    } else if |life.heard| > 1 {
      ReadingIsDecoding(SendSpec.NthAnswer(w.apiScript, 1).reply, life.heard[1], send.request.op, read);
    }
  }

  lemma PlayedRequests(send: Send, life: Life, read: string -> TxBody,
                       cache: Cache, w: SendSpec.World, c: SendSpec.Credentials, request: SendSpec.Request)
    requires send.stage.Finished? && Stands(send, life) && Plays(life, read, cache, w, c, request)
    ensures SendSpec.Retries(SendSpec.TryOnce(cache, w, c, request, None)) <==>
              life.heard != [] && life.heard[0].TokenExpired?
    ensures |SendSpec.Sent(cache, w, c, request)| == if life.resent then 2 else 1
  {
    SendSpec.AttemptCalls(cache, w, c, request, None);
    SendSpec.SendCalls(cache, w, c, request);
  }

  // ---- there is such a world ----

  predicate InRange(answer: Answer) {
    (answer.Success? ==> answer.status < 400) && (answer.Refusal? ==> answer.status >= 400)
  }

  ghost predicate AnswersInRange(s: State) {
    forall j :: 0 <= j < |s.jobs| && s.jobs[j].phase.Answered? ==> InRange(s.jobs[j].phase.answer)
  }

  lemma {:induction false} RangeKept(run: seq<Step>)
    requires Valid(run)
    ensures AnswersInRange(Final(run))
    decreases |run|
  {
    if run != [] {
      RangeKept(run[..|run| - 1]);
    }
  }

  lemma {:induction false} HeardInRange(run: seq<Step>, i: nat)
    requires Valid(run)
    ensures forall k :: 0 <= k < |LifeOf(run, i).heard| ==> InRange(LifeOf(run, i).heard[k])
    decreases |run|
  {
    if run != [] {
      HeardInRange(run[..|run| - 1], i);
      RangeKept(run[..|run| - 1]);
    }
  }

  /** The reply that carries an answer, for some way of writing what `read` reads. */
  function Wire(answer: Answer, write: TxBody -> string): (nat, Body) {
    match answer
    case Success(code, created) => (code, Body(None, Some(write(created))))
    case TokenExpired => (401, Body(Some(ErrorBody(TOKEN_EXPIRED, "", "")), None))
    case Refusal(code) => (code, Body(None, None))
  }

  lemma WireCarries(answer: Answer, read: string -> TxBody, write: TxBody -> string)
    requires InRange(answer) && forall body :: read(write(body)) == body
    ensures Carries(Some(Wire(answer, write)), answer, read)
  {
  }

  const GRANT := SendSpec.AuthAnswer(0, Accepted(200, Some(TokenResponse("t", 0))))
  const NO_GRANT := SendSpec.AuthAnswer(0, Unreachable)

  /** The gateway that gives these answers, one after the other, and a second token only for a retry that was sent. */
  function Player(life: Life, write: TxBody -> string): SendSpec.World {
    var replies := seq(|life.heard|, k requires 0 <= k < |life.heard| =>
                         SendSpec.ApiAnswer(0, Some(Wire(life.heard[k], write))));
    var lost := SendSpec.ApiAnswer(0, None);
    SendSpec.World(0, [GRANT, if life.resent then GRANT else NO_GRANT], replies + [lost, lost], 0, [])
  }

  lemma PlayerGrants(life: Life, write: TxBody -> string, c: SendSpec.Credentials, request: SendSpec.Request)
    ensures var first := SendSpec.TryOnce(None, Player(life, write), c, request, None);
            first.token.Ok? && (SendSpec.TryAgain(first, c, request).token.Ok? <==> life.resent)
  {
  }

  lemma PlayerReplies(life: Life, read: string -> TxBody, write: TxBody -> string, k: nat)
    requires k < |life.heard| + 2
    requires forall body :: read(write(body)) == body
    ensures var reply := SendSpec.NthAnswer(Player(life, write).apiScript, k).reply;
            if k < |life.heard| then InRange(life.heard[k]) ==> Carries(reply, life.heard[k], read) else reply.None?
  {
    if k < |life.heard| && InRange(life.heard[k]) {
      WireCarries(life.heard[k], read, write);
    }
  }

  lemma PlayerPlays(life: Life, read: string -> TxBody, write: TxBody -> string,
                    c: SendSpec.Credentials, request: SendSpec.Request)
    requires forall k :: 0 <= k < |life.heard| ==> InRange(life.heard[k])
    requires life.resent ==> life.heard != []
    requires forall body :: read(write(body)) == body
    ensures Plays(life, read, None, Player(life, write), c, request)
  {
    PlayerGrants(life, write, c, request);
    PlayerReplies(life, read, write, 0);
    PlayerReplies(life, read, write, 1);
  }

  /** So the lemma above speaks of every send of every run. */
  lemma EveryLifeIsPlayed(run: seq<Step>, i: nat, read: string -> TxBody, write: TxBody -> string,
                          c: SendSpec.Credentials, request: SendSpec.Request)
    returns (w: SendSpec.World)
    requires Valid(run) && i < |Final(run).sends|
    requires forall body :: read(write(body)) == body
    ensures Plays(LifeOf(run, i), read, None, w, c, request)
  {
    w := Player(LifeOf(run, i), write);
    LifeStands(run, i);
    HeardInRange(run, i);
    PlayerPlays(LifeOf(run, i), read, write, c, request);
  }
}
