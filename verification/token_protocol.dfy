/**
 Any number of tasks inside `MpcClient::send`, sharing one token cache behind a
 readers/one-writer lock, as a step-indexed transition system.

 A step is what one task does between two points where another task, the clock or the
 gateway may act. Everything the gateway decides travels in the step.
 */
module TokenProtocol {
  import opened Options
  import opened Errors
  import opened MachineInts
  import opened TokenCache

  /** How one `send` ended: it returned, or its future was dropped at an await. */
  datatype SendEnd = Returned(result: Result<Reply>) | Dropped

  /**
   Where a task stands. `stale` is `None` while it runs `get_token` and makes its first
   request, and the token that drew `401 token_expired` while it refreshes and retries.
   */
  datatype Pc =
    | Start                                                      // get_token awaits the read lock
    | Reading                                                    // read guard held
    | WantWrite(stale: Option<string>)                           // refresh awaits the write lock
    | Checking(stale: Option<string>)                            // write guard held
    | Authing(stale: Option<string>, checkedAt: nat)             // auth request sent, guard held
    | Refusing(stale: Option<string>, checkedAt: nat, status: nat)
    | Granting(stale: Option<string>, checkedAt: nat, status: nat, response: Option<TokenResponse>)
    | Ready(stale: Option<string>, token: string)                // guard dropped, token in hand
    | Calling(stale: Option<string>, token: string)              // API request in flight
    | Done(end: SendEnd)

  /** What happened under the write lock, in order. */
  datatype Event =
    | AuthSent(task: nat, stale: Option<string>, at: nat)
    | Stored(task: nat, token: string, expiresAt: nat, at: nat, grant: nat)
    | Cleared(task: nat)
    | Abandoned(task: nat)   // transport or decode failure, panic, cancellation: cache untouched

  /** A token the gateway issued, with its lifetime and the instant it was issued. */
  datatype Grant = Grant(token: string, expiresIn: I64, at: nat)

  datatype State = State(
    now: nat,
    cache: Cache,
    readers: set<nat>,
    writer: Option<nat>,
    tasks: seq<Pc>,
    grants: seq<Grant>,
    log: seq<Event>)

  const INITIAL := State(0, None, {}, None, [], [], [])

  datatype Step =
    | Spawn
    | Tick(nanos: nat)
    | AcquireRead(task: nat)
    | FastCheck(task: nat)
    | AcquireWrite(task: nat)
    | DoubleCheck(task: nat)
    | AuthUnreachable(task: nat)
    | AuthRefused(task: nat, status: nat)
    | AuthRefusedBody(task: nat, error: Option<ErrorBody>)
    | AuthAccepted(task: nat, status: nat, response: Option<TokenResponse>)
    | AuthBodyLost(task: nat)
    | AuthBody(task: nat)
    | CallApi(task: nat)
    | ApiUnreachable(task: nat)
    | ApiReply(task: nat, status: nat, body: Body)
    | Cancel(task: nat)

  predicate AwaitsAuth(pc: Pc) {
    pc.Authing? || pc.Refusing? || pc.Granting?
  }

  predicate HoldsWrite(pc: Pc) {
    pc.Checking? || AwaitsAuth(pc)
  }

  /** The points where a dropped future stops: every await, and nothing in between. */
  predicate AtAwait(pc: Pc) {
    pc.Start? || pc.WantWrite? || AwaitsAuth(pc) || pc.Calling?
  }

  predicate Enabled(s: State, step: Step) {
    if step.Spawn? || step.Tick? then true else
    && step.task < |s.tasks|
    && var pc := s.tasks[step.task];
      match step
      case AcquireRead(_) => pc.Start? && s.writer.None?
      case FastCheck(_) => pc.Reading?
      case AcquireWrite(_) => pc.WantWrite? && s.writer.None? && s.readers == {}
      case DoubleCheck(_) => pc.Checking?
      case AuthUnreachable(_) => pc.Authing?
      case AuthRefused(_, status) => pc.Authing? && status >= 400
      case AuthRefusedBody(_, _) => pc.Refusing?
      case AuthAccepted(_, status, _) => pc.Authing? && status < 400
      case AuthBodyLost(_) => pc.Granting?
      case AuthBody(_) => pc.Granting?
      case CallApi(_) => pc.Ready?
      case ApiUnreachable(_) => pc.Calling?
      case ApiReply(_, _, _) => pc.Calling?
      case Cancel(_) => AtAwait(pc)
  }

  function Goto(s: State, t: nat, pc: Pc): State
    requires t < |s.tasks|
  {
    s.(tasks := s.tasks[t := pc])
  }

  function AfterToken(stale: Option<string>, result: Result<string>): Pc {
    match result
    case Ok(token) => Ready(stale, token)
    case Err(error) => Done(Returned(Err(error)))
    case Panicked => Done(Returned(Panicked))
  }

  /** `t` has its auth answer: the cache settles, the guard drops, the round trip is logged. */
  function Settled(s: State, t: nat, outcome: AuthOutcome): State
    requires t < |s.tasks| && AwaitsAuth(s.tasks[t])
  {
    var (cache, result) := Settle(s.cache, outcome, s.now);
    var event :=
      if outcome.Refused? then Cleared(t)
      else if result.Ok? then
        Stored(t, result.value, ExpiryInstant(s.now, outcome.response.value.expiresIn).value, s.now,
               if |s.grants| == 0 then 0 else |s.grants| - 1)
      else Abandoned(t);
    Goto(s, t, AfterToken(s.tasks[t].stale, result)).(cache := cache, writer := None, log := s.log + [event])
  }

  function Apply(s: State, step: Step): State
    requires Enabled(s, step)
  {
    match step
    case Spawn => s.(tasks := s.tasks + [Start])
    case Tick(nanos) => s.(now := s.now + nanos)
    case AcquireRead(t) => Goto(s, t, Reading).(readers := s.readers + {t})
    case FastCheck(t) =>
      var served := Served(s.cache, None, s.now);
      Goto(s, t, if served.Some? then Ready(None, served.value) else WantWrite(None)).(readers := s.readers - {t})
    case AcquireWrite(t) => Goto(s, t, Checking(s.tasks[t].stale)).(writer := Some(t))
    case DoubleCheck(t) =>
      var stale := s.tasks[t].stale;
      var served := Served(s.cache, stale, s.now);
      if served.Some? then
        Goto(s, t, Ready(stale, served.value)).(writer := None)
      else
        Goto(s, t, Authing(stale, s.now)).(log := s.log + [AuthSent(t, stale, s.now)])
    case AuthUnreachable(t) => Settled(s, t, Unreachable)
    case AuthRefused(t, status) =>
      Goto(s, t, Refusing(s.tasks[t].stale, s.tasks[t].checkedAt, status))
    case AuthRefusedBody(t, error) => Settled(s, t, Refused(s.tasks[t].status, error))
    case AuthAccepted(t, status, response) =>
      Goto(s, t, Granting(s.tasks[t].stale, s.tasks[t].checkedAt, status, response)).(
        grants := s.grants +
          if response.Some? then [Grant(response.value.token, response.value.expiresIn, s.now)] else [])
    case AuthBodyLost(t) => Settled(s, t, Unreachable)
    case AuthBody(t) => Settled(s, t, Accepted(s.tasks[t].status, s.tasks[t].response))
    case CallApi(t) => Goto(s, t, Calling(s.tasks[t].stale, s.tasks[t].token))
    case ApiUnreachable(t) => Goto(s, t, Done(Returned(Err(Http))))
    case ApiReply(t, status, body) =>
      Goto(s, t,
        if s.tasks[t].stale.None? && status == 401 && IsTokenExpired(body) then WantWrite(Some(s.tasks[t].token))
        else Done(Returned(DecodeReply(status, body))))
    case Cancel(t) =>
      var gone := Goto(s, t, Done(Dropped));
      if AwaitsAuth(s.tasks[t]) then gone.(writer := None, log := s.log + [Abandoned(t)]) else gone
  }

  // ---- runs ----

  ghost predicate Valid(run: seq<Step>)
    decreases |run|, 0
  {
    run == [] || (Valid(run[..|run| - 1]) && Enabled(Final(run[..|run| - 1]), run[|run| - 1]))
  }

  ghost function Final(run: seq<Step>): State
    requires Valid(run)
    decreases |run|, 1
  {
    if run == [] then INITIAL else Apply(Final(run[..|run| - 1]), run[|run| - 1])
  }

  lemma Extend(run: seq<Step>, step: Step)
    requires Valid(run) && Enabled(Final(run), step)
    ensures Valid(run + [step])
    ensures Final(run + [step]) == Apply(Final(run), step)
  {
    assert (run + [step])[..|run|] == run;
  }
}
