/**
 The sequential specification: `get_token` and `refresh_after_expiry` as single atomic
 operations on the cache, with no lock and no intermediate states; and the proof that
 every run of the token protocol is a run of it.
 */
module TokenSpec {
  import opened Options
  import opened Errors
  import opened TokenCache
  import opened TokenProtocol

  datatype SpecPc =
    | Needs(stale: Option<string>)
    | Has(stale: Option<string>, token: string)
    | Calls(stale: Option<string>, token: string)
    | Ended(end: SendEnd)

  datatype SpecState = SpecState(now: nat, cache: Cache, tasks: seq<SpecPc>)

  /** `Obtain` is a whole acquisition at one instant: the look, the answer, the effect on the cache. */
  datatype SpecStep =
    | Arrive
    | Pass(nanos: nat)
    | Obtain(task: nat, outcome: AuthOutcome)
    | Request(task: nat)
    | Lost(task: nat)
    | Answer(task: nat, status: nat, body: Body)
    | Drop(task: nat)

  predicate Allowed(s: SpecState, step: SpecStep) {
    if step.Arrive? || step.Pass? then true else
    && step.task < |s.tasks|
    && var pc := s.tasks[step.task];
      match step
      case Obtain(_, outcome) =>
        && pc.Needs?
        && (outcome.Refused? ==> outcome.status >= 400)
        && (outcome.Accepted? ==> outcome.status < 400)
      case Request(_) => pc.Has?
      case Lost(_) => pc.Calls?
      case Answer(_, _, _) => pc.Calls?
      case Drop(_) => pc.Needs? || pc.Calls?
  }

  function Obtained(stale: Option<string>, result: Result<string>): SpecPc {
    match result
    case Ok(token) => Has(stale, token)
    case Err(error) => Ended(Returned(Err(error)))
    case Panicked => Ended(Returned(Panicked))
  }

  function Do(s: SpecState, step: SpecStep): SpecState
    requires Allowed(s, step)
  {
    match step
    case Arrive => s.(tasks := s.tasks + [Needs(None)])
    case Pass(nanos) => s.(now := s.now + nanos)
    case Obtain(t, outcome) =>
      var stale := s.tasks[t].stale;
      var (cache, result) := Acquire(s.cache, stale, outcome, s.now);
      s.(cache := cache, tasks := s.tasks[t := Obtained(stale, result)])
    case Request(t) => s.(tasks := s.tasks[t := Calls(s.tasks[t].stale, s.tasks[t].token)])
    case Lost(t) => s.(tasks := s.tasks[t := Ended(Returned(Err(Http)))])
    case Answer(t, status, body) =>
      s.(tasks := s.tasks[t :=
        if s.tasks[t].stale.None? && status == 401 && IsTokenExpired(body) then Needs(Some(s.tasks[t].token))
        else Ended(Returned(DecodeReply(status, body)))])
    case Drop(t) => s.(tasks := s.tasks[t := Ended(Dropped)])
  }

  ghost predicate SpecValid(run: seq<SpecStep>)
    decreases |run|, 0
  {
    run == [] || (SpecValid(run[..|run| - 1]) && Allowed(SpecFinal(run[..|run| - 1]), run[|run| - 1]))
  }

  ghost function SpecFinal(run: seq<SpecStep>): SpecState
    requires SpecValid(run)
    decreases |run|, 1
  {
    if run == [] then SpecState(0, None, []) else Do(SpecFinal(run[..|run| - 1]), run[|run| - 1])
  }
}

module TokenRefinement {
  import opened Options
  import opened TokenCache
  import opened TokenProtocol
  import opened TokenInvariant
  import opened TokenSpec

  /** Forget the lock: every point of an acquisition is one state, waiting for the token. */
  function AbsPc(pc: Pc): SpecPc {
    match pc
    case Start => Needs(None)
    case Reading => Needs(None)
    case WantWrite(stale) => Needs(stale)
    case Checking(stale) => Needs(stale)
    case Authing(stale, _) => Needs(stale)
    case Refusing(stale, _, _) => Needs(stale)
    case Granting(stale, _, _, _) => Needs(stale)
    case Ready(stale, token) => Has(stale, token)
    case Calling(stale, token) => Calls(stale, token)
    case Done(end) => Ended(end)
  }

  function Abs(s: State): SpecState {
    SpecState(s.now, s.cache, seq(|s.tasks|, t requires 0 <= t < |s.tasks| => AbsPc(s.tasks[t])))
  }

  /** The auth answer that a settling step acts on. */
  function OutcomeOf(s: State, step: Step): AuthOutcome
    requires Enabled(s, step) && Settles(step)
  {
    match step
    case AuthRefusedBody(t, error) => Refused(s.tasks[t].status, error)
    case AuthBody(t) => Accepted(s.tasks[t].status, s.tasks[t].response)
    case _ => Unreachable
  }

  /**
   Where an acquisition takes effect: at the read-lock check when that hits, at the double
   check when that hits, else where the auth answer settles. Every other lock step is silent.
   */
  function Effect(s: State, step: Step): seq<SpecStep>
    requires Enabled(s, step)
  {
    if Settles(step) then
      [Obtain(step.task, OutcomeOf(s, step))]
    else match step
    case Spawn => [Arrive]
    case Tick(nanos) => [Pass(nanos)]
    case FastCheck(t) => if Served(s.cache, None, s.now).Some? then [Obtain(t, Unreachable)] else []
    case DoubleCheck(t) =>
      if Served(s.cache, s.tasks[t].stale, s.now).Some? then [Obtain(t, Unreachable)] else []
    case CallApi(t) => [Request(t)]
    case ApiUnreachable(t) => [Lost(t)]
    case ApiReply(t, status, body) => [Answer(t, status, body)]
    case Cancel(t) => [Drop(t)]
    case _ => []
  }

  ghost predicate Refines(s: State, step: Step)
    requires Enabled(s, step)
  {
    var effect := Effect(s, step);
    if effect == [] then Abs(Apply(s, step)) == Abs(s)
    else Allowed(Abs(s), effect[0]) && Do(Abs(s), effect[0]) == Abs(Apply(s, step))
  }

  lemma AbsGoto(s: State, t: nat, pc: Pc)
    requires t < |s.tasks|
    ensures Abs(Goto(s, t, pc)).tasks == Abs(s).tasks[t := AbsPc(pc)]
  {
  }

  /**
   While a task awaits its answer, however long, the double check it made still stands: the
   cache serves it nothing now either. So the look and the effect are one instant's.
   */
  lemma CheckStillStands(s: State, t: nat)
    requires HistoryInv(s) && t < |s.tasks| && AwaitsAuth(s.tasks[t])
    ensures Served(s.cache, s.tasks[t].stale, s.now) == None
  {
    MissPersists(s.cache, s.tasks[t].stale, s.tasks[t].checkedAt, s.now);
  }

  /** The status a task recorded is on the side of 400 its program counter says. */
  ghost predicate StatusInv(s: State) {
    forall t | 0 <= t < |s.tasks| ::
      && (s.tasks[t].Refusing? ==> s.tasks[t].status >= 400)
      && (s.tasks[t].Granting? ==> s.tasks[t].status < 400)
  }

  lemma SettlingRefines(s: State, step: Step)
    requires Inv(s) && StatusInv(s) && Enabled(s, step) && Settles(step)
    ensures Refines(s, step)
  {
    var t := step.task;
    CheckStillStands(s, t);
    var stale := s.tasks[t].stale;
    var outcome := OutcomeOf(s, step);
    var (cache, result) := Settle(s.cache, outcome, s.now);
    AbsGoto(s, t, AfterToken(stale, result));
    assert AbsPc(AfterToken(stale, result)) == Obtained(stale, result);
  }

  lemma LockStepRefines(s: State, step: Step)
    requires Enabled(s, step)
    requires step.AcquireRead? || step.AcquireWrite? || step.FastCheck? || step.DoubleCheck?
    ensures Refines(s, step)
  {
    AbsGoto(s, step.task, Apply(s, step).tasks[step.task]);
    assert Abs(s).tasks[step.task := Abs(s).tasks[step.task]] == Abs(s).tasks;
  }

  lemma AnswerStepRefines(s: State, step: Step)
    requires Enabled(s, step) && (step.AuthRefused? || step.AuthAccepted?)
    ensures Refines(s, step)
  {
    AbsGoto(s, step.task, Apply(s, step).tasks[step.task]);
    assert Abs(s).tasks[step.task := Abs(s).tasks[step.task]] == Abs(s).tasks;
  }

  lemma RequestStepRefines(s: State, step: Step)
    requires Enabled(s, step)
    requires step.CallApi? || step.ApiUnreachable? || step.ApiReply? || step.Cancel?
    ensures Refines(s, step)
  {
    AbsGoto(s, step.task, Apply(s, step).tasks[step.task]);
  }

  lemma StepRefines(s: State, step: Step)
    requires Inv(s) && StatusInv(s) && Enabled(s, step)
    ensures Refines(s, step)
  {
    match step
    case Spawn =>
    case Tick(_) =>
    case AcquireRead(_) => LockStepRefines(s, step);
    case AcquireWrite(_) => LockStepRefines(s, step);
    case FastCheck(_) => LockStepRefines(s, step);
    case DoubleCheck(_) => LockStepRefines(s, step);
    case AuthRefused(_, _) => AnswerStepRefines(s, step);
    case AuthAccepted(_, _, _) => AnswerStepRefines(s, step);
    case CallApi(_) => RequestStepRefines(s, step);
    case ApiUnreachable(_) => RequestStepRefines(s, step);
    case ApiReply(_, _, _) => RequestStepRefines(s, step);
    case Cancel(_) => RequestStepRefines(s, step);
    case _ => SettlingRefines(s, step);
  }

  lemma StatusKept(s: State, step: Step)
    requires StatusInv(s) && Enabled(s, step)
    ensures StatusInv(Apply(s, step))
  {
  }

  lemma {:induction false} StatusReachable(run: seq<Step>)
    requires Valid(run)
    ensures StatusInv(Final(run))
    decreases |run|
  {
    if run != [] {
      StatusReachable(run[..|run| - 1]);
      StatusKept(Final(run[..|run| - 1]), run[|run| - 1]);
    }
  }

  /** The atomic operations of a run, in the order they took effect. */
  ghost function Linearized(run: seq<Step>): seq<SpecStep>
    requires Valid(run)
    decreases |run|
  {
    if run == [] then []
    else Linearized(run[..|run| - 1]) + Effect(Final(run[..|run| - 1]), run[|run| - 1])
  }

  /** Every run, for any number of tasks and any gateway, is a run of the sequential specification. */
  lemma {:induction false} RunRefines(run: seq<Step>)
    requires Valid(run)
    ensures SpecValid(Linearized(run))
    ensures SpecFinal(Linearized(run)) == Abs(Final(run))
    decreases |run|
  {
    if run == [] {
      assert Abs(INITIAL).tasks == [];
    } else {
      var before, step := run[..|run| - 1], run[|run| - 1];
      RunRefines(before);
      Reachable(before);
      StatusReachable(before);
      StepRefines(Final(before), step);
      var effect := Effect(Final(before), step);
      if effect == [] {
        assert Linearized(run) == Linearized(before);
      } else {
        assert Linearized(run)[..|Linearized(run)| - 1] == Linearized(before);
      }
    }
  }
}
