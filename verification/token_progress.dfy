/** Deadlock freedom, termination and request bounds of the token protocol. */
module TokenProgress {
  import opened Options
  import opened TokenProtocol
  import opened TokenInvariant

  /** A step of a task's own code or of the answer it awaits: neither an arrival, nor the clock, nor a drop. */
  predicate ClientStep(step: Step) {
    !step.Spawn? && !step.Tick? && !step.Cancel?
  }

  /** No task waits for the lock while it holds it, in either mode. */
  lemma WaitersHoldNothing(run: seq<Step>, t: nat)
    requires Valid(run) && t < |Final(run).tasks|
    requires Final(run).tasks[t].Start? || Final(run).tasks[t].WantWrite?
    ensures t !in Final(run).readers && Final(run).writer != Some(t)
  {
    Reachable(run);
  }

  /** A step the holder or waiter `t` can take by itself, or on the answer it awaits. */
  function NextStep(s: State, t: nat): Step
    requires t < |s.tasks| && !s.tasks[t].Done?
  {
    match s.tasks[t]
    case Start => AcquireRead(t)
    case Reading => FastCheck(t)
    case WantWrite(_) => AcquireWrite(t)
    case Checking(_) => DoubleCheck(t)
    case Authing(_, _) => AuthUnreachable(t)
    case Refusing(_, _, _) => AuthRefusedBody(t, None)
    case Granting(_, _, _, _) => AuthBody(t)
    case Ready(_, _) => CallApi(t)
    case Calling(_, _) => ApiUnreachable(t)
  }

  /** While any task is unfinished some task can move: deadlock is impossible. */
  lemma SomeTaskCanMove(run: seq<Step>, t: nat) returns (u: nat)
    requires Valid(run) && t < |Final(run).tasks| && !Final(run).tasks[t].Done?
    ensures u < |Final(run).tasks| && !Final(run).tasks[u].Done?
    ensures ClientStep(NextStep(Final(run), u)) && Enabled(Final(run), NextStep(Final(run), u))
  {
    Reachable(run);
    var s := Final(run);
    u := t;
    if s.writer.Some? {
      u := s.writer.value;
    } else if s.readers != {} {
      u :| u in s.readers;
      assert s.tasks[u].Reading?;
    }
  }

  // ---- termination ----

  /** An upper bound on the steps a task has left. */
  function Rank(pc: Pc): nat {
    match pc
    case Start => 14
    case Reading => 13
    case WantWrite(stale) => if stale.None? then 12 else 6
    case Checking(stale) => if stale.None? then 11 else 5
    case Authing(stale, _) => if stale.None? then 10 else 4
    case Refusing(stale, _, _) => if stale.None? then 9 else 3
    case Granting(stale, _, _, _) => if stale.None? then 9 else 3
    case Ready(stale, _) => if stale.None? then 8 else 2
    case Calling(stale, _) => if stale.None? then 7 else 1
    case Done(_) => 0
  }

  function StepsLeft(tasks: seq<Pc>): nat {
    if tasks == [] then 0 else Rank(tasks[0]) + StepsLeft(tasks[1..])
  }

  lemma {:induction false} StepsLeftUpdate(tasks: seq<Pc>, t: nat, pc: Pc)
    requires t < |tasks|
    ensures StepsLeft(tasks[t := pc]) == StepsLeft(tasks) - Rank(tasks[t]) + Rank(pc)
  {
    if t == 0 {
      assert tasks[t := pc][1..] == tasks[1..];
    } else {
      StepsLeftUpdate(tasks[1..], t - 1, pc);
      assert tasks[t := pc][1..] == tasks[1..][t - 1 := pc];
    }
  }

  lemma {:induction false} StepsLeftAppend(tasks: seq<Pc>, pc: Pc)
    ensures StepsLeft(tasks + [pc]) == StepsLeft(tasks) + Rank(pc)
  {
    if tasks != [] {
      StepsLeftAppend(tasks[1..], pc);
      assert (tasks + [pc])[1..] == tasks[1..] + [pc];
    } else {
      assert (tasks + [pc])[1..] == [];
    }
  }

  lemma RankDecreases(s: State, step: Step)
    requires Enabled(s, step) && !step.Spawn? && !step.Tick?
    ensures |Apply(s, step).tasks| == |s.tasks|
    ensures Apply(s, step).tasks == s.tasks[step.task := Apply(s, step).tasks[step.task]]
    ensures Rank(Apply(s, step).tasks[step.task]) < Rank(s.tasks[step.task])
  {
  }

  predicate AllDone(tasks: seq<Pc>) {
    forall t :: 0 <= t < |tasks| ==> tasks[t].Done?
  }

  lemma OneMoveCloser(run: seq<Step>) returns (step: Step)
    requires Valid(run) && !AllDone(Final(run).tasks)
    ensures ClientStep(step) && Valid(run + [step])
    ensures |Final(run + [step]).tasks| == |Final(run).tasks|
    ensures StepsLeft(Final(run + [step]).tasks) < StepsLeft(Final(run).tasks)
  {
    var s := Final(run);
    var t: nat :| t < |s.tasks| && !s.tasks[t].Done?;
    var u := SomeTaskCanMove(run, t);
    step := NextStep(s, u);
    Extend(run, step);
    RankDecreases(s, step);
    StepsLeftUpdate(s.tasks, u, Apply(s, step).tasks[u]);
  }

  /** From any reachable state, every task can be brought to its end without arrivals, clock ticks or drops. */
  lemma {:induction false} EveryoneCanFinish(run: seq<Step>) returns (full: seq<Step>)
    requires Valid(run)
    ensures run <= full && forall i :: |run| <= i < |full| ==> ClientStep(full[i])
    ensures Valid(full) && |Final(full).tasks| == |Final(run).tasks| && AllDone(Final(full).tasks)
    decreases StepsLeft(Final(run).tasks)
  {
    full := run;
    if !AllDone(Final(run).tasks) {
      var step := OneMoveCloser(run);
      full := EveryoneCanFinish(run + [step]);
      assert full[|run|] == (run + [step])[|run|];
    }
  }

  /** The steps of its own a task takes to its next await. */
  function ToAwait(pc: Pc): nat {
    if pc.Reading? || pc.Checking? then 2 else if pc.Ready? then 1 else 0
  }

  /** Two steps of its own at most bring any unfinished task to an await, where it can be dropped. */
  lemma {:induction false} AwaitIsNear(run: seq<Step>, t: nat) returns (run': seq<Step>)
    requires Valid(run) && t < |Final(run).tasks| && !Final(run).tasks[t].Done?
    ensures run <= run' && |run'| <= |run| + ToAwait(Final(run).tasks[t])
    ensures forall i :: |run| <= i < |run'| ==> run'[i] in {FastCheck(t), DoubleCheck(t), CallApi(t)}
    ensures Valid(run') && t < |Final(run').tasks| && Enabled(Final(run'), Cancel(t))
    decreases ToAwait(Final(run).tasks[t])
  {
    run' := run;
    if ToAwait(Final(run).tasks[t]) > 0 {
      var step := NextStep(Final(run), t);
      Extend(run, step);
      run' := AwaitIsNear(run + [step], t);
      assert run'[|run|] == (run + [step])[|run|];
    }
  }

  /** Readers share the lock: any number of new tasks can be in the fast check at once. */
  lemma {:induction false} ReadersShare(n: nat) returns (run: seq<Step>)
    ensures Valid(run) && |Final(run).tasks| == n && Final(run).writer.None?
    ensures forall t :: 0 <= t < n ==> Final(run).tasks[t].Reading? && t in Final(run).readers
    decreases n
  {
    if n == 0 {
      run := [];
    } else {
      run := ReadersShare(n - 1);
      Extend(run, Spawn);
      run := run + [Spawn];
      Extend(run, AcquireRead(n - 1));
      run := run + [AcquireRead(n - 1)];
    }
  }

  /** A future dropped at an await frees what it held and disturbs nothing else. */
  lemma DropReleases(run: seq<Step>, t: nat)
    requires Valid(run) && Enabled(Final(run), Cancel(t))
    ensures var s, s' := Final(run), Apply(Final(run), Cancel(t));
            && s'.writer != Some(t) && t !in s'.readers
            && s'.cache == s.cache && s'.grants == s.grants && s'.readers == s.readers
            && (s.writer != Some(t) ==> s'.writer == s.writer)
            && s'.tasks == s.tasks[t := Done(Dropped)]
  {
    Reachable(run);
  }

  ghost function CountSteps(run: seq<Step>, counts: Step -> bool): nat {
    if run == [] then 0
    else CountSteps(run[..|run| - 1], counts) + if counts(run[|run| - 1]) then 1 else 0
  }

  /**
   A run with `n` tasks makes at most `14 * n` steps besides arrivals and clock ticks,
   whatever the schedule; `StepsLeft` is what remains of that at any point.
   */
  lemma {:induction false} RunsTerminate(run: seq<Step>)
    requires Valid(run)
    ensures CountSteps(run, (step: Step) => !step.Spawn? && !step.Tick?) + StepsLeft(Final(run).tasks)
            <= 14 * |Final(run).tasks|
    decreases |run|
  {
    if run != [] {
      var before, step := run[..|run| - 1], run[|run| - 1];
      RunsTerminate(before);
      var s := Final(before);
      if step.Spawn? {
        StepsLeftAppend(s.tasks, Start);
      } else if !step.Tick? {
        RankDecreases(s, step);
        StepsLeftUpdate(s.tasks, step.task, Apply(s, step).tasks[step.task]);
      }
    }
  }

  // ---- requests per send ----

  /** API requests a task may still send. */
  function ApiBudget(pc: Pc): nat {
    if Rank(pc) >= 8 then 2 else if Rank(pc) >= 2 then 1 else 0
  }

  /** Auth requests a task may still send. */
  function AuthBudget(pc: Pc): nat {
    if Rank(pc) >= 11 then 2 else if Rank(pc) >= 5 then 1 else 0
  }

  function CountAuth(log: seq<Event>, t: nat): nat {
    if log == [] then 0
    else CountAuth(log[..|log| - 1], t) + if log[|log| - 1].AuthSent? && log[|log| - 1].task == t then 1 else 0
  }

  /** A step logs at most one event, and an auth request only when its own double check misses. */
  lemma LogGrows(s: State, step: Step)
    requires Enabled(s, step)
    ensures |s.tasks| <= |Apply(s, step).tasks|
    ensures var log' := Apply(s, step).log;
            log' == s.log || (|log'| == |s.log| + 1 && log'[..|s.log|] == s.log)
    ensures var log' := Apply(s, step).log;
            log' != s.log && log'[|s.log|].AuthSent? ==> step == DoubleCheck(log'[|s.log|].task)
  {
  }

  lemma AuthBudgetSteps(s: State, step: Step, t: nat)
    requires Enabled(s, step) && t < |s.tasks|
    ensures t < |Apply(s, step).tasks|
    ensures AuthBudget(Apply(s, step).tasks[t]) + (if step == DoubleCheck(t) then 1 else 0) <= AuthBudget(s.tasks[t])
  {
  }

  lemma AuthBudgetKept(s: State, step: Step, t: nat)
    requires Enabled(s, step) && t < |Apply(s, step).tasks|
    requires t < |s.tasks| ==> CountAuth(s.log, t) + AuthBudget(s.tasks[t]) <= 2
    requires t >= |s.tasks| ==> CountAuth(s.log, t) == 0
    ensures CountAuth(Apply(s, step).log, t) + AuthBudget(Apply(s, step).tasks[t]) <= 2
  {
    LogGrows(s, step);
    if t < |s.tasks| {
      AuthBudgetSteps(s, step, t);
    } else {
      assert step.Spawn?;
    }
  }

  lemma {:induction false} NoAuthBefore(log: seq<Event>, t: nat)
    requires forall i :: 0 <= i < |log| && log[i].AuthSent? ==> log[i].task < t
    ensures CountAuth(log, t) == 0
  {
    if log != [] {
      NoAuthBefore(log[..|log| - 1], t);
    }
  }

  ghost predicate AuthTasksIn(s: State) {
    forall i :: 0 <= i < |s.log| && s.log[i].AuthSent? ==> s.log[i].task < |s.tasks|
  }

  lemma {:induction false} AuthTasksExist(run: seq<Step>)
    requires Valid(run)
    ensures AuthTasksIn(Final(run))
    decreases |run|
  {
    if run != [] {
      var s := Final(run[..|run| - 1]);
      AuthTasksExist(run[..|run| - 1]);
      LogGrows(s, run[|run| - 1]);
      forall i | 0 <= i < |Final(run).log| && Final(run).log[i].AuthSent?
        ensures Final(run).log[i].task < |Final(run).tasks|
      {
        assert i < |s.log| ==> Final(run).log[..|s.log|][i] == s.log[i];
      }
    }
  }

  lemma {:induction false} AuthRequestsBounded(run: seq<Step>, t: nat)
    requires Valid(run) && t < |Final(run).tasks|
    ensures CountAuth(Final(run).log, t) + AuthBudget(Final(run).tasks[t]) <= 2
    decreases |run|
  {
    if run != [] {
      var before := run[..|run| - 1];
      if t < |Final(before).tasks| {
        AuthRequestsBounded(before, t);
      } else {
        AuthTasksExist(before);
        NoAuthBefore(Final(before).log, t);
      }
      AuthBudgetKept(Final(before), run[|run| - 1], t);
    }
  }

  lemma ApiBudgetKept(s: State, step: Step, t: nat)
    requires Enabled(s, step) && t < |s.tasks|
    ensures t < |Apply(s, step).tasks|
    ensures ApiBudget(Apply(s, step).tasks[t]) + (if step == CallApi(t) then 1 else 0) <= ApiBudget(s.tasks[t])
  {
  }

  lemma {:induction false} NoCallsBefore(run: seq<Step>, t: nat)
    requires Valid(run) && t >= |Final(run).tasks|
    ensures CountSteps(run, (step: Step) => step == CallApi(t)) == 0
    decreases |run|
  {
    if run != [] {
      NoCallsBefore(run[..|run| - 1], t);
    }
  }

  lemma {:induction false} ApiRequestsBounded(run: seq<Step>, t: nat)
    requires Valid(run) && t < |Final(run).tasks|
    ensures CountSteps(run, (step: Step) => step == CallApi(t)) + ApiBudget(Final(run).tasks[t]) <= 2
    decreases |run|
  {
    if run != [] {
      var before := run[..|run| - 1];
      if t < |Final(before).tasks| {
        ApiRequestsBounded(before, t);
        ApiBudgetKept(Final(before), run[|run| - 1], t);
      } else {
        NoCallsBefore(before, t);
      }
    }
  }
}
