/**
 The two models meet: a `send` of the client object, taken alone against the scripted
 gateway, is a run of the concurrent token protocol in which nothing else steps.
 */
module SequentialRuns {
  import opened Options
  import opened Errors
  import opened TokenCache
  import opened TokenProtocol
  import SendSpec

  /** The lock is free and the rest of the state is as listed. */
  predicate Rests(s: State, cache: Cache, now: nat, tasks: seq<Pc>) {
    s.cache == cache && s.now == now && s.tasks == tasks && s.readers == {} && s.writer.None?
  }

  predicate IsAnswer(outcome: AuthOutcome) {
    (outcome.Refused? ==> outcome.status >= 400) && (outcome.Accepted? ==> outcome.status < 400)
  }

  predicate IsScript(w: SendSpec.World) {
    forall i :: 0 <= i < |w.authScript| ==> IsAnswer(w.authScript[i].outcome)
  }

  /** `s'` is `s` after `outcome` settled the cache and task `t`, at `now`. */
  predicate SettledBy(s: State, s': State, t: nat, stale: Option<string>, outcome: AuthOutcome, now: nat)
    requires t < |s.tasks|
  {
    var (cache, result) := Settle(s.cache, outcome, now);
    Rests(s', cache, now, s.tasks[t := AfterToken(stale, result)])
  }

  lemma SettledAlike(s: State, later: State, s': State, t: nat, stale: Option<string>, outcome: AuthOutcome, now: nat)
    requires t < |s.tasks| && later.cache == s.cache && later.tasks == s.tasks
    requires SettledBy(later, s', t, stale, outcome, now)
    ensures SettledBy(s, s', t, stale, outcome, now)
  {
  }

  lemma Answered(run: seq<Step>, t: nat, stale: Option<string>, checkedAt: nat, outcome: AuthOutcome)
    returns (run': seq<Step>)
    requires Valid(run) && t < |Final(run).tasks| && Final(run).tasks[t] == Authing(stale, checkedAt)
    requires IsAnswer(outcome) && Final(run).readers == {}
    ensures Valid(run') && SettledBy(Final(run), Final(run'), t, stale, outcome, Final(run).now)
  {
    match outcome
    case Unreachable =>
      Extend(run, AuthUnreachable(t));
      run' := run + [AuthUnreachable(t)];
    case Refused(status, error) =>
      Extend(run, AuthRefused(t, status));
      run' := run + [AuthRefused(t, status)];
      assert Final(run').tasks == Final(run).tasks[t := Refusing(stale, checkedAt, status)];
      Extend(run', AuthRefusedBody(t, error));
      run' := run' + [AuthRefusedBody(t, error)];
    case Accepted(status, response) =>
      Extend(run, AuthAccepted(t, status, response));
      run' := run + [AuthAccepted(t, status, response)];
      assert Final(run').tasks == Final(run).tasks[t := Granting(stale, checkedAt, status, response)];
      Extend(run', AuthBody(t));
      run' := run' + [AuthBody(t)];
  }

  /** One acquisition: from the write-lock queue to a token or an error, `answer` being what the gateway would say. */
  lemma Obtained(run: seq<Step>, t: nat, stale: Option<string>, answer: SendSpec.AuthAnswer) returns (run': seq<Step>)
    requires Valid(run) && t < |Final(run).tasks| && IsAnswer(answer.outcome)
    requires Final(run).tasks[t] == WantWrite(stale)
    requires Rests(Final(run), Final(run).cache, Final(run).now, Final(run).tasks)
    ensures Valid(run') && Acquired(Final(run), Final(run'), Final(run).tasks, t, stale, answer)
  {
    var s := Final(run);
    if Served(s.cache, stale, s.now).Some? {
      run' := DoubleChecked(run, t, stale);
    } else {
      run' := ObtainedByFetching(run, t, stale, answer);
      SettledIsAcquired(s, Final(run'), t, stale, answer);
    }
  }

  lemma SettledIsAcquired(s: State, s': State, t: nat, stale: Option<string>, answer: SendSpec.AuthAnswer)
    requires t < |s.tasks| && Served(s.cache, stale, s.now).None?
    requires SettledBy(s, s', t, stale, answer.outcome, s.now + answer.nanos)
    ensures Acquired(s, s', s.tasks, t, stale, answer)
  {
    MissPersists(s.cache, stale, s.now, s.now + answer.nanos);
  }

  lemma ObtainedByFetching(run: seq<Step>, t: nat, stale: Option<string>, answer: SendSpec.AuthAnswer)
    returns (run': seq<Step>)
    requires Valid(run) && t < |Final(run).tasks| && IsAnswer(answer.outcome)
    requires Final(run).tasks[t] == WantWrite(stale)
    requires Final(run).readers == {} && Final(run).writer.None?
    requires Served(Final(run).cache, stale, Final(run).now).None?
    ensures Valid(run') && SettledBy(Final(run), Final(run'), t, stale, answer.outcome, Final(run).now + answer.nanos)
  {
    var checked := DoubleChecked(run, t, stale);
    var s := Final(run);
    run' := Fetched(checked, t, stale, s.now, answer);
    var result := Settle(s.cache, answer.outcome, s.now + answer.nanos).1;
    UpdateTwice(s.tasks, t, Authing(stale, s.now), AfterToken(stale, result));
  }

  /** `s'` is `s` after task `t` acquired a token: at once if the cache serves one, else after `answer`. */
  predicate Acquired(s: State, s': State, tasks: seq<Pc>, t: nat, stale: Option<string>, answer: SendSpec.AuthAnswer)
    requires t < |tasks|
  {
    var now := if Served(s.cache, stale, s.now).Some? then s.now else s.now + answer.nanos;
    var (cache, result) := Acquire(s.cache, stale, answer.outcome, now);
    Rests(s', cache, now, tasks[t := AfterToken(stale, result)])
  }

  lemma UpdateTwice(tasks: seq<Pc>, t: nat, between: Pc, pc: Pc)
    requires t < |tasks|
    ensures tasks[t := between][t := pc] == tasks[t := pc]
  {
  }

  lemma Fetched(run: seq<Step>, t: nat, stale: Option<string>, checkedAt: nat, answer: SendSpec.AuthAnswer)
    returns (run': seq<Step>)
    requires Valid(run) && t < |Final(run).tasks| && Final(run).tasks[t] == Authing(stale, checkedAt)
    requires IsAnswer(answer.outcome) && Final(run).readers == {}
    ensures Valid(run') && SettledBy(Final(run), Final(run'), t, stale, answer.outcome, Final(run).now + answer.nanos)
  {
    Extend(run, Tick(answer.nanos));
    var later := run + [Tick(answer.nanos)];
    assert Final(later) == Final(run).(now := Final(run).now + answer.nanos);
    run' := Answered(later, t, stale, checkedAt, answer.outcome);
    SettledAlike(Final(run), Final(later), Final(run'), t, stale, answer.outcome, Final(later).now);
  }

  lemma DoubleChecked(run: seq<Step>, t: nat, stale: Option<string>) returns (run': seq<Step>)
    requires Valid(run) && t < |Final(run).tasks| && Final(run).tasks[t] == WantWrite(stale)
    requires Final(run).readers == {} && Final(run).writer.None?
    ensures Valid(run')
    ensures var s, s' := Final(run), Final(run');
            && s'.cache == s.cache && s'.now == s.now && s'.readers == {}
            && if Served(s.cache, stale, s.now).Some?
               then s'.writer.None? && s'.tasks == s.tasks[t := Ready(stale, Served(s.cache, stale, s.now).value)]
               else s'.tasks == s.tasks[t := Authing(stale, s.now)]
  {
    var s := Final(run);
    Extend(run, AcquireWrite(t));
    run' := run + [AcquireWrite(t)];
    assert Final(run') == s.(tasks := s.tasks[t := Checking(stale)], writer := Some(t));
    Extend(run', DoubleCheck(t));
    run' := run' + [DoubleCheck(t)];
  }

  /** The acquisition of a new task, fast check included. */
  lemma Begun(run: seq<Step>, answer: SendSpec.AuthAnswer) returns (run': seq<Step>)
    requires Valid(run) && IsAnswer(answer.outcome)
    requires Rests(Final(run), Final(run).cache, Final(run).now, Final(run).tasks)
    ensures Valid(run')
    ensures Acquired(Final(run), Final(run'), Final(run).tasks + [Start], |Final(run).tasks|, None, answer)
  {
    run' := FastChecked(run);
    var s := Final(run);
    var served := Served(s.cache, None, s.now);
    if served.Some? {
      SetLast(s.tasks, Start, Ready(None, served.value));
    } else {
      var queued := run';
      run' := Obtained(queued, |s.tasks|, None, answer);
      AcquiredAlike(s, Final(queued), Final(run'), answer);
    }
  }

  /** An acquisition is the same from the fast check as from the write-lock queue. */
  lemma AcquiredAlike(s: State, queued: State, s': State, answer: SendSpec.AuthAnswer)
    requires queued.cache == s.cache && queued.now == s.now && queued.tasks == s.tasks + [WantWrite(None)]
    requires Acquired(queued, s', queued.tasks, |s.tasks|, None, answer)
    ensures Acquired(s, s', s.tasks + [Start], |s.tasks|, None, answer)
  {
    var now := if Served(s.cache, None, s.now).Some? then s.now else s.now + answer.nanos;
    var result := Acquire(s.cache, None, answer.outcome, now).1;
    SetLast(s.tasks, Start, AfterToken(None, result));
    SetLast(s.tasks, WantWrite(None), AfterToken(None, result));
  }

  lemma SetLast(tasks: seq<Pc>, last: Pc, pc: Pc)
    ensures (tasks + [last])[|tasks| := pc] == tasks + [pc]
  {
  }

  lemma FastChecked(run: seq<Step>) returns (run': seq<Step>)
    requires Valid(run) && Rests(Final(run), Final(run).cache, Final(run).now, Final(run).tasks)
    ensures Valid(run')
    ensures var s := Final(run);
            var served := Served(s.cache, None, s.now);
            Rests(Final(run'), s.cache, s.now,
                  s.tasks + [if served.Some? then Ready(None, served.value) else WantWrite(None)])
  {
    var s := Final(run);
    var t := |s.tasks|;
    Extend(run, Spawn);
    run' := run + [Spawn];
    Extend(run', AcquireRead(t));
    run' := run' + [AcquireRead(t)];
    SetLast(s.tasks, Start, Reading);
    assert Final(run') == s.(tasks := s.tasks + [Reading], readers := {t});
    Extend(run', FastCheck(t));
    run' := run' + [FastCheck(t)];
    SetLast(s.tasks, Reading, Final(run').tasks[t]);
  }

  /** Where an API answer leaves the task that asked. */
  function AfterReply(stale: Option<string>, token: string, reply: Option<(nat, Body)>): Pc {
    if stale.None? && SendSpec.Expired(reply) then WantWrite(Some(token))
    else Done(Returned(SendSpec.Decoded(reply)))
  }

  lemma Requested(run: seq<Step>, t: nat, stale: Option<string>, token: string, answer: SendSpec.ApiAnswer)
    returns (run': seq<Step>)
    requires Valid(run) && t < |Final(run).tasks| && Final(run).tasks[t] == Ready(stale, token)
    requires Rests(Final(run), Final(run).cache, Final(run).now, Final(run).tasks)
    ensures Valid(run')
    ensures var s := Final(run);
            Rests(Final(run'), s.cache, s.now + answer.nanos, s.tasks[t := AfterReply(stale, token, answer.reply)])
  {
    var s := Final(run);
    Extend(run, CallApi(t));
    run' := run + [CallApi(t)];
    assert Final(run') == s.(tasks := s.tasks[t := Calling(stale, token)]);
    Extend(run', Tick(answer.nanos));
    run' := Replied(run' + [Tick(answer.nanos)], t, stale, token, answer.reply);
    UpdateTwice(s.tasks, t, Calling(stale, token), AfterReply(stale, token, answer.reply));
  }

  lemma Replied(run: seq<Step>, t: nat, stale: Option<string>, token: string, reply: Option<(nat, Body)>)
    returns (run': seq<Step>)
    requires Valid(run) && t < |Final(run).tasks| && Final(run).tasks[t] == Calling(stale, token)
    ensures Valid(run')
    ensures Final(run') == Goto(Final(run), t, AfterReply(stale, token, reply))
  {
    var step := if reply.None? then ApiUnreachable(t) else ApiReply(t, reply.value.0, reply.value.1);
    Extend(run, step);
    run' := run + [step];
  }

  /** The first attempt, as a run: the new task has failed, finished, or goes on to refresh. */
  lemma FirstAttempt(run: seq<Step>, w: SendSpec.World, c: SendSpec.Credentials, request: SendSpec.Request)
    returns (run': seq<Step>)
    requires Valid(run) && IsScript(w)
    requires Rests(Final(run), Final(run).cache, w.now, Final(run).tasks)
    ensures Valid(run')
    ensures var s := Final(run);
            var first := SendSpec.TryOnce(s.cache, w, c, request, None);
            Rests(Final(run'), first.cache, first.world.now,
                  s.tasks + [if SendSpec.Retries(first) then WantWrite(Some(first.token.value))
                             else Done(Returned(SendSpec.Concluded(first)))])
  {
    var s := Final(run);
    run' := Begun(run, SendSpec.AuthNext(w));
    SendSpec.RefreshIsAcquire(s.cache, w, c, None);
    var (cache, w', token) := SendSpec.Refresh(s.cache, w, c, None);
    assert Rests(Final(run'), cache, w'.now, s.tasks + [AfterToken(None, token)]);
    if token.Ok? {
      var t := |s.tasks|;
      var answer := SendSpec.NthAnswer(w'.apiScript, 0);
      run' := Requested(run', t, None, token.value, answer);
      SetLast(s.tasks, AfterToken(None, token), AfterReply(None, token.value, answer.reply));
    }
  }

  lemma SecondAttempt(run: seq<Step>, t: nat, stale: string, w: SendSpec.World, c: SendSpec.Credentials,
                      request: SendSpec.Request)
    returns (run': seq<Step>)
    requires Valid(run) && IsScript(w) && t < |Final(run).tasks| && Final(run).tasks[t] == WantWrite(Some(stale))
    requires Rests(Final(run), Final(run).cache, w.now, Final(run).tasks)
    ensures Valid(run')
    ensures var s := Final(run);
            var second := SendSpec.TryOnce(s.cache, w, c, request, Some(stale));
            Rests(Final(run'), second.cache, second.world.now,
                  s.tasks[t := Done(Returned(SendSpec.Concluded(second)))])
  {
    var s := Final(run);
    run' := Obtained(run, t, Some(stale), SendSpec.AuthNext(w));
    SendSpec.RefreshIsAcquire(s.cache, w, c, Some(stale));
    var (cache, w', token) := SendSpec.Refresh(s.cache, w, c, Some(stale));
    assert Rests(Final(run'), cache, w'.now, s.tasks[t := AfterToken(Some(stale), token)]);
    if token.Ok? {
      var answer := SendSpec.NthAnswer(w'.apiScript, 0);
      run' := Requested(run', t, Some(stale), token.value, answer);
      UpdateTwice(s.tasks, t, AfterToken(Some(stale), token), AfterReply(Some(stale), token.value, answer.reply));
    }
  }

  /**
   From any reachable state with a free lock, and against any script, one more task runs
   to exactly the result, the cache and the clock of the sequential `Send`.
   */
  lemma SendIsARun(run: seq<Step>, w: SendSpec.World, c: SendSpec.Credentials, request: SendSpec.Request)
    returns (run': seq<Step>)
    requires Valid(run) && IsScript(w)
    requires Rests(Final(run), Final(run).cache, w.now, Final(run).tasks)
    ensures Valid(run')
    ensures var s := Final(run);
            var (cache, w', result) := SendSpec.Send(s.cache, w, c, request);
            Rests(Final(run'), cache, w'.now, s.tasks + [Done(Returned(result))])
  {
    var s := Final(run);
    var first := SendSpec.TryOnce(s.cache, w, c, request, None);
    run' := FirstAttempt(run, w, c, request);
    if SendSpec.Retries(first) {
      var t := |s.tasks|;
      assert IsScript(first.world);
      run' := SecondAttempt(run', t, first.token.value, first.world, c, request);
      var end := Done(Returned(SendSpec.Concluded(SendSpec.TryAgain(first, c, request))));
      assert (s.tasks + [WantWrite(Some(first.token.value))])[t := end] == s.tasks + [end];
    }
  }
}
