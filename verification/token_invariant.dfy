/** The inductive invariant of the token protocol: lock, history, tokens in hand, grants. */
module TokenInvariant {
  import opened Options
  import opened TokenCache
  import opened TokenProtocol
  import opened AuthLog

  /** Readers or one writer, and each task's guard is where its program counter says. */
  ghost predicate LockInv(s: State) {
    && (forall t | t in s.readers :: t < |s.tasks|)
    && (forall t | 0 <= t < |s.tasks| :: t in s.readers <==> s.tasks[t].Reading?)
    && (forall t | 0 <= t < |s.tasks| :: HoldsWrite(s.tasks[t]) <==> s.writer == Some(t))
    && (s.writer.Some? ==> s.writer.value < |s.tasks| && s.readers == {})
  }

  /** The cache is what the history says, and the open round trip is the lock holder's. */
  ghost predicate HistoryInv(s: State) {
    && History(s.log)
    && s.cache == CacheAfter(s.log)
    && (forall t | 0 <= t < |s.tasks| && AwaitsAuth(s.tasks[t]) ::
          && s.log != []
          && s.log[|s.log| - 1] == AuthSent(t, s.tasks[t].stale, s.tasks[t].checkedAt)
          && s.tasks[t].checkedAt <= s.now)
    && (InFlight(s.log) ==>
          s.log[|s.log| - 1].task < |s.tasks| && AwaitsAuth(s.tasks[s.log[|s.log| - 1].task]))
  }

  predicate CarriesStale(pc: Pc) {
    !pc.Start? && !pc.Reading? && !pc.Done? && pc.stale.Some?
  }

  /** Every token a task holds was stored; a retry's token was stored after the stale one. */
  ghost predicate TokenInv(log: seq<Event>, pc: Pc) {
    && (CarriesStale(pc) ==> WasStored(log, pc.stale.value))
    && (pc.Ready? || pc.Calling? ==>
          if pc.stale.None? then WasStored(log, pc.token) else StoredInOrder(log, pc.stale.value, pc.token))
  }

  ghost predicate TokensInv(s: State) {
    forall t | 0 <= t < |s.tasks| :: TokenInv(s.log, s.tasks[t])
  }

  /** A store puts one grant in the cache, at or after its issue, under the lifetime rule. */
  ghost predicate StoreMatches(grants: seq<Grant>, e: Event, now: nat)
    requires e.Stored?
  {
    && e.grant < |grants|
    && grants[e.grant].token == e.token
    && grants[e.grant].at <= e.at <= now
    && LifetimeRule(e.at, grants[e.grant].expiresIn, e.expiresAt)
  }

  ghost predicate UnstoredLast(s: State, response: TokenResponse) {
    && |s.grants| > 0
    && s.grants[|s.grants| - 1].token == response.token
    && s.grants[|s.grants| - 1].expiresIn == response.expiresIn
    && s.grants[|s.grants| - 1].at <= s.now
    && forall i | 0 <= i < |s.log| && s.log[i].Stored? :: s.log[i].grant < |s.grants| - 1
  }

  ghost predicate GrantsInv(s: State) {
    && (forall i | 0 <= i < |s.log| && s.log[i].Stored? :: StoreMatches(s.grants, s.log[i], s.now))
    && (forall i, j | 0 <= i < j < |s.log| && s.log[i].Stored? && s.log[j].Stored? ::
          s.log[i].grant < s.log[j].grant)
    && (forall t | 0 <= t < |s.tasks| && s.tasks[t].Granting? && s.tasks[t].response.Some? ::
          UnstoredLast(s, s.tasks[t].response.value))
  }

  ghost predicate Inv(s: State) {
    LockInv(s) && HistoryInv(s) && TokensInv(s) && GrantsInv(s)
  }

  // ---- preservation, one part at a time ----

  predicate Settles(step: Step) {
    step.AuthUnreachable? || step.AuthRefusedBody? || step.AuthBodyLost? || step.AuthBody?
  }

  lemma LockKeptByAcquiring(s: State, step: Step)
    requires LockInv(s) && Enabled(s, step)
    requires step.AcquireRead? || step.FastCheck? || step.AcquireWrite?
    ensures LockInv(Apply(s, step))
  {
  }

  lemma LockKeptByReleasing(s: State, step: Step)
    requires LockInv(s) && Enabled(s, step)
    requires Settles(step) || step.DoubleCheck? || step.Cancel?
    ensures LockInv(Apply(s, step))
  {
  }

  lemma LockKept(s: State, step: Step)
    requires LockInv(s) && Enabled(s, step)
    ensures LockInv(Apply(s, step))
  {
    if step.AcquireRead? || step.FastCheck? || step.AcquireWrite? {
      LockKeptByAcquiring(s, step);
    } else if Settles(step) || step.DoubleCheck? || step.Cancel? {
      LockKeptByReleasing(s, step);
    }
  }

  lemma HistoryKeptBySettling(s: State, t: nat, outcome: AuthOutcome)
    requires LockInv(s) && HistoryInv(s)
    requires t < |s.tasks| && AwaitsAuth(s.tasks[t])
    ensures HistoryInv(Settled(s, t, outcome))
  {
    var s' := Settled(s, t, outcome);
    assert s'.log[..|s.log|] == s.log;
    assert forall u | 0 <= u < |s'.tasks| :: !AwaitsAuth(s'.tasks[u]);
  }

  /** Steps that log nothing leave each task's part in a round trip as it was. */
  ghost predicate Quiet(s: State, s': State) {
    && s'.log == s.log && s'.cache == s.cache && s.now <= s'.now
    && |s.tasks| <= |s'.tasks|
    && (forall t | 0 <= t < |s.tasks| :: AwaitsAuth(s'.tasks[t]) <==> AwaitsAuth(s.tasks[t]))
    && (forall t | 0 <= t < |s'.tasks| && AwaitsAuth(s'.tasks[t]) ::
          && t < |s.tasks|
          && s'.tasks[t].stale == s.tasks[t].stale
          && s'.tasks[t].checkedAt == s.tasks[t].checkedAt)
  }

  lemma MostStepsAreQuiet(s: State, step: Step)
    requires Enabled(s, step) && !Settles(step) && !step.DoubleCheck?
    requires step.Cancel? ==> !AwaitsAuth(s.tasks[step.task])
    ensures Quiet(s, Apply(s, step))
  {
  }

  lemma HistoryKeptQuietly(s: State, s': State)
    requires HistoryInv(s) && Quiet(s, s')
    ensures HistoryInv(s')
  {
  }

  lemma HistoryKeptByHit(s: State, t: nat)
    requires LockInv(s) && HistoryInv(s) && Enabled(s, DoubleCheck(t))
    requires Served(s.cache, s.tasks[t].stale, s.now).Some?
    ensures HistoryInv(Apply(s, DoubleCheck(t)))
  {
    HistoryKeptQuietly(s, Apply(s, DoubleCheck(t)));
  }

  /** While one task checks under the write lock, no round trip is open. */
  lemma NoneInFlight(s: State, t: nat)
    requires LockInv(s) && HistoryInv(s) && t < |s.tasks| && s.tasks[t].Checking?
    ensures !InFlight(s.log)
    ensures forall u | 0 <= u < |s.tasks| :: !AwaitsAuth(s.tasks[u])
  {
    assert HoldsWrite(s.tasks[t]);
    forall u | 0 <= u < |s.tasks| ensures !AwaitsAuth(s.tasks[u]) {
      assert HoldsWrite(s.tasks[u]) ==> u == t;
    }
  }

  lemma MissIsHistory(log: seq<Event>, t: nat, stale: Option<string>, now: nat)
    requires History(log) && !InFlight(log) && Served(CacheAfter(log), stale, now) == None
    requires stale.Some? ==> WasStored(log, stale.value)
    ensures History(log + [AuthSent(t, stale, now)])
    ensures CacheAfter(log + [AuthSent(t, stale, now)]) == CacheAfter(log)
  {
    assert (log + [AuthSent(t, stale, now)])[..|log|] == log;
  }

  lemma HistoryKeptByMiss(s: State, t: nat)
    requires LockInv(s) && HistoryInv(s) && TokensInv(s) && Enabled(s, DoubleCheck(t))
    requires Served(s.cache, s.tasks[t].stale, s.now).None?
    ensures HistoryInv(Apply(s, DoubleCheck(t)))
  {
    var s' := Apply(s, DoubleCheck(t));
    assert TokenInv(s.log, s.tasks[t]);
    NoneInFlight(s, t);
    MissIsHistory(s.log, t, s.tasks[t].stale, s.now);
    assert s'.tasks == s.tasks[t := Authing(s.tasks[t].stale, s.now)];
  }

  lemma HistoryKeptByCancel(s: State, t: nat)
    requires LockInv(s) && HistoryInv(s) && t < |s.tasks| && AwaitsAuth(s.tasks[t])
    ensures HistoryInv(Apply(s, Cancel(t)))
  {
    var s' := Apply(s, Cancel(t));
    assert s'.log[..|s.log|] == s.log;
    assert forall u | 0 <= u < |s'.tasks| :: !AwaitsAuth(s'.tasks[u]);
  }

  lemma HistoryKept(s: State, step: Step)
    requires LockInv(s) && HistoryInv(s) && TokensInv(s) && Enabled(s, step)
    ensures HistoryInv(Apply(s, step))
  {
    if step.AuthUnreachable? || step.AuthBodyLost? {
      HistoryKeptBySettling(s, step.task, Unreachable);
    } else if step.AuthRefusedBody? {
      HistoryKeptBySettling(s, step.task, Refused(s.tasks[step.task].status, step.error));
    } else if step.AuthBody? {
      HistoryKeptBySettling(s, step.task, Accepted(s.tasks[step.task].status, s.tasks[step.task].response));
    } else if step.DoubleCheck? {
      if Served(s.cache, s.tasks[step.task].stale, s.now).Some? {
        HistoryKeptByHit(s, step.task);
      } else {
        HistoryKeptByMiss(s, step.task);
      }
    } else if step.Cancel? && AwaitsAuth(s.tasks[step.task]) {
      HistoryKeptByCancel(s, step.task);
    } else {
      MostStepsAreQuiet(s, step);
      HistoryKeptQuietly(s, Apply(s, step));
    }
  }

  lemma StoredKept(log: seq<Event>, e: Event)
    ensures forall x :: WasStored(log, x) ==> WasStored(log + [e], x)
    ensures forall x, y :: StoredInOrder(log, x, y) ==> StoredInOrder(log + [e], x, y)
    ensures e.Stored? ==> forall x :: WasStored(log, x) ==> StoredInOrder(log + [e], x, e.token)
    ensures e.Stored? ==> WasStored(log + [e], e.token)
  {
    forall i, x | StoredAt(log, i, x) ensures StoredAt(log + [e], i, x) {}
    assert e.Stored? ==> StoredAt(log + [e], |log|, e.token);
  }

  /** A served token was stored last; if it replaced another, it was stored after it. */
  lemma ServedWasStored(log: seq<Event>, stale: Option<string>, now: nat)
    requires Served(CacheAfter(log), stale, now).Some?
    requires stale.Some? ==> WasStored(log, stale.value)
    ensures var token := Served(CacheAfter(log), stale, now).value;
            if stale.None? then WasStored(log, token) else StoredInOrder(log, stale.value, token)
  {
    var j := CacheIsLastStored(log);
    if stale.Some? {
      var i :| StoredAt(log, i, stale.value);
      assert i < j;
    }
  }

  lemma TokensKeptByChecks(s: State, step: Step)
    requires LockInv(s) && HistoryInv(s) && TokensInv(s) && Enabled(s, step)
    requires step.FastCheck? || step.DoubleCheck?
    ensures TokensInv(Apply(s, step))
  {
    var stale := if step.FastCheck? then None else s.tasks[step.task].stale;
    assert TokenInv(s.log, s.tasks[step.task]);
    if Served(s.cache, stale, s.now).Some? {
      ServedWasStored(s.log, stale, s.now);
    } else if step.DoubleCheck? {
      StoredKept(s.log, AuthSent(step.task, stale, s.now));
    }
  }

  lemma TokensKeptBySettling(s: State, t: nat, outcome: AuthOutcome)
    requires TokensInv(s) && t < |s.tasks| && AwaitsAuth(s.tasks[t])
    ensures TokensInv(Settled(s, t, outcome))
  {
    var s' := Settled(s, t, outcome);
    assert TokenInv(s.log, s.tasks[t]);
    StoredKept(s.log, s'.log[|s.log|]);
    assert s'.log == s.log + [s'.log[|s.log|]];
  }

  lemma TokensKept(s: State, step: Step)
    requires LockInv(s) && HistoryInv(s) && TokensInv(s) && Enabled(s, step)
    ensures TokensInv(Apply(s, step))
  {
    if step.AuthUnreachable? || step.AuthBodyLost? {
      TokensKeptBySettling(s, step.task, Unreachable);
    } else if step.AuthRefusedBody? {
      TokensKeptBySettling(s, step.task, Refused(s.tasks[step.task].status, step.error));
    } else if step.AuthBody? {
      TokensKeptBySettling(s, step.task, Accepted(s.tasks[step.task].status, s.tasks[step.task].response));
    } else if step.FastCheck? || step.DoubleCheck? {
      TokensKeptByChecks(s, step);
    } else if step.Cancel? {
      StoredKept(s.log, Abandoned(step.task));
    }
  }

  lemma GrantsKeptByAcceptance(s: State, step: Step)
    requires LockInv(s) && GrantsInv(s) && Enabled(s, step) && step.AuthAccepted?
    ensures GrantsInv(Apply(s, step))
  {
    var s' := Apply(s, step);
    assert forall i | 0 <= i < |s.grants| :: s'.grants[i] == s.grants[i];
    assert forall t | 0 <= t < |s.tasks| && t != step.task :: !HoldsWrite(s.tasks[t]);
  }

  lemma GrantsKeptBySettling(s: State, t: nat, outcome: AuthOutcome)
    requires LockInv(s) && GrantsInv(s)
    requires t < |s.tasks| && AwaitsAuth(s.tasks[t])
    requires outcome.Accepted? ==> s.tasks[t].Granting? && outcome.response == s.tasks[t].response
    ensures GrantsInv(Settled(s, t, outcome))
  {
    var s' := Settled(s, t, outcome);
    if outcome.Accepted? && outcome.response.Some?
       && ExpiryInstant(s.now, outcome.response.value.expiresIn).Some? {
      ExpiryFollowsRule(s.now, outcome.response.value.expiresIn);
    }
    assert forall u | 0 <= u < |s'.tasks| :: !s'.tasks[u].Granting?;
    assert forall i | 0 <= i < |s.log| :: s'.log[i] == s.log[i];
  }

  lemma GrantsKeptOtherwise(s: State, s': State)
    requires GrantsInv(s) && s'.grants == s.grants && s.now <= s'.now
    requires s'.log == s.log || exists e: Event :: !e.Stored? && s'.log == s.log + [e]
    requires forall t | 0 <= t < |s'.tasks| && s'.tasks[t].Granting? :: t < |s.tasks| && s'.tasks[t] == s.tasks[t]
    ensures GrantsInv(s')
  {
  }

  lemma GrantsKept(s: State, step: Step)
    requires LockInv(s) && GrantsInv(s) && Enabled(s, step)
    ensures GrantsInv(Apply(s, step))
  {
    if step.AuthUnreachable? || step.AuthBodyLost? {
      GrantsKeptBySettling(s, step.task, Unreachable);
    } else if step.AuthRefusedBody? {
      GrantsKeptBySettling(s, step.task, Refused(s.tasks[step.task].status, step.error));
    } else if step.AuthBody? {
      GrantsKeptBySettling(s, step.task, Accepted(s.tasks[step.task].status, s.tasks[step.task].response));
    } else if step.AuthAccepted? {
      GrantsKeptByAcceptance(s, step);
    } else {
      GrantsKeptOtherwise(s, Apply(s, step));
    }
  }

  lemma InvKept(s: State, step: Step)
    requires Inv(s) && Enabled(s, step)
    ensures Inv(Apply(s, step))
  {
    LockKept(s, step);
    HistoryKept(s, step);
    TokensKept(s, step);
    GrantsKept(s, step);
  }

  /** Every reachable state, whatever the interleaving, the gateway and the cancellations. */
  lemma {:induction false} Reachable(run: seq<Step>)
    requires Valid(run)
    ensures Inv(Final(run))
    decreases |run|
  {
    if run != [] {
      var before := run[..|run| - 1];
      Reachable(before);
      InvKept(Final(before), run[|run| - 1]);
    }
  }
}
