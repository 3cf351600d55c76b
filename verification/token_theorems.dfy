/** What the token protocol keeps over whole runs: order of tokens, single flight, lifetimes. */
module TokenTheorems {
  import opened Options
  import opened Errors
  import opened MachineInts
  import opened TokenCache
  import opened TokenProtocol
  import opened AuthLog
  import opened TokenInvariant

  /** The gateway never issues one token string twice. */
  ghost predicate DistinctGrants(s: State) {
    forall i, j :: 0 <= i < j < |s.grants| ==> s.grants[i].token != s.grants[j].token
  }

  lemma StoresDistinct(s: State)
    requires GrantsInv(s) && DistinctGrants(s)
    ensures DistinctStores(s.log)
  {
    forall i, j | 0 <= i < j < |s.log| && s.log[i].Stored? && s.log[j].Stored?
      ensures s.log[i].token != s.log[j].token
    {
      assert StoreMatches(s.grants, s.log[i], s.now) && StoreMatches(s.grants, s.log[j], s.now);
    }
  }

  lemma CacheIsEmptyOrNewest(run: seq<Step>)
    requires Valid(run)
    ensures var s := Final(run);
            s.cache.Some? ==>
              exists i: nat ::
                && StoredAt(s.log, i, s.cache.value.token) && s.log[i].expiresAt == s.cache.value.expiresAt
                && forall k :: i < k < |s.log| ==> !s.log[k].Stored? && !s.log[k].Cleared?
  {
    Reachable(run);
    if Final(run).cache.Some? {
      var i := CacheIsLastStored(Final(run).log);
    }
  }

  /** The token of a retry was stored after the stale one was, whatever else cleared, refilled or gave up in between. */
  lemma RetryTokenStoredLater(run: seq<Step>, t: nat)
    requires Valid(run) && t < |Final(run).tasks|
    requires var pc := Final(run).tasks[t]; (pc.Ready? || pc.Calling?) && pc.stale.Some?
    ensures StoredInOrder(Final(run).log, Final(run).tasks[t].stale.value, Final(run).tasks[t].token)
  {
    Reachable(run);
    assert TokenInv(Final(run).log, Final(run).tasks[t]);
  }

  /** If the gateway never repeats a token it is another token, and all its stores are after all of the stale one's. */
  lemma RetryTokenIsNewer(run: seq<Step>, t: nat)
    requires Valid(run) && DistinctGrants(Final(run))
    requires t < |Final(run).tasks|
    requires var pc := Final(run).tasks[t]; (pc.Ready? || pc.Calling?) && pc.stale.Some?
    ensures var pc, log := Final(run).tasks[t], Final(run).log;
            && pc.token != pc.stale.value
            && WasStored(log, pc.stale.value) && WasStored(log, pc.token)
            && forall i, j :: StoredAt(log, i, pc.stale.value) && StoredAt(log, j, pc.token) ==> i < j
  {
    Reachable(run);
    var s := Final(run);
    StoresDistinct(s);
    assert TokenInv(s.log, s.tasks[t]);
  }

  /** The index of a store or round trip charged to `x` through a `refresh_after_expiry(x)`. */
  predicate ChargedStore(log: seq<Event>, i: int, x: string) {
    0 < i < |log| && log[i].Stored? && log[i - 1].AuthSent? && log[i - 1].stale == Some(x)
  }

  predicate ChargedTrip(log: seq<Event>, i: int, x: string) {
    0 <= i < |log| && log[i].AuthSent? && log[i].stale == Some(x)
  }

  ghost predicate NothingCleared(log: seq<Event>) {
    forall k :: 0 <= k < |log| ==> !log[k].Cleared?
  }

  ghost predicate NothingFailed(log: seq<Event>) {
    forall k :: 0 <= k < |log| ==> !log[k].Cleared? && !log[k].Abandoned?
  }

  /** However many tasks drew a `401` for `x`. */
  lemma SingleFlight(run: seq<Step>, x: string)
    requires Valid(run) && DistinctGrants(Final(run))
    ensures var log := Final(run).log;
            NothingCleared(log) ==> forall i, j :: ChargedStore(log, i, x) && ChargedStore(log, j, x) ==> i == j
    ensures var log := Final(run).log;
            NothingFailed(log) ==> forall i, j :: ChargedTrip(log, i, x) && ChargedTrip(log, j, x) ==> i == j
  {
    Reachable(run);
    var log := Final(run).log;
    StoresDistinct(Final(run));
    if NothingCleared(log) {
      forall i, j | ChargedStore(log, i, x) && ChargedStore(log, j, x) && i < j ensures false {
        StaleChargedOnce(log, i, j);
      }
    }
    if NothingFailed(log) {
      forall i, j | ChargedTrip(log, i, x) && ChargedTrip(log, j, x) && i < j ensures false {
        OneFlightPerStale(log, i, j);
      }
    }
  }

  /**
   Nor does `get_token` fetch twice for one reason: while nothing fails, one round trip at
   most finds the cache empty, and any other finds the token stored right before it past
   `expires_at`, or is charged to it.
   */
  lemma RoundTripForCause(run: seq<Step>, j: nat)
    requires Valid(run) && NothingFailed(Final(run).log)
    requires j < |Final(run).log| && Final(run).log[j].AuthSent?
    ensures var log := Final(run).log;
            if CacheAfter(log[..j]).None? then j == 0
            else
              && j >= 2 && log[j - 1].Stored?
              && if log[j].stale.None? then log[j - 1].expiresAt <= log[j].at
                 else log[j - 1].token == log[j].stale.value
  {
    Reachable(run);
    var log := Final(run).log;
    if CacheAfter(log[..j]).None? {
      ColdStartIsFirst(log, j);
    } else {
      HistoryAt(log, j);
      HistoryAt(log, j - 1);
      RoundTripJustified(log, j - 2, j);
    }
  }

  // ---- the stale token ----

  /** Once a refresh of `x` was answered with a token or refused, the cache never holds `x` again. */
  lemma RefreshDropsStale(run: seq<Step>, i: nat, x: string)
    requires Valid(run) && DistinctGrants(Final(run))
    requires ChargedTrip(Final(run).log, i, x) && i + 1 < |Final(run).log|
    requires !Final(run).log[i + 1].Abandoned?
    ensures !Holds(Final(run).cache, x)
  {
    Reachable(run);
    StoresDistinct(Final(run));
    var log := Final(run).log;
    HistoryAt(log, i + 1);
    StaleStaysDropped(log, i, |log|);
    assert log[..|log|] == log;
  }

  /**
   The documented promise, that a refresh drops the stale token, holds of the cache it
   leaves exactly when it was answered, or when the cache did not hold the token before.
   */
  lemma StaleSurvivesIff(run: seq<Step>, i: nat, x: string)
    requires Valid(run) && DistinctGrants(Final(run))
    requires ChargedTrip(Final(run).log, i, x) && |Final(run).log| == i + 2
    ensures var log := Final(run).log;
            Holds(Final(run).cache, x) <==> log[i + 1].Abandoned? && Holds(CacheAfter(log[..i]), x)
  {
    Reachable(run);
    StoresDistinct(Final(run));
    var log := Final(run).log;
    StaleDroppedIff(log, i);
    assert log[..i + 2] == log;
  }

  /** Every store that displaces a cached token finds it expired at the double check, or is charged to it. */
  lemma DisplacedForCause(run: seq<Step>, i: nat)
    requires Valid(run) && i < |Final(run).log| && Final(run).log[i].Stored?
    ensures i > 0 && Final(run).log[i - 1].AuthSent?
    ensures var log := Final(run).log;
            CacheAfter(log[..i]).Some? ==>
              if log[i - 1].stale.None? then CacheAfter(log[..i]).value.expiresAt <= log[i - 1].at
              else ChargedStore(log, i, CacheAfter(log[..i]).value.token)
  {
    Reachable(run);
    DisplacementJustified(Final(run).log, i);
  }

  // ---- lifetimes ----

  /** The part of a grant's lifetime left at `now`; negative once it has run out. */
  function Remaining(g: Grant, now: nat): int {
    g.at + g.expiresIn * SECOND - now
  }

  predicate LifetimesInRange(s: State) {
    forall i :: 0 <= i < |s.grants| ==> -TWO_63 + REFRESH_BUFFER_SECS <= s.grants[i].expiresIn
  }

  /**
   A token `get_token` takes from the cache, at the fast check or the double check, was
   granted for more than the buffer and has more than the buffer left, less the time its
   answer took to be stored.
   */
  lemma CacheHitIsFresh(run: seq<Step>) returns (i: nat)
    requires Valid(run) && LifetimesInRange(Final(run))
    requires Served(Final(run).cache, None, Final(run).now).Some?
    ensures var s := Final(run);
            && StoredAt(s.log, i, Served(s.cache, None, s.now).value)
            && s.log[i].grant < |s.grants|
            && var g := s.grants[s.log[i].grant];
               && g.token == s.log[i].token && g.at <= s.log[i].at
               && g.expiresIn > REFRESH_BUFFER_SECS
               && Remaining(g, s.now) > REFRESH_BUFFER_SECS * SECOND - (s.log[i].at - g.at)
  {
    Reachable(run);
    var s := Final(run);
    i := CacheIsLastStored(s.log);
    assert StoreMatches(s.grants, s.log[i], s.now);
  }

  /**
   How long a stored token is served: `get_token` takes it from the cache exactly until 120 s
   short of its lifetime, counted from when it was stored.
   */
  lemma ServedExactlyUntil(run: seq<Step>, i: nat)
    requires Valid(run) && LifetimesInRange(Final(run)) && Final(run).cache.Some?
    requires i < |Final(run).log| && Final(run).log[i].Stored?
    requires forall k :: i < k < |Final(run).log| ==> !Final(run).log[k].Stored? && !Final(run).log[k].Cleared?
    ensures var s := Final(run);
            && s.log[i].grant < |s.grants| && s.grants[s.log[i].grant].token == s.log[i].token
            && Served(s.cache, None, s.now) ==
                 if s.now < s.log[i].at + (s.grants[s.log[i].grant].expiresIn - 120) * SECOND
                 then Some(s.log[i].token) else None
  {
    Reachable(run);
    var s := Final(run);
    var k := CacheIsLastStored(s.log);
    assert k == i;
    assert StoreMatches(s.grants, s.log[i], s.now);
  }

  /** Stored within `seconds` of issue, a token is only ever served with more than 120 - `seconds` seconds left. */
  lemma CacheHitMargin(run: seq<Step>, seconds: nat)
    requires Valid(run) && LifetimesInRange(Final(run))
    requires var s := Final(run);
             forall i | 0 <= i < |s.log| && s.log[i].Stored? && s.log[i].grant < |s.grants| ::
               s.log[i].at <= s.grants[s.log[i].grant].at + seconds * SECOND
    requires Served(Final(run).cache, None, Final(run).now).Some?
    ensures var s := Final(run);
            exists g :: g in s.grants && g.token == Served(s.cache, None, s.now).value
                        && Remaining(g, s.now) > (REFRESH_BUFFER_SECS - seconds) * SECOND
  {
    var i := CacheHitIsFresh(run);
    var s := Final(run);
    assert s.grants[s.log[i].grant] in s.grants;
  }

  /** A gateway whose tokens live 120 s or less is asked again by every `get_token`. */
  lemma ShortLivedNeverServed(run: seq<Step>)
    requires Valid(run) && LifetimesInRange(Final(run))
    requires forall g :: g in Final(run).grants ==> g.expiresIn <= REFRESH_BUFFER_SECS
    ensures Served(Final(run).cache, None, Final(run).now) == None
  {
    if Served(Final(run).cache, None, Final(run).now).Some? {
      var i := CacheHitIsFresh(run);
    }
  }

  // ---- the replaced branch does not look at the clock ----

  /** A new task finds nothing servable and reaches the write lock. */
  lemma ReachWriteLock(run: seq<Step>) returns (run': seq<Step>)
    requires Valid(run)
    requires Final(run).readers == {} && Final(run).writer.None?
    requires Served(Final(run).cache, None, Final(run).now).None?
    ensures Valid(run')
    ensures var s := Final(run);
            Final(run') == s.(tasks := s.tasks + [Checking(None)], writer := Some(|s.tasks|))
  {
    var s := Final(run);
    var t := |s.tasks|;
    Extend(run, Spawn);
    run' := run + [Spawn];
    Extend(run', AcquireRead(t));
    run' := run' + [AcquireRead(t)];
    assert Final(run') == s.(tasks := s.tasks + [Reading], readers := {t});
    Extend(run', FastCheck(t));
    run' := run' + [FastCheck(t)];
    assert Final(run') == s.(tasks := s.tasks + [WantWrite(None)]);
    Extend(run', AcquireWrite(t));
    run' := run' + [AcquireWrite(t)];
  }

  /** It then fetches a token. */
  lemma Fetch(run: seq<Step>, token: string, expiresIn: I64) returns (run': seq<Step>)
    requires Valid(run) && Final(run).readers == {} && Final(run).writer.None?
    requires Served(Final(run).cache, None, Final(run).now).None?
    requires ExpiryInstant(Final(run).now, expiresIn).Some?
    ensures Valid(run') && FetchedBy(Final(run), Final(run'), token, expiresIn)
  {
    var s := Final(run);
    var t := |s.tasks|;
    run' := ReachWriteLock(run);
    Extend(run', DoubleCheck(t));
    run' := run' + [DoubleCheck(t)];
    assert Final(run').tasks == s.tasks + [Authing(None, s.now)];
    var response := TokenResponse(token, expiresIn);
    Extend(run', AuthAccepted(t, 200, Some(response)));
    run' := run' + [AuthAccepted(t, 200, Some(response))];
    assert Final(run').tasks == s.tasks + [Granting(None, s.now, 200, Some(response))];
    run' := Store(run', t, token, expiresIn);
  }

  /** `s'` is `s` after one more task fetched a token, with the lock free again. */
  predicate FetchedBy(s: State, s': State, token: string, expiresIn: I64)
    requires ExpiryInstant(s.now, expiresIn).Some?
  {
    && s'.tasks == s.tasks + [Ready(None, token)]
    && s'.cache == Some(TokenState(token, ExpiryInstant(s.now, expiresIn).value)) && s'.now == s.now
    && s'.readers == {} && s'.writer.None?
    && |s'.log| == |s.log| + 2 && s'.grants == s.grants + [Grant(token, expiresIn, s.now)]
  }

  lemma Store(run: seq<Step>, t: nat, token: string, expiresIn: I64) returns (run': seq<Step>)
    requires Valid(run) && ExpiryInstant(Final(run).now, expiresIn).Some?
    requires |Final(run).tasks| == t + 1
             && Final(run).tasks[t] == Granting(None, Final(run).now, 200, Some(TokenResponse(token, expiresIn)))
    ensures Valid(run')
    ensures var s, s' := Final(run), Final(run');
            && s'.tasks == s.tasks[..t] + [Ready(None, token)]
            && s'.cache == Some(TokenState(token, ExpiryInstant(s.now, expiresIn).value)) && s'.now == s.now
            && s'.readers == s.readers && s'.writer.None?
            && |s'.log| == |s.log| + 1 && s'.grants == s.grants
  {
    Extend(run, AuthBody(t));
    run' := run + [AuthBody(t)];
  }

  /** So a retry can be handed a token whose time in the cache is over: the margin above is for `get_token` only. */
  lemma ReplacedTokenMayBeExpired() returns (run: seq<Step>)
    ensures Valid(run) && |Final(run).tasks| == 2
    ensures var s := Final(run);
            && s.tasks[0] == Ready(Some("a"), "b")
            && s.cache.Some? && s.cache.value.token == "b"
            && s.cache.value.expiresAt + 3600 * SECOND <= s.now
  {
    CacheSecondsExact(0, 0);
    run := Fetch([], "a", 0);
    run := Fetch(run, "b", 0);
    assert Final(run).tasks == [Ready(None, "a"), Ready(None, "b")];
    run := RetryAfterAnHour(run);
  }

  lemma RetryAfterAnHour(run: seq<Step>) returns (run': seq<Step>)
    requires Valid(run) && Final(run).tasks == [Ready(None, "a"), Ready(None, "b")]
    requires Final(run).readers == {} && Final(run).writer.None?
    requires Final(run).cache.Some? && Final(run).cache.value.token == "b"
    ensures Valid(run') && Final(run').now == Final(run).now + 3600 * SECOND
    ensures Final(run').cache == Final(run).cache
    ensures Final(run').tasks == [Ready(Some("a"), "b"), Ready(None, "b")]
  {
    var s := Final(run);
    var expired := Body(Some(ErrorBody(TOKEN_EXPIRED, "", "")), None);
    Extend(run, CallApi(0));
    run' := run + [CallApi(0)];
    assert Final(run') == s.(tasks := [Calling(None, "a"), Ready(None, "b")]);
    Extend(run', ApiReply(0, 401, expired));
    run' := run' + [ApiReply(0, 401, expired)];
    assert Final(run') == s.(tasks := [WantWrite(Some("a")), Ready(None, "b")]);
    Extend(run', Tick(3600 * SECOND));
    run' := run' + [Tick(3600 * SECOND)];
    Extend(run', AcquireWrite(0));
    run' := run' + [AcquireWrite(0)];
    assert Final(run').tasks == [Checking(Some("a")), Ready(None, "b")];
    Extend(run', DoubleCheck(0));
    run' := run' + [DoubleCheck(0)];
  }

  // ---- a failed refresh keeps the stale token ----

  /** A token drew a `401` and its refresh got no answer: its caller has an error, and `get_token` still serves the token. */
  lemma StaleTokenMaySurvive() returns (run: seq<Step>)
    ensures Valid(run) && DistinctGrants(Final(run))
    ensures var s := Final(run);
            && s.tasks == [Done(Returned(Err(Http)))]
            && |s.log| == 4 && ChargedTrip(s.log, 2, "a") && s.log[3].Abandoned?
            && Served(s.cache, None, s.now) == Some("a")
  {
    CacheSecondsExact(900, 0);
    run := Fetch([], "a", 900);
    run := RefreshUnanswered(run);
  }

  lemma RefreshUnanswered(run: seq<Step>) returns (run': seq<Step>)
    requires Valid(run) && Final(run).tasks == [Ready(None, "a")]
    requires Final(run).readers == {} && Final(run).writer.None? && Holds(Final(run).cache, "a")
    ensures Valid(run') && Final(run').tasks == [Done(Returned(Err(Http)))]
    ensures Final(run').cache == Final(run).cache && Final(run').now == Final(run).now
    ensures Final(run').grants == Final(run).grants
    ensures Final(run').log == Final(run).log + [AuthSent(0, Some("a"), Final(run).now), Abandoned(0)]
  {
    var s := Final(run);
    run' := Rejected(run);
    Extend(run', AcquireWrite(0));
    run' := run' + [AcquireWrite(0)];
    assert Final(run') == s.(tasks := [Checking(Some("a"))], writer := Some(0));
    Extend(run', DoubleCheck(0));
    run' := run' + [DoubleCheck(0)];
    assert Final(run') == s.(tasks := [Authing(Some("a"), s.now)], writer := Some(0),
                             log := s.log + [AuthSent(0, Some("a"), s.now)]);
    Extend(run', AuthUnreachable(0));
    run' := run' + [AuthUnreachable(0)];
  }

  lemma Rejected(run: seq<Step>) returns (run': seq<Step>)
    requires Valid(run) && Final(run).tasks == [Ready(None, "a")]
    ensures Valid(run') && Final(run') == Final(run).(tasks := [WantWrite(Some("a"))])
  {
    var s := Final(run);
    var expired := Body(Some(ErrorBody(TOKEN_EXPIRED, "", "")), None);
    Extend(run, CallApi(0));
    run' := run + [CallApi(0)];
    assert Final(run') == s.(tasks := [Calling(None, "a")]);
    Extend(run', ApiReply(0, 401, expired));
    run' := run' + [ApiReply(0, 401, expired)];
  }
}
