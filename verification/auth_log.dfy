/**
 The sequential history a run leaves under the write lock: which logs are histories of
 the atomic cache, and what every such history satisfies.
 */
module AuthLog {
  import opened Options
  import opened TokenCache
  import opened TokenProtocol

  /** The cache as the history alone determines it. */
  function CacheAfter(log: seq<Event>): Cache {
    if log == [] then None else
      match log[|log| - 1]
      case Stored(_, token, expiresAt, _, _) => Some(TokenState(token, expiresAt))
      case Cleared(_) => None
      case _ => CacheAfter(log[..|log| - 1])
  }

  ghost predicate StoredAt(log: seq<Event>, i: int, token: string) {
    0 <= i < |log| && log[i].Stored? && log[i].token == token
  }

  ghost predicate WasStored(log: seq<Event>, token: string) {
    exists i :: StoredAt(log, i, token)
  }

  /** `older` was stored, and `newer` was stored after it. */
  ghost predicate StoredInOrder(log: seq<Event>, older: string, newer: string) {
    exists i, j :: i < j && StoredAt(log, i, older) && StoredAt(log, j, newer)
  }

  predicate InFlight(log: seq<Event>) {
    log != [] && log[|log| - 1].AuthSent?
  }

  /**
   Round trips never overlap, each is one the cache could not serve at the time, each
   answer belongs to the round trip just sent, and a refresh replaces a token stored before.
   */
  ghost predicate History(log: seq<Event>) {
    log == [] ||
    var earlier := log[..|log| - 1];
    && History(earlier)
    && match log[|log| - 1]
       case AuthSent(_, stale, at) =>
         && !InFlight(earlier)
         && Served(CacheAfter(earlier), stale, at) == None
         && (stale.Some? ==> WasStored(earlier, stale.value))
       case Stored(t, _, _, _, _) => InFlight(earlier) && earlier[|earlier| - 1].task == t
       case Cleared(t) => InFlight(earlier) && earlier[|earlier| - 1].task == t
       case Abandoned(t) => InFlight(earlier) && earlier[|earlier| - 1].task == t
  }

  ghost predicate DistinctStores(log: seq<Event>) {
    forall i, j :: 0 <= i < j < |log| && log[i].Stored? && log[j].Stored? ==> log[i].token != log[j].token
  }

  ghost predicate ClearedBetween(log: seq<Event>, i: int, j: int)
  {
    exists k :: i < k < j && 0 <= k < |log| && log[k].Cleared?
  }

  lemma {:induction false} HistoryPrefix(log: seq<Event>, n: nat)
    requires History(log) && n <= |log|
    ensures History(log[..n])
  {
    if n < |log| {
      HistoryPrefix(log[..|log| - 1], n);
      assert log[..|log| - 1][..n] == log[..n];
    } else {
      assert log[..n] == log;
    }
  }

  /** Every entry meets its condition with respect to the entries before it. */
  lemma HistoryAt(log: seq<Event>, i: nat)
    requires History(log) && i < |log|
    ensures History(log[..i])
    ensures log[i].AuthSent? ==>
              && !InFlight(log[..i])
              && Served(CacheAfter(log[..i]), log[i].stale, log[i].at) == None
              && (log[i].stale.Some? ==> WasStored(log[..i], log[i].stale.value))
    ensures !log[i].AuthSent? ==> i > 0 && log[i - 1].AuthSent? && log[i - 1].task == log[i].task
  {
    HistoryPrefix(log, i + 1);
    assert log[..i + 1][..i] == log[..i];
    HistoryPrefix(log, i);
  }

  /** A cached token is the one stored last, and nothing was cleared since. */
  lemma {:induction false} CacheIsLastStored(log: seq<Event>) returns (i: nat)
    requires CacheAfter(log).Some?
    ensures StoredAt(log, i, CacheAfter(log).value.token)
    ensures log[i].expiresAt == CacheAfter(log).value.expiresAt
    ensures forall k :: i < k < |log| ==> !log[k].Stored? && !log[k].Cleared?
  {
    i := |log| - 1;
    if !log[i].Stored? {
      i := CacheIsLastStored(log[..|log| - 1]);
    }
  }

  /** From a store on, and until something is cleared, the cache holds a token stored no earlier. */
  lemma {:induction false} CacheSinceStore(log: seq<Event>, i: nat, n: nat) returns (k: nat)
    requires i < n <= |log| && log[i].Stored?
    requires !ClearedBetween(log, i, n)
    ensures CacheAfter(log[..n]).Some?
    ensures i <= k < n && StoredAt(log, k, CacheAfter(log[..n]).value.token)
    ensures log[k].expiresAt == CacheAfter(log[..n]).value.expiresAt
  {
    assert log[..n][..n - 1] == log[..n - 1];
    if log[n - 1].Stored? {
      k := n - 1;
    } else {
      assert i < n - 1;
      assert !log[n - 1].Cleared?;
      k := CacheSinceStore(log, i, n - 1);
    }
  }

  // ---- single flight ----

  /** What a round trip displaces, it displaces for cause: past `expires_at`, or the caller's stale token. */
  lemma DisplacementJustified(log: seq<Event>, i: nat)
    requires History(log) && i < |log| && log[i].Stored?
    ensures i > 0 && log[i - 1].AuthSent? && log[i - 1].task == log[i].task
    ensures CacheAfter(log[..i]).Some? ==>
              var displaced, sent := CacheAfter(log[..i]).value, log[i - 1];
              if sent.stale.None? then displaced.expiresAt <= sent.at else displaced.token == sent.stale.value
  {
    HistoryAt(log, i);
    HistoryAt(log, i - 1);
    assert log[..i][..i - 1] == log[..i - 1];
  }

  /** The cache at a refresh charged to a token: never a newer one. */
  lemma RefreshSeesNoNewer(log: seq<Event>, i: nat, j: nat)
    requires History(log) && DistinctStores(log)
    requires i < j < |log| && log[i].Stored?
    requires log[j].AuthSent? && log[j].stale.Some? && WasStored(log[..i], log[j].stale.value)
    ensures ClearedBetween(log, i, j)
  {
    if !ClearedBetween(log, i, j) {
      HistoryAt(log, j);
      var k := CacheSinceStore(log, i, j);
    }
  }

  /**
   However many tasks drew a `401` for one token, a second successful refresh charged to
   it needs an auth answer of 400 or above in between to have emptied the cache.
   */
  lemma StaleChargedOnce(log: seq<Event>, i: nat, j: nat)
    requires History(log) && DistinctStores(log)
    requires 0 < i < j < |log| && log[i].Stored? && log[j].Stored?
    requires log[i - 1].AuthSent? && log[j - 1].AuthSent?
    requires log[i - 1].stale.Some? && log[j - 1].stale == log[i - 1].stale
    ensures ClearedBetween(log, i, j)
  {
    HistoryAt(log, i - 1);
    StoredEarlier(log, i - 1, i, log[i - 1].stale.value);
    assert i < j - 1;
    RefreshSeesNoNewer(log, i, j - 1);
    var k :| i < k < j - 1 && 0 <= k < |log| && log[k].Cleared?;
    assert i < k < j;
  }

  lemma StoredEarlier(log: seq<Event>, m: nat, n: nat, token: string)
    requires m <= n <= |log| && WasStored(log[..m], token)
    ensures WasStored(log[..n], token)
  {
    var h :| StoredAt(log[..m], h, token);
    assert StoredAt(log[..n], h, token);
  }

  /** A second round trip charged to one token needs a failed one in between: 400 or above, transport, decode, panic or drop. */
  lemma OneFlightPerStale(log: seq<Event>, i: nat, j: nat)
    requires History(log) && DistinctStores(log)
    requires i < j < |log| && log[i].AuthSent? && log[j].AuthSent?
    requires log[i].stale.Some? && log[j].stale == log[i].stale
    ensures exists k :: i < k < j && (log[k].Cleared? || log[k].Abandoned?)
  {
    HistoryAt(log, i);
    HistoryAt(log, j);
    HistoryAt(log, i + 1);
    assert log[..i + 1][i] == log[i];
    if log[i + 1].Stored? {
      StoredEarlier(log, i, i + 1, log[i].stale.value);
      RefreshSeesNoNewer(log, i + 1, j);
    } else {
      assert !log[i + 1].AuthSent?;
    }
  }

  /**
   Cold start and proactive refresh: two round trips with no failed one in between are
   separated by a store, and the token stored right before the second one was by then
   either past `expires_at` or the stale token that round trip is charged to.
   */
  lemma RoundTripJustified(log: seq<Event>, i: nat, j: nat)
    requires History(log)
    requires i < j < |log| && log[i].AuthSent? && log[j].AuthSent?
    requires forall m :: i < m < j ==> !log[m].Cleared? && !log[m].Abandoned?
    ensures j - 1 > i && log[j - 1].Stored?
    ensures if log[j].stale.None? then log[j - 1].expiresAt <= log[j].at
            else log[j - 1].token == log[j].stale.value
  {
    HistoryAt(log, j);
    HistoryAt(log, j - 1);
    assert log[..j][j - 1] == log[j - 1];
  }

  // ---- what a refresh leaves of the stale token ----

  predicate Holds(cache: Cache, token: string) {
    cache.Some? && cache.value.token == token
  }

  /** The cache a round trip leaves. */
  lemma CacheAfterTrip(log: seq<Event>, i: nat)
    requires i + 1 < |log| && log[i].AuthSent? && !log[i + 1].AuthSent?
    ensures CacheAfter(log[..i + 2]) ==
              match log[i + 1]
              case Stored(_, token, expiresAt, _, _) => Some(TokenState(token, expiresAt))
              case Cleared(_) => None
              case _ => CacheAfter(log[..i])
  {
    assert log[..i + 2][..i + 1] == log[..i + 1] && log[..i + 1][..i] == log[..i];
  }

  lemma StaleStoredBefore(log: seq<Event>, i: nat) returns (h: nat)
    requires History(log) && i < |log| && log[i].AuthSent? && log[i].stale.Some?
    ensures h < i && StoredAt(log, h, log[i].stale.value)
  {
    HistoryAt(log, i);
    h :| StoredAt(log[..i], h, log[i].stale.value);
  }

  /**
   Right after a round trip charged to `x` the cache holds `x` exactly if the trip was
   abandoned and found it there: a store or a clear drops it, a failed trip changes nothing.
   */
  lemma StaleDroppedIff(log: seq<Event>, i: nat)
    requires History(log) && DistinctStores(log)
    requires i + 1 < |log| && log[i].AuthSent? && log[i].stale.Some?
    ensures var x := log[i].stale.value;
            Holds(CacheAfter(log[..i + 2]), x) <==> log[i + 1].Abandoned? && Holds(CacheAfter(log[..i]), x)
    ensures log[i + 1].Abandoned? ==> CacheAfter(log[..i + 2]) == CacheAfter(log[..i])
  {
    HistoryAt(log, i + 1);
    assert log[..i + 1][i] == log[i];
    CacheAfterTrip(log, i);
    var h := StaleStoredBefore(log, i);
  }

  /** Once dropped so, a stale token never comes back. */
  lemma StaleStaysDropped(log: seq<Event>, i: nat, n: nat)
    requires History(log) && DistinctStores(log)
    requires i + 1 < n <= |log| && log[i].AuthSent? && log[i].stale.Some?
    requires log[i + 1].Stored? || log[i + 1].Cleared?
    ensures !Holds(CacheAfter(log[..n]), log[i].stale.value)
  {
    var h := StaleStoredBefore(log, i);
    assert log[..n][h] == log[h] && log[..n][i + 1] == log[i + 1];
    if Holds(CacheAfter(log[..n]), log[i].stale.value) {
      var k := CacheIsLastStored(log[..n]);
    }
  }

  /** A round trip that finds the cache empty, with no failed one before it, is the first of all. */
  lemma ColdStartIsFirst(log: seq<Event>, j: nat)
    requires History(log) && j < |log| && log[j].AuthSent? && CacheAfter(log[..j]).None?
    requires forall m :: 0 <= m < j ==> !log[m].Cleared? && !log[m].Abandoned?
    ensures j == 0
  {
    assert j > 0 ==> log[..j][j - 1] == log[j - 1];
    HistoryAt(log, j);
  }
}
