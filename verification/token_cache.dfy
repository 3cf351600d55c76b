/**
 The token cache of src/token.rs as a value: what a lookup serves, what an auth answer
 leaves behind, and the two composed into one atomic acquisition.

 The clock is a monotonic instant in nanoseconds.
 */
module TokenCache {
  import opened Options
  import opened Errors
  import opened MachineInts
  import Decimal

  const REFRESH_BUFFER_SECS := 120
  const SECOND: nat := 1_000_000_000
  /** An `Instant` holds its seconds in an `i64`; adding past that panics. */
  const INSTANT_LIMIT: nat := TWO_63 * SECOND

  datatype TokenState = TokenState(token: string, expiresAt: nat)
  type Cache = Option<TokenState>

  datatype TokenResponse = TokenResponse(token: string, expiresIn: I64)

  /** What becomes of one `POST /api/v1/auth/token`. */
  datatype AuthOutcome =
    | Unreachable
    | Refused(status: nat, error: Option<ErrorBody>)
    | Accepted(status: nat, response: Option<TokenResponse>)

  /**
   The cached token a lookup returns without a round trip. `stale` is `None` for
   `get_token`, both at the fast check and at the double check, and the token that
   drew the `401` for `refresh_after_expiry`.
   */
  function Served(cache: Cache, stale: Option<string>, now: nat): Option<string> {
    match cache
    case None => None
    case Some(s) =>
      var stillFresh := now < s.expiresAt;
      var replaced := stale.Some? && stale.value != s.token;
      if (stale.None? && stillFresh) || replaced then Some(s.token) else None
  }

  /** Seconds a token stays cached: the reported lifetime less the buffer, in `i64`, floored at 0. */
  function CacheSeconds(expiresIn: I64): nat {
    var left := WrapI64(expiresIn - REFRESH_BUFFER_SECS);
    if left < 0 then 0 else left
  }

  /** `None` when the addition to the current `Instant` overflows, which panics. */
  function ExpiryInstant(now: nat, expiresIn: I64): Option<nat> {
    var at := now + CacheSeconds(expiresIn) * SECOND;
    if at < INSTANT_LIMIT then Some(at) else None
  }

  function RefusalBody(status: nat): ErrorBody {
    ErrorBody("unknown", "unknown", "auth request failed with status " + Decimal.Print(status))
  }

  /** What an auth answer does to the cache, and what the caller gets. */
  function Settle(cache: Cache, outcome: AuthOutcome, now: nat): (Cache, Result<string>) {
    match outcome
    case Unreachable => (cache, Err(Http))
    case Refused(status, error) =>
      (None, Err(Api(status, if error.Some? then error.value else RefusalBody(status))))
    case Accepted(status, None) => (cache, Err(Decode(status)))
    case Accepted(_, Some(response)) =>
      match ExpiryInstant(now, response.expiresIn)
      case None => (cache, Panicked)
      case Some(at) => (Some(TokenState(response.token, at)), Ok(response.token))
  }

  /** One token acquisition as if nothing else ran and no time passed. */
  function Acquire(cache: Cache, stale: Option<string>, outcome: AuthOutcome, now: nat): (Cache, Result<string>) {
    var served := Served(cache, stale, now);
    if served.Some? then (cache, Ok(served.value)) else Settle(cache, outcome, now)
  }

  /** What a cache did not serve it will not serve later, as long as it stays the same. */
  lemma MissPersists(cache: Cache, stale: Option<string>, checkedAt: nat, now: nat)
    requires Served(cache, stale, checkedAt) == None && checkedAt <= now
    ensures Served(cache, stale, now) == None
  {
  }

  /**
   The buffer subtraction is exact on all but the bottom 120 values of `i64`; on those it
   wraps to a lifetime of at least 2^63 - 120 seconds, which the clock then rejects as soon
   as it has run for two minutes.
   */
  lemma CacheSecondsExact(expiresIn: I64, now: nat)
    ensures CacheSeconds(expiresIn) == (if expiresIn <= 120 then 0 else expiresIn - 120)
            <==> -TWO_63 + REFRESH_BUFFER_SECS <= expiresIn
    ensures expiresIn < -TWO_63 + REFRESH_BUFFER_SECS && now >= 120 * SECOND ==>
              ExpiryInstant(now, expiresIn) == None
  {
    if expiresIn < -TWO_63 + REFRESH_BUFFER_SECS {
      WrapsUp(expiresIn);
    }
  }

  /** The seconds a lifetime leaves after the buffer, where the subtraction does not wrap. */
  function AfterBuffer(expiresIn: I64): nat {
    if expiresIn <= 120 then 0 else expiresIn - 120
  }

  /** Stored at `now`, a token in range expires after its lifetime less 120 s, or the clock cannot tell and storing panics. */
  lemma ExpiryExact(now: nat, expiresIn: I64)
    requires -TWO_63 + REFRESH_BUFFER_SECS <= expiresIn
    ensures ExpiryInstant(now, expiresIn).Some? <==> now + AfterBuffer(expiresIn) * SECOND < TWO_63 * SECOND
    ensures ExpiryInstant(now, expiresIn).Some? ==>
              ExpiryInstant(now, expiresIn).value == now + AfterBuffer(expiresIn) * SECOND
  {
    CacheSecondsExact(expiresIn, now);
  }

  /** From when a token was stored to when it expires, wrapped or not. */
  ghost predicate LifetimeRule(at: nat, expiresIn: I64, expiresAt: nat) {
    && (-TWO_63 + 120 <= expiresIn ==> expiresAt == at + AfterBuffer(expiresIn) * 1_000_000_000)
    && (expiresIn < -TWO_63 + 120 ==>
          at < 120 * 1_000_000_000 && expiresAt == at + (expiresIn - 120 + TWO_64) * 1_000_000_000)
  }

  lemma ExpiryFollowsRule(at: nat, expiresIn: I64)
    requires ExpiryInstant(at, expiresIn).Some?
    ensures LifetimeRule(at, expiresIn, ExpiryInstant(at, expiresIn).value)
  {
    CacheSecondsExact(expiresIn, at);
    if expiresIn < -TWO_63 + 120 {
      WrapsUp(expiresIn);
    }
  }

  lemma WrapsUp(expiresIn: I64)
    requires expiresIn < -TWO_63 + 120
    ensures CacheSeconds(expiresIn) == expiresIn - 120 + TWO_64
  {
    var x := expiresIn - REFRESH_BUFFER_SECS;
    assert 0 <= x + TWO_63 + TWO_64 < TWO_64;
    assert (x + TWO_63) % TWO_64 == x + TWO_63 + TWO_64;
  }

  /** Only `get_token` is sure of a live token: the `replaced` branch of a refresh never looks at the clock. */
  lemma ServedFreshIff(stale: Option<string>)
    ensures (forall cache: Cache, now: nat ::
               Served(cache, stale, now).Some? ==> now < cache.value.expiresAt) <==> stale.None?
  {
    if stale.Some? {
      var other := stale.value + "'";
      assert Served(Some(TokenState(other, 0)), stale, 0) == Some(other);
    }
  }
}
