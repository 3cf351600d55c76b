/**
 One `send` with nothing else running, as a function of the cache and of the scripted
 gateway it talks to; and what the retry on `401 token_expired` promises.
 */
module SendSpec {
  import opened Options
  import opened Errors
  import opened TokenCache
  import Decimal
  import opened MachineInts
  import ReasonTags
  import ErrorKinds

  type Header = (string, string)
  datatype Call = Call(url: string, headers: seq<Header>, body: string)

  /** A request without its token: what every attempt repeats. */
  datatype Request = Request(url: string, headers: seq<Header>, body: string)

  datatype Credentials = Credentials(baseUrl: string, apiKey: string, apiSecret: string)

  /** Each scripted answer takes some time; `None` is a transport failure. */
  datatype AuthAnswer = AuthAnswer(nanos: nat, outcome: AuthOutcome)
  datatype ApiAnswer = ApiAnswer(nanos: nat, reply: Option<(nat, Body)>)

  /** The scripted gateway of tests/common/mod.rs, with its clock. */
  datatype World = World(
    now: nat,
    authScript: seq<AuthAnswer>,
    apiScript: seq<ApiAnswer>,
    authCalls: nat,
    calls: seq<Call>)

  const AUTH_PATH := "/api/v1/auth/token"

  function AuthCall(c: Credentials): Call {
    Call(c.baseUrl + AUTH_PATH, [("X-API-Key", c.apiKey), ("X-API-Secret", c.apiSecret)], "")
  }

  function BuildCall(request: Request, token: string): Call {
    Call(request.url,
         [("Content-Type", "application/json"), ("Authorization", "Bearer " + token)] + request.headers,
         request.body)
  }

  /** Out of script, the fixture issues `token-<n>` for 900 s. */
  function IssuedToken(n: nat): string {
    "token-" + Decimal.Print(n)
  }

  function AuthNext(w: World): AuthAnswer {
    if w.authScript != [] then w.authScript[0]
    else AuthAnswer(0, Accepted(200, Some(TokenResponse(IssuedToken(w.authCalls + 1), 900))))
  }

  function Tail<T>(s: seq<T>): seq<T> {
    if s == [] then [] else s[1..]
  }

  function PostToken(w: World, call: Call): (World, AuthOutcome) {
    (World(w.now + AuthNext(w).nanos, Tail(w.authScript), w.apiScript, w.authCalls + 1, w.calls + [call]),
     AuthNext(w).outcome)
  }

  const UNMOCKED := ErrorBody("internal_error", "api_error", "unmocked request in test fixture")

  /** The `n`th API answer the script holds; out of script, the fixture answers 500. */
  function NthAnswer(script: seq<ApiAnswer>, n: nat): ApiAnswer {
    if n < |script| then script[n] else ApiAnswer(0, Some((500, Body(Some(UNMOCKED), None))))
  }

  function PostApi(w: World, call: Call): (World, Option<(nat, Body)>) {
    (World(w.now + NthAnswer(w.apiScript, 0).nanos, w.authScript, Tail(w.apiScript), w.authCalls, w.calls + [call]),
     NthAnswer(w.apiScript, 0).reply)
  }

  function Refresh(cache: Cache, w: World, c: Credentials, stale: Option<string>): (Cache, World, Result<string>) {
    var served := Served(cache, stale, w.now);
    if served.Some? then (cache, w, Ok(served.value)) else
      var (w', outcome) := PostToken(w, AuthCall(c));
      var (cache', result) := Settle(cache, outcome, w'.now);
      (cache', w', result)
  }

  predicate Expired(reply: Option<(nat, Body)>) {
    reply.Some? && reply.value.0 == 401 && IsTokenExpired(reply.value.1)
  }

  function Decoded(reply: Option<(nat, Body)>): Result<Reply> {
    if reply.None? then Err(Http) else DecodeReply(reply.value.0, reply.value.1)
  }

  function Failure(result: Result<string>): Result<Reply>
    requires !result.Ok?
  {
    match result
    case Err(error) => Err(error)
    case Panicked => Panicked
  }

  /** A token, and the API's answer to the request made with it if there is one. */
  datatype Attempt = Attempt(cache: Cache, world: World, token: Result<string>, reply: Option<(nat, Body)>)

  function TryOnce(cache: Cache, w: World, c: Credentials, request: Request, stale: Option<string>): Attempt {
    var (cache', w', token) := Refresh(cache, w, c, stale);
    if !token.Ok? then Attempt(cache', w', token, None) else
      var (w'', reply) := PostApi(w', BuildCall(request, token.value));
      Attempt(cache', w'', token, reply)
  }

  predicate Retries(first: Attempt) {
    first.token.Ok? && Expired(first.reply)
  }

  /** The second attempt, which `send` makes only if the first one `Retries`. */
  function TryAgain(first: Attempt, c: Credentials, request: Request): Attempt
    requires first.token.Ok?
  {
    TryOnce(first.cache, first.world, c, request, Some(first.token.value))
  }

  function Concluded(last: Attempt): Result<Reply> {
    if last.token.Ok? then Decoded(last.reply) else Failure(last.token)
  }

  /** The attempt `send` ends with: where it leaves the cache and the gateway, and what it returns. */
  function Send(cache: Cache, w: World, c: Credentials, request: Request): (Cache, World, Result<Reply>) {
    var first := TryOnce(cache, w, c, request, None);
    var last := if Retries(first) then TryAgain(first, c, request) else first;
    (last.cache, last.world, Concluded(last))
  }

  // ---- an acquisition is the atomic one ----

  /** In isolation a refresh is the atomic acquisition that the concurrent protocol refines. */
  lemma RefreshIsAcquire(cache: Cache, w: World, c: Credentials, stale: Option<string>)
    ensures var (cache', w', result) := Refresh(cache, w, c, stale);
            && (cache', result) == Acquire(cache, stale, AuthNext(w).outcome, w'.now)
            && w'.apiScript == w.apiScript
            && w'.now == (if Served(cache, stale, w.now).Some? then w.now else w.now + AuthNext(w).nanos)
            && w'.calls == w.calls + if Served(cache, stale, w.now).Some? then [] else [AuthCall(c)]
  {
    if Served(cache, stale, w.now).None? {
      MissPersists(cache, stale, w.now, w.now + AuthNext(w).nanos);
    }
  }

  /** The auth request: where it goes, and which header carries the key and which the secret. */
  lemma AuthRequestCarries(cache: Cache, w: World, c: Credentials, stale: Option<string>)
    requires Served(cache, stale, w.now).None?
    ensures var calls := Refresh(cache, w, c, stale).1.calls;
            && |calls| == |w.calls| + 1 && w.calls <= calls
            && calls[|w.calls|].url == c.baseUrl + "/api/v1/auth/token"
            && calls[|w.calls|].headers == [("X-API-Key", c.apiKey), ("X-API-Secret", c.apiSecret)]
            && calls[|w.calls|].body == ""
  {
  }

  /** `refresh_after_expiry` makes no request exactly if the cache holds another token, which is what it returns. */
  lemma RefreshReusesIff(cache: Cache, w: World, c: Credentials, stale: string)
    ensures var (cache', w', token) := Refresh(cache, w, c, Some(stale));
            && (w'.calls == w.calls <==> cache.Some? && cache.value.token != stale)
            && (w'.calls == w.calls ==> token == Ok(cache.value.token) && cache' == cache && w' == w)
  {
  }

  /** A fetched token is returned without a request until 120 s short of its lifetime, and not after. */
  lemma FetchedTokenIsServed(cache: Cache, w: World, c: Credentials, stale: Option<string>, later: World)
    requires Served(cache, stale, w.now).None? && Refresh(cache, w, c, stale).2.Ok?
    requires -TWO_63 + 120 <= AuthNext(w).outcome.response.value.expiresIn
    requires Refresh(cache, w, c, stale).1.now <= later.now
    ensures var response := AuthNext(w).outcome.response.value;
            var (cache', w', token) := Refresh(cache, w, c, stale);
            var (cache'', later', again) := Refresh(cache', later, c, None);
            && token == Ok(response.token)
            && if later.now < w'.now + (response.expiresIn - 120) * 1_000_000_000
               then again == token && later' == later && cache'' == cache'
               else |later'.calls| == |later.calls| + 1
  {
    ExpiryExact(Refresh(cache, w, c, stale).1.now, AuthNext(w).outcome.response.value.expiresIn);
  }

  /** What an auth answer comes to: each result has one cause, and only a refusal or a token touches the cache. */
  lemma AcquisitionResults(cache: Cache, w: World, c: Credentials, stale: Option<string>)
    requires Served(cache, stale, w.now).None?
    ensures var (cache', w', result) := Refresh(cache, w, c, stale);
            var outcome := AuthNext(w).outcome;
            && (result == Err(Http) <==> outcome == Unreachable)
            && (forall status :: result == Err(Decode(status)) <==> outcome == Accepted(status, None))
            && (forall status, body :: result == Err(Api(status, body)) <==>
                  || outcome == Refused(status, Some(body))
                  || (outcome == Refused(status, None)
                      && body == ErrorBody("unknown", "unknown",
                                           "auth request failed with status " + Decimal.Print(status))))
            && (result.Ok? || result.Panicked? <==> outcome.Accepted? && outcome.response.Some?)
            && (result.Ok? ==> result.value == outcome.response.value.token
                               && cache'.Some? && cache'.value.token == result.value)
            && (outcome.Refused? ==> cache' == None)
            && (!outcome.Refused? && !result.Ok? ==> cache' == cache)
  {
  }

  /** Storing panics exactly when the instant of expiry is past what the clock can hold. */
  lemma StoringPanicsIff(cache: Cache, w: World, c: Credentials, stale: Option<string>)
    requires Served(cache, stale, w.now).None?
    requires AuthNext(w).outcome.Accepted? && AuthNext(w).outcome.response.Some?
    requires -TWO_63 + 120 <= AuthNext(w).outcome.response.value.expiresIn
    ensures var (_, w', result) := Refresh(cache, w, c, stale);
            var expiresIn := AuthNext(w).outcome.response.value.expiresIn;
            result.Panicked? <==>
              w'.now + (if expiresIn < 120 then 0 else expiresIn - 120) * 1_000_000_000 >= TWO_63 * 1_000_000_000
  {
    ExpiryExact(Refresh(cache, w, c, stale).1.now, AuthNext(w).outcome.response.value.expiresIn);
  }

  // ---- the retry ----

  /** The requests of a call list that carry a bearer token: those to the API. */
  function ApiCalls(calls: seq<Call>, c: Credentials): seq<Call> {
    if calls == [] then [] else
      ApiCalls(calls[..|calls| - 1], c) +
        if calls[|calls| - 1] == AuthCall(c) then [] else [calls[|calls| - 1]]
  }

  lemma {:induction false} ApiCallsConcat(a: seq<Call>, b: seq<Call>, c: Credentials)
    ensures ApiCalls(a + b, c) == ApiCalls(a, c) + ApiCalls(b, c)
  {
    if b == [] {
      assert a + b == a;
    } else {
      ApiCallsConcat(a, b[..|b| - 1], c);
      assert (a + b)[..|a + b| - 1] == a + b[..|b| - 1];
    }
  }

  lemma BuildIsNotAuth(request: Request, token: string, c: Credentials)
    ensures BuildCall(request, token) != AuthCall(c)
  {
    assert BuildCall(request, token).headers[0].0 == "Content-Type";
    assert "Content-Type"[0] != "X-API-Key"[0];
  }

  /** Two calls that differ in nothing but their bearer token. */
  ghost predicate SameButAuthorization(x: Call, y: Call) {
    && x.url == y.url && x.body == y.body && |x.headers| == |y.headers|
    && forall i :: 0 <= i < |x.headers| ==>
         x.headers[i] == y.headers[i]
         || (x.headers[i].0 == y.headers[i].0 == "Authorization")
  }

  /** What was added to the gateway's record. */
  function Added(before: World, after: World): seq<Call>
    requires before.calls <= after.calls
  {
    after.calls[|before.calls|..]
  }

  lemma AddedInStages(w: World, w1: World, w2: World, c: Credentials)
    requires w.calls <= w1.calls && w1.calls <= w2.calls
    ensures |Added(w, w2)| == |Added(w, w1)| + |Added(w1, w2)|
    ensures ApiCalls(Added(w, w2), c) == ApiCalls(Added(w, w1), c) + ApiCalls(Added(w1, w2), c)
  {
    assert Added(w, w2) == Added(w, w1) + Added(w1, w2);
    ApiCallsConcat(Added(w, w1), Added(w1, w2), c);
  }

  /** The API request of an attempt, if it got as far as a token. */
  function Requested(a: Attempt, request: Request): seq<Call> {
    if a.token.Ok? then [BuildCall(request, a.token.value)] else []
  }

  /** An acquisition makes at most one auth request, and no other. */
  lemma RefreshCalls(cache: Cache, w: World, c: Credentials, stale: Option<string>)
    ensures var w' := Refresh(cache, w, c, stale).1;
            && w.calls <= w'.calls && w'.apiScript == w.apiScript
            && ApiCalls(Added(w, w'), c) == [] && |Added(w, w')| <= 1
  {
    RefreshIsAcquire(cache, w, c, stale);
    assert [AuthCall(c)][..0] == [];
    assert ApiCalls([AuthCall(c)], c) == [];
  }

  lemma RequestCalls(w: World, c: Credentials, request: Request, token: string)
    ensures var w' := PostApi(w, BuildCall(request, token)).0;
            && w.calls <= w'.calls && Added(w, w') == [BuildCall(request, token)]
            && ApiCalls(Added(w, w'), c) == [BuildCall(request, token)]
  {
    BuildIsNotAuth(request, token, c);
    assert [BuildCall(request, token)][..0] == [];
  }

  /** An attempt makes at most one auth request, and then the API request if it has a token. */
  lemma AttemptCalls(cache: Cache, w: World, c: Credentials, request: Request, stale: Option<string>)
    ensures var a := TryOnce(cache, w, c, request, stale);
            && w.calls <= a.world.calls
            && ApiCalls(Added(w, a.world), c) == Requested(a, request)
            && |Added(w, a.world)| <= 1 + |Requested(a, request)|
            && (a.token.Ok? ==> a.reply == NthAnswer(w.apiScript, 0).reply
                                && a.world.apiScript == Tail(w.apiScript))
  {
    RefreshCalls(cache, w, c, stale);
    var (_, w', token) := Refresh(cache, w, c, stale);
    if token.Ok? {
      RequestCalls(w', c, request, token.value);
      AddedInStages(w, w', TryOnce(cache, w, c, request, stale).world, c);
    }
  }

  /** A `send` makes the request of its first attempt, and that of its second if it retries. */
  lemma SendCalls(cache: Cache, w: World, c: Credentials, request: Request)
    ensures var first := TryOnce(cache, w, c, request, None);
            var w' := Send(cache, w, c, request).1;
            && w.calls <= w'.calls
            && |Added(w, w')| <= 2 + |ApiCalls(Added(w, w'), c)|
            && ApiCalls(Added(w, w'), c) ==
                 if Retries(first) then Requested(first, request) + Requested(TryAgain(first, c, request), request)
                 else Requested(first, request)
  {
    var first := TryOnce(cache, w, c, request, None);
    AttemptCalls(cache, w, c, request, None);
    if Retries(first) {
      AttemptCalls(first.cache, first.world, c, request, Some(first.token.value));
      AddedInStages(w, first.world, TryAgain(first, c, request).world, c);
    }
  }

  /** The API requests a `send` makes. */
  function Sent(cache: Cache, w: World, c: Credentials, request: Request): seq<Call> {
    var w' := Send(cache, w, c, request).1;
    if w.calls <= w'.calls then ApiCalls(Added(w, w'), c) else []
  }

  lemma BuiltAlike(request: Request, t: string, u: string)
    ensures SameButAuthorization(BuildCall(request, t), BuildCall(request, u))
  {
  }

  lemma RequestedBuilt(a: Attempt, request: Request)
    ensures |Requested(a, request)| <= 1
    ensures forall call :: call in Requested(a, request) ==> exists token :: call == BuildCall(request, token)
  {
  }

  lemma RequestedAlike(a: Attempt, b: Attempt, request: Request)
    ensures var sent := Requested(a, request) + Requested(b, request);
            && |sent| <= 2
            && (|sent| == 2 ==> SameButAuthorization(sent[0], sent[1]))
            && forall call :: call in sent ==> exists token :: call == BuildCall(request, token)
  {
    RequestedBuilt(a, request);
    RequestedBuilt(b, request);
    if a.token.Ok? && b.token.Ok? {
      BuiltAlike(request, a.token.value, b.token.value);
    }
  }

  /** The fixed headers, the bearer token, and then every header of the request, in order. */
  ghost predicate CarriesRequest(call: Call, request: Request, token: string) {
    && call.url == request.url && call.body == request.body
    && |call.headers| == 2 + |request.headers|
    && call.headers[0] == ("Content-Type", "application/json")
    && call.headers[1] == ("Authorization", "Bearer " + token)
    && call.headers[2..] == request.headers
  }

  lemma BuiltCarries(request: Request, token: string)
    ensures CarriesRequest(BuildCall(request, token), request, token)
  {
  }

  /** Every request goes out whole, on the retry as well, under the token its own attempt acquired. */
  lemma SentCarries(cache: Cache, w: World, c: Credentials, request: Request, k: nat)
    requires k < |Sent(cache, w, c, request)|
    ensures var first := TryOnce(cache, w, c, request, None);
            && k < 2 && first.token.Ok?
            && var token := if k == 0 then first.token else TryAgain(first, c, request).token;
               token.Ok? && CarriesRequest(Sent(cache, w, c, request)[k], request, token.value)
  {
    SendCalls(cache, w, c, request);
    var first := TryOnce(cache, w, c, request, None);
    BuiltCarries(request, first.token.value);
    if k > 0 {
      BuiltCarries(request, TryAgain(first, c, request).token.value);
    }
  }

  /** At most two requests, the second like the first in everything but its bearer token. */
  lemma RetryRepeatsRequest(cache: Cache, w: World, c: Credentials, request: Request)
    ensures var sent := Sent(cache, w, c, request);
            && |sent| <= 2
            && (|sent| == 2 ==> SameButAuthorization(sent[0], sent[1]))
            && forall call :: call in sent ==> exists token :: call == BuildCall(request, token)
  {
    SendCalls(cache, w, c, request);
    var first := TryOnce(cache, w, c, request, None);
    if Retries(first) {
      RequestedAlike(first, TryAgain(first, c, request), request);
    } else {
      RequestedBuilt(first, request);
    }
  }

  /** A second request exactly after a `401 token_expired` and a successful refresh. */
  lemma RetryIff(cache: Cache, w: World, c: Credentials, request: Request)
    ensures var first := TryOnce(cache, w, c, request, None);
            var reply := NthAnswer(w.apiScript, 0).reply;
            |Sent(cache, w, c, request)| == 2 <==>
              && first.token.Ok?
              && reply.Some? && reply.value.0 == 401
              && reply.value.1.asError.Some? && reply.value.1.asError.value.code == "token_expired"
              && TryAgain(first, c, request).token.Ok?
  {
    SendCalls(cache, w, c, request);
    AttemptCalls(cache, w, c, request, None);
  }

  /** The caller gets what ended an acquisition. */
  predicate EndedBy(result: Result<Reply>, token: Result<string>) {
    match token
    case Ok(_) => false
    case Err(error) => result == Err(error)
    case Panicked => result == Panicked
  }

  /** The result is the last reply, decoded, or else what ended the acquisition before the missing request. */
  lemma ResultIsLastReply(cache: Cache, w: World, c: Credentials, request: Request)
    ensures var first := TryOnce(cache, w, c, request, None);
            var result := Send(cache, w, c, request).2;
            var sent := Sent(cache, w, c, request);
            var replies := (NthAnswer(w.apiScript, 0).reply, NthAnswer(w.apiScript, 1).reply);
            if |sent| == 2 then result == Decoded(replies.1)
            else if |sent| == 0 then EndedBy(result, first.token)
            else if Expired(replies.0) then first.token.Ok? && EndedBy(result, TryAgain(first, c, request).token)
            else result == Decoded(replies.0)
  {
    SendCalls(cache, w, c, request);
    AttemptCalls(cache, w, c, request, None);
    var first := TryOnce(cache, w, c, request, None);
    if Retries(first) {
      AttemptCalls(first.cache, first.world, c, request, Some(first.token.value));
      assert NthAnswer(Tail(w.apiScript), 0) == NthAnswer(w.apiScript, 1);
    }
  }

  /** The reply `send` ends with, unless it failed for want of a token. */
  predicate EndsWith(cache: Cache, w: World, c: Credentials, request: Request, reply: Option<(nat, Body)>) {
    var sent := |Sent(cache, w, c, request)|;
    || (sent == 1 && !Expired(reply) && reply == NthAnswer(w.apiScript, 0).reply)
    || (sent == 2 && reply == NthAnswer(w.apiScript, 1).reply)
  }

  /** What the last reply comes to: its value, its error body unchanged, or what was wrong with it. */
  lemma LastReplyReturned(cache: Cache, w: World, c: Credentials, request: Request, reply: Option<(nat, Body)>)
    requires EndsWith(cache, w, c, request, reply)
    ensures var result := Send(cache, w, c, request).2;
            if reply.None? then result == Err(Http) else
              var (status, body) := reply.value;
              if status < 400 then
                result == if body.asValue.Some? then Ok(Reply(status, body.asValue.value)) else Err(Decode(status))
              else
                result == Err(Api(status, if body.asError.Some? then body.asError.value else
                                            ErrorBody("unknown", "unknown", "failed to decode error response")))
  {
    ResultIsLastReply(cache, w, c, request);
    RetryIff(cache, w, c, request);
  }

  /** From the gateway's words to the caller's tag: a rejection is returned as one, with its tag. */
  lemma RejectionReachesCaller(cache: Cache, w: World, c: Credentials, request: Request, body: Body,
                               tag: string, detail: string)
    requires EndsWith(cache, w, c, request, Some((400, body))) && body.asError.Some?
    requires ReasonTags.IsReasonTag(tag) && body.asError.value.message == "Rejected: " + tag + ": " + detail
    ensures var result := Send(cache, w, c, request).2;
            && result == Err(Api(400, body.asError.value))
            && ErrorKinds.ReasonTag(result.error) == Some(tag)
            && ErrorKinds.Kind(result.error) == Some(ErrorKinds.Rejected)
  {
    LastReplyReturned(cache, w, c, request, Some((400, body)));
    ErrorKinds.RejectedRoundTrip(body.asError.value, tag, detail);
  }

  /** So does the tag of a failed transaction. */
  lemma FailureReachesCaller(cache: Cache, w: World, c: Credentials, request: Request, body: Body,
                             op: string, tag: string)
    requires EndsWith(cache, w, c, request, Some((400, body))) && body.asError.Some?
    requires ReasonTags.IsReasonTag(tag) && ErrorKinds.PlainOperation(op)
    requires body.asError.value.code == "transaction_failed" && body.asError.value.message == op + " failed: " + tag
    ensures var result := Send(cache, w, c, request).2;
            result == Err(Api(400, body.asError.value)) && ErrorKinds.ReasonTag(result.error) == Some(tag)
  {
    LastReplyReturned(cache, w, c, request, Some((400, body)));
    ErrorKinds.FailedRoundTrip(body.asError.value, op, tag);
  }

  /** What the caller sees as `kind() == Some(TokenExpired)`. */
  predicate SaysTokenExpired<T>(result: Result<T>) {
    result.Err? && ErrorKinds.Kind(result.error) == Some(ErrorKinds.TokenExpired)
  }

  lemma ExpiredDecodes(reply: Option<(nat, Body)>)
    ensures SaysTokenExpired(Decoded(reply)) <==> Expired(reply)
  {
    assert UNDECODABLE_ERROR.code[0] != TOKEN_EXPIRED[0];
  }

  lemma ConcludedExpired(last: Attempt)
    ensures SaysTokenExpired(Concluded(last)) <==>
              if last.token.Ok? then Expired(last.reply) else SaysTokenExpired(last.token)
  {
    ExpiredDecodes(last.reply);
  }

  /** The `n`th scripted auth answer is itself a `401 token_expired`. */
  predicate AuthSaysExpired(w: World, n: nat) {
    && n < |w.authScript|
    && var outcome := w.authScript[n].outcome;
       outcome.Refused? && outcome.status == 401 && outcome.error.Some? && outcome.error.value.code == TOKEN_EXPIRED
  }

  lemma AcquisitionExpiredIff(cache: Cache, w: World, c: Credentials, stale: Option<string>)
    ensures SaysTokenExpired(Refresh(cache, w, c, stale).2) <==>
              Served(cache, stale, w.now).None? && AuthSaysExpired(w, 0)
  {
    assert RefusalBody(401).code[0] != TOKEN_EXPIRED[0];
  }

  /** The auth answers the first acquisition uses up; the second one, alone, always needs the next. */
  function FirstUses(cache: Cache, w: World): nat {
    if Served(cache, None, w.now).Some? then 0 else 1
  }

  /** The auth endpoint answers `401 token_expired` to an acquisition this `send` makes. */
  predicate AuthExpires(cache: Cache, w: World, c: Credentials, request: Request) {
    || (Served(cache, None, w.now).None? && AuthSaysExpired(w, 0))
    || (Retries(TryOnce(cache, w, c, request, None)) && AuthSaysExpired(w, FirstUses(cache, w)))
  }

  lemma RetryExpiredIff(cache: Cache, w: World, c: Credentials, request: Request)
    requires TryOnce(cache, w, c, request, None).token.Ok?
    ensures SaysTokenExpired(TryAgain(TryOnce(cache, w, c, request, None), c, request).token)
            <==> AuthSaysExpired(w, FirstUses(cache, w))
  {
    var first := TryOnce(cache, w, c, request, None);
    TokenIsCached(cache, w, c, None);
    AcquisitionExpiredIff(first.cache, first.world, c, Some(first.token.value));
  }

  /**
   `token_expired` reaches the caller exactly when two API replies in a row said so, or
   when it is what the auth endpoint itself answers, at the first acquisition or the second.
   */
  lemma TokenExpiredSurfacesIff(cache: Cache, w: World, c: Credentials, request: Request)
    ensures SaysTokenExpired(Send(cache, w, c, request).2) <==>
              || AuthExpires(cache, w, c, request)
              || (&& |Sent(cache, w, c, request)| == 2
                  && Expired(NthAnswer(w.apiScript, 0).reply) && Expired(NthAnswer(w.apiScript, 1).reply))
  {
    var first := TryOnce(cache, w, c, request, None);
    RetryIff(cache, w, c, request);
    AcquisitionExpiredIff(cache, w, c, None);
    AttemptCalls(cache, w, c, request, None);
    ConcludedExpired(first);
    if Retries(first) {
      RetryExpiredIff(cache, w, c, request);
      ConcludedExpired(TryAgain(first, c, request));
      AttemptCalls(first.cache, first.world, c, request, Some(first.token.value));
      assert NthAnswer(Tail(w.apiScript), 0) == NthAnswer(w.apiScript, 1);
    }
  }

  /** The documented promise: the caller sees `token_expired` only as the answer to a retry. */
  predicate SurfacesAsDocumented(cache: Cache, w: World, c: Credentials, request: Request) {
    SaysTokenExpired(Send(cache, w, c, request).2) ==>
      && |Sent(cache, w, c, request)| == 2
      && Expired(NthAnswer(w.apiScript, 0).reply) && Expired(NthAnswer(w.apiScript, 1).reply)
  }

  /** It is kept exactly when the auth endpoint does not give that answer to this `send`. */
  lemma SurfacesAsDocumentedIff(cache: Cache, w: World, c: Credentials, request: Request)
    ensures SurfacesAsDocumented(cache, w, c, request) <==> !AuthExpires(cache, w, c, request)
  {
    TokenExpiredSurfacesIff(cache, w, c, request);
    RetryIff(cache, w, c, request);
    AcquisitionExpiredIff(cache, w, c, None);
    AttemptCalls(cache, w, c, request, None);
    if TryOnce(cache, w, c, request, None).token.Ok? {
      RetryExpiredIff(cache, w, c, request);
    }
  }

  /** And it can be broken: an empty cache, one such auth answer, and no request to the API at all. */
  lemma ExpiredWithoutApiReply(c: Credentials, request: Request) returns (w: World)
    ensures SaysTokenExpired(Send(None, w, c, request).2)
    ensures Sent(None, w, c, request) == []
    ensures forall n :: !Expired(NthAnswer(w.apiScript, n).reply)
    ensures !SurfacesAsDocumented(None, w, c, request)
  {
    var answer := AuthAnswer(0, Refused(401, Some(ErrorBody(TOKEN_EXPIRED, "", ""))));
    w := World(0, [answer], [], 0, []);
    SurfacesAsDocumentedIff(None, w, c, request);
    TokenExpiredSurfacesIff(None, w, c, request);
    SendCalls(None, w, c, request);
    AcquisitionExpiredIff(None, w, c, None);
  }

  /** A token that was handed out is the cached one. */
  lemma TokenIsCached(cache: Cache, w: World, c: Credentials, stale: Option<string>)
    ensures var (cache', _, token) := Refresh(cache, w, c, stale);
            token.Ok? ==> cache'.Some? && cache'.value.token == token.value
  {
  }

  /**
   Alone, a retry always asks the gateway, so its token differs from the stale one exactly
   when the gateway does not issue the same token again.
   */
  lemma RetryTokenIsReissued(cache: Cache, w: World, c: Credentials, request: Request)
    requires Retries(TryOnce(cache, w, c, request, None))
    requires TryAgain(TryOnce(cache, w, c, request, None), c, request).token.Ok?
    ensures var first := TryOnce(cache, w, c, request, None);
            var issued := AuthNext(first.world).outcome;
            && issued.Accepted? && issued.response.Some?
            && TryAgain(first, c, request).token.value == issued.response.value.token
            && |TryAgain(first, c, request).world.calls| == |first.world.calls| + 2
  {
    TokenIsCached(cache, w, c, None);
  }

  // ---- the fixture's tokens ----

  /** `token-<n>`: the number can be read back. */
  lemma IssuedTokenReads(n: nat)
    ensures "token-" <= IssuedToken(n)
    ensures var ds := Decimal.Read(IssuedToken(n)[6..], Decimal.CharDigit);
            ds.Some? && Decimal.Value(ds.value) == n
  {
    assert IssuedToken(n)[6..] == Decimal.Print(n);
    Decimal.ReadWritten(Decimal.Digits(n), Decimal.DigitChar, Decimal.CharDigit);
    Decimal.ValueOfDigits(n);
  }

  /** `token-<n>` tells one auth request from another. */
  lemma IssuedTokensDistinct(m: nat, n: nat)
    requires IssuedToken(m) == IssuedToken(n)
    ensures m == n
  {
    assert IssuedToken(m)[|"token-"|..] == Decimal.Print(m);
    assert IssuedToken(n)[|"token-"|..] == Decimal.Print(n);
    Decimal.PrintInjective(m, n);
  }

  predicate IsAuthRequest(c: Credentials, call: Call) {
    call.url == c.baseUrl + AUTH_PATH
  }

  /** The gateway after one request, sent to its auth path or to any other. */
  function Handle(w: World, c: Credentials, call: Call): World {
    if IsAuthRequest(c, call) then PostToken(w, call).0 else PostApi(w, call).0
  }

  /** The tokens the gateway issues in the course of a sequence of requests, in order. */
  function Issued(w: World, c: Credentials, calls: seq<Call>): seq<string>
    decreases |calls|
  {
    if calls == [] then [] else
      var outcome := AuthNext(w).outcome;
      var token :=
        if IsAuthRequest(c, calls[0]) && outcome.Accepted? && outcome.response.Some?
        then [outcome.response.value.token] else [];
      token + Issued(Handle(w, c, calls[0]), c, calls[1..])
  }

  function AuthRequests(c: Credentials, calls: seq<Call>): nat {
    if calls == [] then 0 else (if IsAuthRequest(c, calls[0]) then 1 else 0) + AuthRequests(c, calls[1..])
  }

  /** Out of script, one more token for an auth request, and no other effect on what is issued. */
  lemma HandledUnscripted(w: World, c: Credentials, calls: seq<Call>)
    requires w.authScript == [] && calls != []
    ensures var w' := Handle(w, c, calls[0]);
            && w'.authScript == []
            && if IsAuthRequest(c, calls[0]) then
                 && w'.authCalls == w.authCalls + 1
                 && Issued(w, c, calls) == [IssuedToken(w.authCalls + 1)] + Issued(w', c, calls[1..])
               else
                 && w'.authCalls == w.authCalls
                 && Issued(w, c, calls) == Issued(w', c, calls[1..])
  {
  }

  /** `count` tokens, numbered from `n`. */
  function Numbered(n: nat, count: nat): seq<string>
    decreases count
  {
    if count == 0 then [] else [IssuedToken(n)] + Numbered(n + 1, count - 1)
  }

  lemma {:induction false} NumberedAt(n: nat, count: nat, i: nat)
    requires i < count
    ensures |Numbered(n, count)| == count && Numbered(n, count)[i] == IssuedToken(n + i)
    decreases count
  {
    if i > 0 {
      NumberedAt(n + 1, count - 1, i - 1);
    } else if count > 1 {
      NumberedAt(n + 1, count - 1, 0);
    }
  }

  /** Left to itself the fixture issues one token per auth request, numbered from the first. */
  lemma {:induction false} IssuedInOrder(w: World, c: Credentials, calls: seq<Call>)
    requires w.authScript == []
    ensures Issued(w, c, calls) == Numbered(w.authCalls + 1, AuthRequests(c, calls))
    decreases |calls|
  {
    if calls != [] {
      HandledUnscripted(w, c, calls);
      IssuedInOrder(Handle(w, c, calls[0]), c, calls[1..]);
    }
  }

  /** Whatever it is asked and in whatever order, the fixture never issues one token twice. */
  lemma FixtureNeverReissues(w: World, c: Credentials, calls: seq<Call>, i: nat, j: nat)
    requires w.authScript == [] && i < j < |Issued(w, c, calls)|
    ensures Issued(w, c, calls)[i] != Issued(w, c, calls)[j]
  {
    IssuedInOrder(w, c, calls);
    var count := AuthRequests(c, calls);
    assert count > 0;
    NumberedAt(w.authCalls + 1, count, 0);
    NumberedAt(w.authCalls + 1, count, i);
    NumberedAt(w.authCalls + 1, count, j);
    if Issued(w, c, calls)[i] == Issued(w, c, calls)[j] {
      IssuedTokensDistinct(w.authCalls + 1 + i, w.authCalls + 1 + j);
    }
  }
}
