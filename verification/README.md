# Paratro SDK (Rust): a verified model

A Dafny model of the parts of the Paratro MPC SDK where correctness is not visible in one
function body, with proofs. `dafny verify dfyconfig.toml` checks all of it (Dafny 4.11).

## What is modelled

**The token cache and the retry on `401 token_expired`.** Any number of tasks are inside
`MpcClient::send` at once, sharing one cached token behind a readers/one-writer lock.
`TokenProtocol` is this as a transition system: one program counter per task, the lock, the
clock, the cache, the tokens the gateway issued, and a log of what happened under the write
lock. Arrivals, clock ticks, every gateway answer, lost connections, undecodable bodies and the
dropping of a task's future at any await are steps. `AuthLog` is the theory of the log alone,
`TokenInvariant` the inductive invariant, `TokenRefinement` the proof that every run is a run
of `TokenSpec`, where a whole acquisition is one atomic step and no lock exists;
`TokenTheorems` and `TokenProgress` draw the consequences. `Client` has the same code as the
source has it, objects whose methods update their fields (`TokenManager`, `MpcClient`, and the
scripted gateway of the tests), proved against the functions of `SendSpec`; `SequentialRuns`
proves that one such `send` is a run of the concurrent protocol. `TokenOutcomes` follows a task
through a whole run to say when it ends with `token_expired`.

**Submission.** `Submission` puts many sends, with retries, lost replies and replays, in front
of a gateway that behaves as the documentation says: unique `reference_id`, a replay cache per
`Idempotency-Key` that may forget, `401` before any row, work that continues after its sender
is gone. `SubmittedSends` proves, over whole runs, that a sender there does and returns what
`send` does against a gateway that gives the same answers.

**The error language.** `ReasonTags` proves the flag-driven recognizer loop equal to its
regular expression, given by a denotational semantics; `ErrorKinds` proves tag extraction the
exact inverse of the message grammar and relates it to the classifier.

**Webhook signatures.** `Webhook` covers framing, the byte-by-byte comparison, `i64` parsing
and the freshness window in 64-bit arithmetic. The MAC is a parameter, any function of key and
message; no property of it is assumed.

**The test gateway's request reader and base URLs.** `RequestReader` and `RequestFormat` cover
the incremental HTTP/1.1 reader of the tests, from the bytes of a formatted request (`Unicode`
has their encoding) back to its fields; `ClientConfig` covers base-URL normalisation.

## Assumptions, and where the code and its documentation part

- The gateway's answers, the clock and the order of steps are unconstrained except where a
  lemma says so. `DistinctGrants` (no token string is issued twice) is a hypothesis of the
  single-flight lemmas and of `RetryTokenIsNewer` only; the test gateway meets it
  (`FixtureNeverReissues`). Tokens stay in store order without it (`RetryTokenStoredLater`).
- The lock grants in any order. The real one queues fairly, so its runs are among these.
- An auth answer of 400 or above, 5xx included, empties the cache; a transport or decode
  failure, a panic or a drop leaves it.
- The documentation says a refresh drops the stale token. It does when the auth endpoint answers
  with a token or a refusal, and for good (`RefreshDropsStale`); when the answer never comes or
  does not decode, the cache keeps it (`StaleSurvivesIff`) and `get_token` serves it again
  (`StaleTokenMaySurvive`).
- `refresh_after_expiry` hands out a replaced token without looking at the clock, so only
  `get_token` keeps the two-minute margin (`ServedFreshIff`, `ReplacedTokenMayBeExpired`).
- Integer overflow is that of a release build: `expires_in - 120` and `now - ts` wrap, adding
  to an `Instant` past 2^63 seconds panics. A debug build panics on the two subtractions
  instead. `CacheSecondsExact` and `WrappingShowsIff` say exactly when wrapping matters. A
  timestamp over 2^63 s in the past is refused with a wrapped age (`ReportedAgeIff`).
- The documentation promises that `token_expired` surfaces only as the API's second such answer.
  That fails when the auth endpoint itself answers it (`ExpiredWithoutApiReply`), and in no
  other case (`SurfacesAsDocumentedIff`).
- `"<OPERATION> failed: <tag>"` gives back every tag exactly if `OPERATION` followed by a space
  neither opens with `Rejected: ` nor contains ` failed: ` (`FailedRoundTripIff`); otherwise what
  is extracted does not depend on the tag at all (`TagIgnored`). Without the space the claim is
  false (`RejectedColonOperation`).
- A tag can be extracted from an error classified as a duplicate `reference_id` or an
  unsupported operation, on exactly the messages `PrefixShadows` describes.
- The request reader's size check looks at bytes received, not at the header's end. So a
  well-formed request whose header ends within one read of the limit, in a stream that reaches
  it, is read or refused by how its bytes were split (`ReadsMatterForSome`); no other stream is
  (`SplitsAgreeIff`).
- `Submission` assumes of the gateway that a `reference_id` never gets a second row, that a
  replay is the remembered body of a row created under the same key, and that success replies
  are as documented. The lemmas about replies rest on these.
- An `Idempotency-Key` without a `reference_id` does not prevent a second row, and one key for
  two requests can hand the second the first one's transaction; nothing else can do either
  (`TwoRowsIff`, `CrossingIff`).

## Model

| member | source | states |
|---|---|---|
| TokenCache.CacheSecondsExact | src/token.rs:134-141 | the cached lifetime is the reported one less 120 s, floored at 0, exactly on the `i64` values the subtraction does not wrap; where it wraps, the `Instant` addition panics once the clock has run two minutes |
| TokenCache.ExpiryExact | src/token.rs:134-141 | stored at an instant, a token expires its lifetime less 120 s later, floored at 0; if the clock cannot hold that, storing panics |
| TokenCache.ServedFreshIff | src/token.rs:98-108 | a lookup is sure to serve an unexpired token exactly when it carries no stale token |
| TokenInvariant.LockKept | src/token.rs:79-144 | every step, drops included, keeps readers/one-writer exclusion and every guard where its task stands |
| TokenInvariant.HistoryKept | src/token.rs:98-144 | every step keeps the cache equal to what the log says, round trips serialised, and the open one the lock holder's |
| TokenInvariant.ServedWasStored | src/token.rs:102-108 | a served token was stored last; through the `replaced` branch, after the caller's stale one |
| TokenInvariant.TokensKept | src/client.rs:175-189 | every step keeps each held token a stored one and each retry token stored after the stale one |
| TokenInvariant.GrantsKept | src/token.rs:131-143 | every step keeps stores matched one to one, in order, with the gateway's grants, each expiring its lifetime less 120 s after it was stored |
| TokenInvariant.Reachable | src/token.rs:79-144 | the whole invariant holds in every reachable state, for any tasks, gateway, schedule and cancellations |
| TokenRefinement.CheckStillStands | src/token.rs:99-108 | however long an auth answer is awaited under the write lock, the cache would still serve the waiter nothing |
| TokenRefinement.StepRefines | src/token.rs:79-144 | every step is silent or one atomic operation of the sequential specification, taken at the read check, the double check or the settling |
| TokenRefinement.RunRefines | src/token.rs:79-144 | every concurrent run linearises to a valid run of the sequential specification, each acquisition at one instant, ending in the same cache, clock and task results |
| AuthLog.CacheIsLastStored | src/token.rs:137-141 | a cached token is the one stored last and nothing was cleared since |
| AuthLog.DisplacementJustified | src/token.rs:98-141 | a displaced token was past `expires_at` at the double check, or was the caller's stale token |
| AuthLog.StaleChargedOnce | src/token.rs:91-108 | if no token is stored twice, two successful refreshes charged to one stale token have a clear, an auth answer of 400 or above, between them |
| AuthLog.OneFlightPerStale | src/token.rs:91-108 | if no token is stored twice, two auth requests charged to one stale token have a failed one between them |
| AuthLog.RoundTripJustified | src/token.rs:98-119 | with no failure in between, a further auth request finds the token stored right before it expired, or is charged to it |
| AuthLog.StaleDroppedIff | src/token.rs:91-93 | if no token is stored twice, a round trip charged to a token leaves it cached iff it was abandoned and found it cached; an abandoned one changes nothing |
| AuthLog.StaleStaysDropped | src/token.rs:91-93 | a token whose refresh was answered by a store or a clear is never cached again |
| AuthLog.ColdStartIsFirst | src/token.rs:98-119 | with no failure before it, an auth request that finds the cache empty is the first of all |
| TokenTheorems.CacheIsEmptyOrNewest | src/token.rs:79-144 | in every run the cache is empty or the newest store |
| TokenTheorems.RetryTokenStoredLater | src/client.rs:180-187 | in every run a retry's token was stored after the stale one, through either branch |
| TokenTheorems.RetryTokenIsNewer | src/client.rs:180-187 | if tokens are not reissued it is a different token, all of whose stores are later |
| TokenTheorems.SingleFlight | src/token.rs:91-108 | if tokens are not reissued, however many tasks saw the `401`: one successful refresh per stale token if nothing was cleared, one auth request if nothing failed |
| TokenTheorems.RoundTripForCause | src/token.rs:79-119 | over runs, while nothing fails: one auth request at most finds the cache empty; any other finds the token stored right before it expired, or is charged to it |
| TokenTheorems.RefreshDropsStale | src/token.rs:91-93 | over runs: once a refresh of a token was answered, by a token or a refusal, the cache never holds it again |
| TokenTheorems.StaleSurvivesIff | src/token.rs:91-93 | right after a refresh of a token the cache holds it iff the refresh was abandoned and found it there |
| TokenTheorems.StaleTokenMaySurvive | src/token.rs:98-117 | a run in which a refresh gets no answer and `get_token` would serve the rejected token again |
| TokenTheorems.DisplacedForCause | src/token.rs:98-141 | over runs: every store that displaces a token finds it expired or is charged to it |
| TokenTheorems.CacheHitIsFresh | src/token.rs:79-88 | a token `get_token` takes from the cache was granted for more than 120 s and has more than 120 s left, less its storing delay |
| TokenTheorems.ServedExactlyUntil | src/token.rs:79-88 | over runs: `get_token` takes the token stored last from the cache exactly until its lifetime less 120 s after it was stored |
| TokenTheorems.CacheHitMargin | src/token.rs:11-12 | stored within L seconds of issue, a token is served with more than 120 - L seconds left |
| TokenTheorems.ShortLivedNeverServed | src/token.rs:134-141 | tokens of 120 s or less are never served from the cache by `get_token` |
| TokenTheorems.ReplacedTokenMayBeExpired | src/token.rs:102-108 | a run in which a retry is handed a cached token an hour past its expiry |
| TokenProgress.WaitersHoldNothing | src/token.rs:79-99 | no task waits for the lock while holding it |
| TokenProgress.SomeTaskCanMove | src/token.rs:79-144 | while any task is unfinished, some task's own step or awaited answer is enabled |
| TokenProgress.EveryoneCanFinish | src/token.rs:79-144 | from every reachable state all tasks can be brought to their end, without arrivals, ticks or drops |
| TokenProgress.DropReleases | src/token.rs:98-144 | a future dropped at any await frees its guard and leaves the cache and every other task alone |
| TokenProgress.AwaitIsNear | src/token.rs:79-144 | two steps of its own at most bring any unfinished task to an await, where it can be dropped |
| TokenProgress.ReadersShare | src/token.rs:80-87 | any number of tasks can hold the read guard at once |
| TokenProgress.RunsTerminate | src/client.rs:175-197 | a run with n tasks has at most 14 n steps besides arrivals and ticks, under any schedule |
| TokenProgress.AuthRequestsBounded | src/client.rs:175-189 | a send makes at most two auth requests |
| TokenProgress.ApiRequestsBounded | src/client.rs:172-189 | a send makes at most two API requests |
| TokenOutcomes.EndsExpiredIff | src/client.rs:172-189 | in every concurrent run a task ends with kind `TokenExpired` iff it had two expired API replies, or an auth answer saying so |
| TokenOutcomes.AnswerEnds | src/token.rs:112-133 | a lost answer, a lost or undecodable body and a refusal end the task with the matching error, the gateway's own body included; only the refusal empties the cache |
| TokenOutcomes.TokenStored | src/token.rs:131-143 | a token is cached for its lifetime less 120 s from when its body was read, and the task goes on with it |
| SequentialRuns.SendIsARun | src/client.rs:175-189 | from any reachable state with a free lock, the client object's `send` is a run of the concurrent protocol with the same result, cache and clock |
| SendSpec.RefreshIsAcquire | src/token.rs:98-144 | alone, a refresh is the atomic acquisition, with one auth request exactly when the cache serves nothing |
| SendSpec.AuthRequestCarries | src/token.rs:110-118 | the auth request: URL, and the key and the secret each in its own header |
| SendSpec.RefreshReusesIff | src/token.rs:98-108 | a refresh makes no request iff the cache holds another token than the stale one, which it then returns |
| SendSpec.FetchedTokenIsServed | src/token.rs:79-88 | a fetched token is returned without a request until 120 s short of its lifetime, and from then on a request is made |
| SendSpec.AcquisitionResults | src/token.rs:112-143 | one cause for each result of an auth request, error bodies included, and what the cache is left with |
| SendSpec.StoringPanicsIff | src/token.rs:137-141 | storing panics iff the instant of expiry is past the clock's range |
| Errors.DecodeReply | src/client.rs:205-216 | a reply decodes iff its status is below 400 and its value decodes; otherwise the error still carries the status, and the gateway's error body unchanged if there is one |
| SendSpec.RetryRepeatsRequest | src/client.rs:118-141 | at most two requests, equal in URL, body and headers except for the bearer token |
| SendSpec.SentCarries | src/client.rs:129-139 | every request, the retry too, goes out with URL, body, fixed headers, the bearer token its own attempt acquired, and every extra header in order |
| SendSpec.RetryIff | src/client.rs:172-189 | the second request exists iff the first reply was `401 token_expired` and the refresh succeeded |
| SendSpec.ResultIsLastReply | src/client.rs:175-216 | the result is the decoding of the last reply, or what ended the acquisition before the missing request |
| SendSpec.LastReplyReturned | src/client.rs:175-216 | what each last reply comes to: its value, its error body unchanged, or the transport or decode error |
| SendSpec.RejectionReachesCaller | src/error.rs:239-261 | a last reply of 400 `Rejected: <tag>: <detail>` is returned unchanged, of kind rejected, with its tag |
| SendSpec.FailureReachesCaller | src/error.rs:239-261 | so is `<OP> failed: <tag>` of code `transaction_failed` |
| SendSpec.TokenExpiredSurfacesIff | src/client.rs:172-189 | the caller sees kind `TokenExpired` iff two requests were made and both answered so, or an auth answer that the send needed was a `401 token_expired` itself |
| SendSpec.SurfacesAsDocumentedIff | src/error.rs:133 | `token_expired` surfaces only as the answer to a retry, exactly when no auth answer the send needs says it |
| SendSpec.ExpiredWithoutApiReply | src/token.rs:120-130 | it can surface without any request to the API |
| SendSpec.RetryTokenIsReissued | src/token.rs:91-108 | alone, a retry always asks the gateway, and its token is the one issued then |
| SendSpec.SendCalls | src/client.rs:175-189 | the gateway's record grows by exactly the requests of the attempts made, with at most two auth requests |
| SendSpec.IssuedInOrder | tests/common/mod.rs:71-82 | over any sequence of requests the test gateway issues one token per auth request, numbered in order |
| SendSpec.IssuedTokenReads | tests/common/mod.rs:76-82 | the number of a token can be read off it |
| SendSpec.FixtureNeverReissues | tests/common/mod.rs:71-82 | so no two of them are the same |
| Client.Gateway.PostToken | tests/common/mod.rs:74-99 | an auth request gets `token-<n>` for 900 s, is counted and recorded; with a script of auth answers, which the fixture does not have, it pops one instead |
| Client.Gateway.PostApi | tests/common/mod.rs:93-99 | an API request pops the next scripted reply or gets the unmocked 500, and is recorded |
| Client.TokenManager.GetToken | src/token.rs:79-88 | fast check then refresh: the state and gateway change as the specification of an acquisition says |
| Client.TokenManager.RefreshAfterExpiry | src/token.rs:94-96 | the same, charged to a stale token |
| Client.TokenManager.Refresh | src/token.rs:98-144 | the cache is stored, cleared or left exactly as the specification says, on every outcome |
| Client.MpcClient.New | src/client.rs:36-76 | succeeds iff key, secret and an absolute http(s) URL are given, with the first missing one named; starts with an empty cache and the normalised URL |
| Client.MpcClient.Build | src/client.rs:129-139 | the builder loop yields URL, body, the two fixed headers with the bearer token, and then every extra header, in order |
| Client.MpcClient.Send | src/client.rs:175-189 | cache, gateway and result change as the specification of `send` says |
| Client.MpcClient.PostWithStatusAndHeaders | src/client.rs:120-141 | the same, for base URL plus path, with the extra headers on every attempt |
| Transactions.CreateTransactionWithHeaders | src/transaction.rs:480-496 | a reply carries the HTTP status and the request's operation; an error passes through |
| Transactions.AcceptedOnAnyReply | src/transaction.rs:344-371 | any reply: accepted iff 202, or `PENDING` of a request that is no transfer; decoded by hand, iff 202; broadcast iff `BROADCAST` |
| Transactions.DocumentedReplies | src/transaction.rs:344-371 | on documented replies accepted means 202, broadcast means a broadcast 200, never both, replayed or not |
| Submission.Reachable | src/transaction.rs:460-470 | in every reachable state rows are unique per `reference_id`, and every reply in flight, remembered or received is that of a row |
| SubmittedSends.SubmittedSendIsSend | src/client.rs:175-189 | over any run: against a gateway that answers as it was answered, `send` returns what a finished submission came to, after as many requests |
| SubmittedSends.EveryLifeIsPlayed | src/client.rs:175-189 | every submission of every run has such a gateway |
| SubmittedSends.FirstReplyReceived | src/client.rs:178-188 | on the first reply a submission goes on to refresh, or finishes with what `send` returns, as `send` does |
| SubmittedSends.RetryReplyReceived | src/client.rs:178-188 | on the reply to its retry it finishes with what `send` returns |
| SubmittedSends.NoReplyIsGivingUp | src/client.rs:178-188 | without a reply, or a token to retry with, both come to nothing, and no further request reaches the gateway |
| Submission.AtMostTwoRequests | src/client.rs:172-189 | no send makes more than two API requests, and one that has not retried made one |
| Submission.ReplyOfOwnRow | src/transaction.rs:460-470 | if its key is sent with no other request, a success is the reply of a row its own request created |
| Submission.RepliesAgree | src/transaction.rs:460-470 | all successes under one `reference_id`, its keys not sent with other requests, are of one request, carry the same body and agree on `is_accepted` and `is_broadcast` |
| Submission.RepliesDoNotCross | src/client.rs:9-13 | successes of different requests name different transactions, unless the two share a key |
| Submission.ReusedKeyCrosses | src/client.rs:9-13 | for any two requests under one key, a run where the second gets the first one's transaction |
| Submission.CrossingIff | src/client.rs:9-13 | two different requests can be told of one transaction iff they share a key |
| Submission.KeyAloneIsNotEnough | src/transaction.rs:460-470 | for any request without `reference_id`, a run that leaves two rows for it |
| Submission.TwoRowsIff | src/transaction.rs:460-470 | resent any number of times, a request can get two rows iff it has no `reference_id`, whatever its key; that one with it cannot is the gateway's unique key, assumed |
| ReasonTags.CheckReasonTag | src/error.rs:332-356 | the loop accepts exactly the regular expression, at most 64 bytes |
| ReasonTags.ReasonTagLanguage | src/error.rs:332-356 | the accepted language is the expression's with at most 64 characters, bytes and characters being as many |
| ReasonTags.TagIsRegex | src/error.rs:332-333 | the right-to-left reading of a tag and the denotational regular expression agree |
| ReasonTags.PrefixViable | src/error.rs:340-355 | every nonempty prefix of a tag is a tag or a tag and an underscore, so the loop rejects early and rightly |
| ErrorKinds.ReasonTagIff | src/error.rs:248-261 | extraction yields a tag iff the error is a 400 whose message has the documented form with that tag |
| ErrorKinds.SplitsAfterOperation | src/error.rs:254-255 | the split falls right after the operation iff the operation and a space contain no separator |
| ErrorKinds.RejectedRoundTrip | src/error.rs:239-261 | `Rejected: <tag>: <detail>` gives its tag back, and is classified as rejected |
| ErrorKinds.FailedRoundTripIff | src/error.rs:239-261 | `<OP> failed: <tag>` gives every tag back iff `OP` and a space neither open with the rejection prefix nor contain the separator |
| ErrorKinds.TagIgnored | src/error.rs:248-261 | otherwise what is extracted is the same for all tags |
| ErrorKinds.RejectedColonOperation | src/error.rs:248-261 | the operation `Rejected:` lacks the prefix and still yields another tag |
| ErrorKinds.KindOf400 | src/error.rs:205-221 | a 400 is told by its prefix, in whatever order they are tried, and without one by its code |
| ErrorKinds.KindByStatus | src/error.rs:222-237 | other kinds are told by status, among 401 by the code and among 503 by the whole message |
| ErrorKinds.TagAgreesWithKind | src/error.rs:201-261 | with a tag the status is 400 and the kind is rejected or failed, except exactly on messages another prefix shadows |
| ErrorKinds.ShadowedTagExists | src/error.rs:201-261 | such a message exists |
| ErrorKinds.TagByKind | src/error.rs:201-261 | a rejection has a tag iff it reads `Rejected: <tag>`, a failed transaction iff it reads `<OP> failed: <tag>`, any other error only as a shadowed failure |
| Webhook.ConstantTimeEq | src/webhook.rs:278-287 | the or-of-xor fold is true iff the byte strings are equal |
| Webhook.ComputeSignature | src/webhook.rs:261-276 | the signature is `v1=` and two lower-case hex digits for each byte of the MAC of timestamp, dot and payload |
| Webhook.VerifyPayload | src/webhook.rs:221-257 | the chain of checks is the specification, errors and their contents included |
| Webhook.AcceptedIff | src/webhook.rs:214-257 | accepted iff the timestamp is an `i64`, the true distance is within the tolerance or it is zero, and the signature is `v1=` and the lower-case hex MAC of timestamp, dot and payload |
| Webhook.RefusedIff | src/webhook.rs:229-254 | one cause for each error, and what it carries: the timestamp, or the wrapped age and the tolerance |
| Webhook.ReportedAgeIff | src/webhook.rs:235-245 | the reported age is the true distance iff the timestamp is at most 2^63 s in the past |
| Webhook.ReportedAgeMayWrap | src/webhook.rs:235-245 | the least `i64` is reported younger than it is |

| Webhook.AgeIsDistance | src/webhook.rs:235-239 | the wrapped age is the true distance, or 2^64 less it when the subtraction leaves `i64` |
| Webhook.FreshIffWithinTolerance | src/webhook.rs:233-246 | below 2^62 the freshness check is exactly the documented one, for every `i64` timestamp |
| Webhook.WrappingShowsIff | src/webhook.rs:235-246 | it is right for every window iff `ts - now` fits in an `i64` |
| Webhook.SignedVerifiesIff | src/webhook.rs:199-207 | what is signed at one time verifies at another exactly inside the tolerance window |
| Webhook.SplitUndoesFraming | src/webhook.rs:259-265 | splitting at the first dot recovers timestamp and payload iff the timestamp has no dot |
| Webhook.FramingInjective | src/webhook.rs:259-265 | on accepted timestamps the framing is injective |
| Webhook.FramingAmbiguous | src/webhook.rs:209-212 | on others it is not |
| Webhook.SignatureBinds | src/webhook.rs:221-257 | one signature is accepted for one timestamp and payload only, or the MAC collided |
| ByteText.ParseI64Iff | src/webhook.rs:229-231 | accepted are at most one sign and then digits, at least one, read by their places, that fit an `i64`: nothing else |
| ByteText.PrintedIsCanonical | src/webhook.rs:199-207 | what is printed has no plus sign and no leading zero |
| ByteText.ParsePrinted | src/webhook.rs:229-231 | parsing undoes printing on all of `i64` and rejects every other integer |
| ByteText.ParseSigned | src/webhook.rs:229-231 | digits are read alike with a plus sign or none, and negated with a minus sign |
| ByteText.ParsedHasNoDot | src/webhook.rs:229-231 | an accepted timestamp has no dot |
| ByteText.HexIsHexOf | src/webhook.rs:271-275 | the hex text is two digits of `0`-`9` and `a`-`f` per byte, high before low, that make it, and no other text is |
| ByteText.HexInjective | src/webhook.rs:271-275 | equal hex means equal bytes |
| RequestReader.ReadRequest | tests/common/mod.rs:153-195 | the two read loops compute the specification, panics included |
| RequestReader.ChunkIndependent | tests/common/mod.rs:153-195 | for every split into reads the result is that of the whole stream, under the size limit or with the header one read below it |
| RequestReader.OversizedAlways | tests/common/mod.rs:162-163 | a header ending past the limit is refused for every split |
| RequestReader.ReadsMatterNearTheLimit | tests/common/mod.rs:156-166 | with the header ending within one read below the limit and the stream reaching it, one split gives the result of the whole stream and another is refused |
| RequestReader.SplitsAgreeIff | tests/common/mod.rs:153-195 | all splits of a stream agree iff it is not a well-formed request of that kind |
| RequestReader.FramedByContentLength | tests/common/mod.rs:164-195 | first blank line and Content-Length frame the request; bytes beyond are ignored |
| RequestReader.FramedIff | tests/common/mod.rs:164-195 | a stream is framed as a request iff it is a header block, ending in its first blank line, that parses, and a body of its length |
| RequestReader.LowerAscii | tests/common/mod.rs:173-176 | header names fold A to Z and nothing else |
| RequestFormat.ParseHeadIff | tests/common/mod.rs:168-179 | a block parses iff it decodes, its first line holds two words, and its length, if any, is a `usize` |
| RequestFormat.LinesJoin | tests/common/mod.rs:169 | the text is cut at every CRLF and nowhere else |
| RequestFormat.HeaderLineReads | tests/common/mod.rs:172-176 | whitespace around name and value is dropped, the first colon parts them, a later line wins |
| RequestFormat.ParseUsizeIff | tests/common/mod.rs:177-179 | a length is digits after at most one plus sign, and fits 64 bits |
| RequestFormat.HeadReadsBack | tests/common/mod.rs:168-179 | a formatted head parses back to its verb, path and header map |
| RequestFormat.RequestReadsBack | tests/common/mod.rs:153-195 | a block that decodes to a formatted head comes back field by field, with its body, from every split |
| RequestFormat.WrittenReadsBack | tests/common/mod.rs:153-195 | so do the UTF-8 bytes of any formatted head, whose first blank line is its end |
| Unicode.EncodedBits | tests/common/mod.rs:168 | the bit patterns of section 3 of RFC 3629: as many bytes as the scalar needs, its bits in order |
| Unicode.EncodeInjective | tests/common/mod.rs:168 | different texts have different UTF-8 bytes, so a decoder that undoes encoding exists |
| RequestFormat.ReadsMatterForSome | tests/common/mod.rs:156-166 | a well-formed request that one split reads and another is refused for |
| ClientConfig.AcceptedIff | src/config.rs:88-106 | accepted iff the input is scheme, nonempty host without slash or whitespace, and nothing or a path |
| ClientConfig.NormalizeSplits | src/config.rs:92-106 | the input is the result and slashes; the result is a fixed point without a trailing slash |
| ClientConfig.SlashesDoNotMatter | src/config.rs:92-106 | appending slashes changes neither acceptance nor result |
| ClientConfig.Canonical | src/config.rs:92-106 | two accepted inputs have one result iff they differ in trailing slashes only |
| ClientConfig.OneSlashAtTheJoint | src/client.rs:51-54 | an `/api/` path meets the base with exactly one slash |

## Left out

- Client.TokenManager: the object's methods run alone; the lock and the interleaving of awaits are in TokenProtocol, not in the class.
- Client.MpcClient.New: does not model the failure to build an HTTP client, which only the TLS backend can cause.
- Transactions.CreateTransactionWithHeaders: takes the request's JSON and the reading of a reply's fields as parameters.
- RequestReader.ReadRequest: UTF-8 decoding is a parameter, of which only `WrittenReadsBack` and `ReadsMatterForSome` assume that it undoes encoding, as some function does (`SomeDecodesUtf8`); a read timeout counts as a closed connection.
- SubmittedSends.FirstReplyReceived: a submission begins when a token is in hand; a send whose first acquisition fails never reaches it.
- Client.Gateway.PostToken: the worker's dispatch on the path is two methods, one per kind of request.
- JSON text: a reply's bytes are known by whether they decode to an error body, to a value, to both or to neither.
- HMAC-SHA256 itself and the timing of the comparison; only what is computed is in scope.
- The 200 s timeout and real time-outs: a call that times out is a call that failed.
- Debug-build overflow panics on the two wrapping subtractions.
- The gateway beyond its documented contract: policy checks, signing lanes, permits.
- `account`, `asset`, `wallet`, `transfer`, `x402`, list and get wrappers, the tables of known tags and event types: thin or constant.
- The single-status arms of `kind` and the legacy `is_not_found` family: each is settled by one branch.
