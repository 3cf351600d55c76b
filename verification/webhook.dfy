/**
 Webhook signing and verification (src/webhook.rs). HMAC-SHA256 (RFC 2104) is a
 parameter: any function from key and message to a tag.
 */
module Webhook {
  import opened Options
  import opened MachineInts
  import opened ByteText

  type Mac = (Bytes, Bytes) -> Bytes

  datatype Duration = Duration(secs: U64, nanos: nat)

  datatype WebhookError =
    | InvalidTimestamp(timestamp: Bytes)
    | TimestampExpired(ageSecs: nat, toleranceSecs: nat)
    | SignatureMismatch

  const VERSION: Bytes := [0x76, 0x31, 0x3d]   // "v1="

  function Canonical(timestamp: Bytes, payload: Bytes): Bytes {
    timestamp + [DOT] + payload
  }

  function Signature(mac: Mac, secret: Bytes, timestamp: Bytes, payload: Bytes): Bytes {
    VERSION + Hex(mac(secret, Canonical(timestamp, payload)))
  }

  method ComputeSignature(mac: Mac, secret: Bytes, timestamp: Bytes, payload: Bytes) returns (signature: Bytes)
    ensures signature == Signature(mac, secret, timestamp, payload)
    ensures Signed(mac, secret, timestamp, payload, signature)
  {
    var canonical: Bytes := [];
    canonical := canonical + timestamp;
    canonical := canonical + [DOT];
    canonical := canonical + payload;
    assert canonical == Canonical(timestamp, payload);
    signature := VERSION + Hex(mac(secret, canonical));
    SignedIff(mac, secret, timestamp, payload, signature);
  }

  method ConstantTimeEq(a: Bytes, b: Bytes) returns (equal: bool)
    ensures equal <==> a == b
  {
    if |a| != |b| {
      return false;
    }
    var acc: Byte := 0;
    for i := 0 to |a|
      invariant acc == 0 <==> a[..i] == b[..i]
    {
      OrXorIsZero(acc, a[i], b[i]);
      acc := acc | (a[i] ^ b[i]);
      assert a[..i + 1] == a[..i] + [a[i]] && b[..i + 1] == b[..i] + [b[i]];
    }
    assert a[..|a|] == a && b[..|b|] == b;
    return acc == 0;
  }

  lemma OrXorIsZero(acc: Byte, x: Byte, y: Byte)
    ensures acc | (x ^ y) == 0 <==> acc == 0 && x == y
  {
  }

  // ---- freshness ----

  /** `(now as i64 - ts).unsigned_abs()` in release arithmetic. */
  function Age(now: U64, ts: I64): nat {
    var diff: int := WrapI64(WrapI64(now) - ts);
    if diff < 0 then -diff else diff
  }

  predicate Fresh(now: U64, ts: I64, tolerance: Duration) {
    (tolerance.secs == 0 && tolerance.nanos == 0) || Age(now, ts) <= tolerance.secs
  }

  function Distance(x: int, y: int): nat {
    if x < y then y - x else x - y
  }

  /**
   The age is the true distance unless `now - ts` leaves `i64`, and then it is the
   distance to the next multiple of 2^64.
   */
  lemma AgeIsDistance(now: U64, ts: I64)
    requires now < TWO_63
    ensures Age(now, ts) == if now - ts < TWO_63 then Distance(now, ts) else TWO_64 - Distance(now, ts)
  {
    var x := now - ts;
    if x >= TWO_63 {
      assert (x + TWO_63) % TWO_64 == x + TWO_63 - TWO_64;
    }
  }

  /** For clocks and windows below 2^62 seconds wrapping never shows: the check is the documented one. */
  lemma FreshIffWithinTolerance(now: U64, ts: I64, tolerance: Duration)
    requires now < 0x4000_0000_0000_0000 && tolerance.secs < 0x4000_0000_0000_0000
    ensures Fresh(now, ts, tolerance) <==>
              (tolerance.secs == 0 && tolerance.nanos == 0) || Distance(now, ts) <= tolerance.secs
  {
    AgeIsDistance(now, ts);
  }

  /** At any time an `i64` can hold, the check is right for every window exactly when `ts - now` fits in an `i64`. */
  lemma WrappingShowsIff(now: U64, ts: I64)
    requires now < TWO_63
    ensures -TWO_63 <= ts - now <==>
              forall tolerance: Duration :: tolerance.secs > 0 ==>
                (Fresh(now, ts, tolerance) <==> Distance(now, ts) <= tolerance.secs)
  {
    AgeIsDistance(now, ts);
    if ts - now < -TWO_63 {
      var window := Duration(TWO_64 - Distance(now, ts), 0);
      assert Fresh(now, ts, window) && Distance(now, ts) > window.secs;
    }
  }

  // ---- verification ----

  type Verdict = Outcome<(), WebhookError>

  function Verify(mac: Mac, secret: Bytes, timestamp: Bytes, payload: Bytes, signature: Bytes,
                  tolerance: Duration, now: U64): Verdict
  {
    var ts := ParseI64(timestamp);
    if ts.None? then Err(InvalidTimestamp(timestamp))
    else if !Fresh(now, ts.value, tolerance) then Err(TimestampExpired(Age(now, ts.value), tolerance.secs))
    else if signature != Signature(mac, secret, timestamp, payload) then Err(SignatureMismatch)
    else Ok(())
  }

  method VerifyPayload(mac: Mac, secret: Bytes, timestamp: Bytes, payload: Bytes, signature: Bytes,
                       tolerance: Duration, now: U64) returns (verdict: Verdict)
    ensures verdict == Verify(mac, secret, timestamp, payload, signature, tolerance, now)
  {
    var ts := ParseI64(timestamp);
    if ts.None? {
      return Err(InvalidTimestamp(timestamp));
    }
    if !(tolerance.secs == 0 && tolerance.nanos == 0) {
      var wrapped: int := WrapI64(WrapI64(now) - ts.value);
      var diff := if wrapped < 0 then -wrapped else wrapped;
      assert diff == Age(now, ts.value);
      if diff > tolerance.secs {
        return Err(TimestampExpired(diff, tolerance.secs));
      }
    }
    assert Fresh(now, ts.value, tolerance);
    var expected := ComputeSignature(mac, secret, timestamp, payload);
    var equal := ConstantTimeEq(expected, signature);
    if !equal {
      return Err(SignatureMismatch);
    }
    return Ok(());
  }

  /** What a caller may conclude from acceptance, and when to expect it. */
  lemma AcceptedIff(mac: Mac, secret: Bytes, timestamp: Bytes, payload: Bytes, signature: Bytes,
                    tolerance: Duration, now: U64)
    requires now < 0x4000_0000_0000_0000 && tolerance.secs < 0x4000_0000_0000_0000
    ensures Verify(mac, secret, timestamp, payload, signature, tolerance, now).Ok? <==>
              && ParseI64(timestamp).Some?
              && (tolerance == Duration(0, 0) || Distance(now, ParseI64(timestamp).value) <= tolerance.secs)
              && Signed(mac, secret, timestamp, payload, signature)
  {
    var ts := ParseI64(timestamp);
    if ts.Some? {
      FreshIffWithinTolerance(now, ts.value, tolerance);
    }
    SignedIff(mac, secret, timestamp, payload, signature);
  }

  /** `signature` is `v1=` and the hex of the MAC of the timestamp, a dot and the payload. */
  ghost predicate Signed(mac: Mac, secret: Bytes, timestamp: Bytes, payload: Bytes, signature: Bytes) {
    && 3 <= |signature| && signature[..3] == [0x76, 0x31, 0x3d]
    && IsHexOf(signature[3..], mac(secret, timestamp + [0x2e] + payload))
  }

  lemma SignedIff(mac: Mac, secret: Bytes, timestamp: Bytes, payload: Bytes, signature: Bytes)
    ensures Signed(mac, secret, timestamp, payload, signature)
            <==> signature == Signature(mac, secret, timestamp, payload)
  {
    var tag := mac(secret, Canonical(timestamp, payload));
    if 3 <= |signature| {
      HexIsHexOf(signature[3..], tag);
      assert signature == signature[..3] + signature[3..];
    }
    assert (VERSION + Hex(tag))[..3] == VERSION && (VERSION + Hex(tag))[3..] == Hex(tag);
  }

  /**
   Each refusal has its own cause and says what it was. The age it reports is the wrapped one:
   see `ReportedAgeIff`.
   */
  lemma RefusedIff(mac: Mac, secret: Bytes, timestamp: Bytes, payload: Bytes, signature: Bytes,
                   tolerance: Duration, now: U64)
    requires now < 0x4000_0000_0000_0000 && tolerance.secs < 0x4000_0000_0000_0000
    ensures var verdict := Verify(mac, secret, timestamp, payload, signature, tolerance, now);
            var ts := ParseI64(timestamp);
            && (forall t :: verdict == Err(InvalidTimestamp(t)) <==> ts.None? && t == timestamp)
            && (forall age, secs :: verdict == Err(TimestampExpired(age, secs)) <==>
                  && ts.Some? && tolerance != Duration(0, 0)
                  && age == (if now - ts.value < TWO_63 then Distance(now, ts.value)
                             else TWO_64 - Distance(now, ts.value))
                  && secs == tolerance.secs < Distance(now, ts.value))
            && (verdict == Err(SignatureMismatch) <==>
                  && ts.Some? && (tolerance == Duration(0, 0) || Distance(now, ts.value) <= tolerance.secs)
                  && !Signed(mac, secret, timestamp, payload, signature))
            && !verdict.Panicked?
  {
    SignedIff(mac, secret, timestamp, payload, signature);
    var ts := ParseI64(timestamp);
    if ts.Some? {
      FreshIffWithinTolerance(now, ts.value, tolerance);
      AgeIsDistance(now, ts.value);
    }
  }

  /** The age in a refusal is the true distance unless the timestamp is over 2^63 s in the past. */
  lemma ReportedAgeIff(mac: Mac, secret: Bytes, timestamp: Bytes, payload: Bytes, signature: Bytes,
                       tolerance: Duration, now: U64)
    requires now < 0x4000_0000_0000_0000 && tolerance.secs < 0x4000_0000_0000_0000
    requires var verdict := Verify(mac, secret, timestamp, payload, signature, tolerance, now);
             verdict.Err? && verdict.error.TimestampExpired?
    ensures var age := Verify(mac, secret, timestamp, payload, signature, tolerance, now).error.ageSecs;
            var ts := ParseI64(timestamp);
            ts.Some? && (age == Distance(now, ts.value) <==> now - ts.value <= TWO_63)
  {
    var error := Verify(mac, secret, timestamp, payload, signature, tolerance, now).error;
    RefusedIff(mac, secret, timestamp, payload, signature, tolerance, now);
    AgeIsDistance(now, ParseI64(timestamp).value);
  }

  /** Such a timestamp parses: the least `i64` is reported younger than it is. */
  lemma ReportedAgeMayWrap(mac: Mac, secret: Bytes, payload: Bytes, signature: Bytes)
    ensures var now: U64 := 1_700_000_000; var timestamp := PrintInt(-TWO_63);
            && Verify(mac, secret, timestamp, payload, signature, Duration(300, 0), now)
                 == Err(TimestampExpired(TWO_63 - now, 300))
            && TWO_63 - now < Distance(now, -TWO_63)
  {
    ParsePrinted(-TWO_63);
    RefusedIff(mac, secret, PrintInt(-TWO_63), payload, signature, Duration(300, 0), 1_700_000_000);
  }

  /** What is signed at `signedAt` verifies at `now`, with the same secret, exactly inside the tolerance window. */
  lemma SignedVerifiesIff(mac: Mac, secret: Bytes, payload: Bytes, signedAt: U64, tolerance: Duration, now: U64)
    requires now < TWO_63
    ensures var timestamp := PrintInt(signedAt);
            Verify(mac, secret, timestamp, payload, Signature(mac, secret, timestamp, payload), tolerance, now).Ok?
            <==> signedAt < TWO_63 && (tolerance == Duration(0, 0) || Distance(now, signedAt) <= tolerance.secs)
  {
    ParsePrinted(signedAt);
    if signedAt < TWO_63 {
      AgeIsDistance(now, signedAt);
    }
  }

  // ---- framing and binding ----

  function SplitAtDot(canonical: Bytes): (Bytes, Bytes)
    requires DOT in canonical
  {
    if canonical[0] == DOT then ([], canonical[1..]) else
      var (timestamp, payload) := SplitAtDot(canonical[1..]);
      ([canonical[0]] + timestamp, payload)
  }

  /** The framing is undone at its first dot exactly when the timestamp has none. */
  lemma {:induction false} SplitUndoesFraming(timestamp: Bytes, payload: Bytes)
    ensures DOT in Canonical(timestamp, payload)
    ensures SplitAtDot(Canonical(timestamp, payload)) == (timestamp, payload) <==> DOT !in timestamp
  {
    var canonical := Canonical(timestamp, payload);
    assert canonical[|timestamp|] == DOT;
    if timestamp == [] {
      assert canonical == [DOT] + payload;
    } else if timestamp[0] != DOT {
      SplitUndoesFraming(timestamp[1..], payload);
      assert canonical[1..] == Canonical(timestamp[1..], payload);
      assert timestamp == [timestamp[0]] + timestamp[1..];
    }
  }

  /** On timestamps the verifier accepts, the framing is injective. */
  lemma FramingInjective(t1: Bytes, p1: Bytes, t2: Bytes, p2: Bytes)
    requires ParseI64(t1).Some? && ParseI64(t2).Some?
    requires Canonical(t1, p1) == Canonical(t2, p2)
    ensures t1 == t2 && p1 == p2
  {
    ParsedHasNoDot(t1);
    ParsedHasNoDot(t2);
    SplitUndoesFraming(t1, p1);
    SplitUndoesFraming(t2, p2);
  }

  /** On other timestamps, which signing accepts, it is not. */
  lemma FramingAmbiguous()
    ensures Canonical([0x31, DOT, 0x32], [0x33]) == Canonical([0x31], [0x32, DOT, 0x33])
    ensures ParseI64([0x31, DOT, 0x32]).None?
  {
    if ParseI64([0x31, DOT, 0x32]).Some? {
      ParsedHasNoDot([0x31, DOT, 0x32]);
    }
  }

  /** One signature accepts at most one timestamp and payload under one secret, or else the MAC has collided. */
  lemma SignatureBinds(mac: Mac, secret: Bytes, signature: Bytes,
                       t1: Bytes, p1: Bytes, tolerance1: Duration, now1: U64,
                       t2: Bytes, p2: Bytes, tolerance2: Duration, now2: U64)
    requires Verify(mac, secret, t1, p1, signature, tolerance1, now1).Ok?
    requires Verify(mac, secret, t2, p2, signature, tolerance2, now2).Ok?
    ensures (t1 == t2 && p1 == p2) ||
            (Canonical(t1, p1) != Canonical(t2, p2) &&
             mac(secret, Canonical(t1, p1)) == mac(secret, Canonical(t2, p2)))
  {
    var m1, m2 := mac(secret, Canonical(t1, p1)), mac(secret, Canonical(t2, p2));
    assert (VERSION + Hex(m1))[|VERSION|..] == Hex(m1) && (VERSION + Hex(m2))[|VERSION|..] == Hex(m2);
    HexInjective(m1, m2);
    if Canonical(t1, p1) == Canonical(t2, p2) {
      FramingInjective(t1, p1, t2, p2);
    }
  }
}
