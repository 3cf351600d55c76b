/** Classification of API errors and extraction of their reason tags (src/error.rs). */
module ErrorKinds {
  import opened Options
  import opened Errors
  import opened Text
  import opened ReasonTags

  const REJECTED_PREFIX := "Rejected: "
  const DUPLICATE_PREFIX := "Duplicate reference_id"
  const UNSUPPORTED_PREFIX := "Unsupported operation"
  const ENGINE_BUSY_MESSAGE := "Signing service is busy, retry later"
  const CHAIN_RPC_MESSAGE := "Chain RPC unavailable; cannot verify request"
  const FAILED := " failed: "

  datatype ApiErrorKind =
    | Rejected | DuplicateReferenceId | UnsupportedOperation | InsufficientBalance | TransactionFailed | BadRequest
    | TokenExpired | Unauthorized | Forbidden | NotFound | Conflict | EndpointRetired | RateLimited
    | EngineBusy | ChainRpcUnavailable | ServiceUnavailable | ServerError | Other

  function Kind(error: Error): Option<ApiErrorKind> {
    if !error.Api? then None else
      var status, body := error.status, error.body;
      Some(
        if status == 400 then
          if REJECTED_PREFIX <= body.message then Rejected
          else if DUPLICATE_PREFIX <= body.message then DuplicateReferenceId
          else if UNSUPPORTED_PREFIX <= body.message then UnsupportedOperation
          else if body.code == INSUFFICIENT_BALANCE then InsufficientBalance
          else if body.code == TRANSACTION_FAILED then TransactionFailed
          else BadRequest
        else if status == 401 then
          if body.code == TOKEN_EXPIRED then TokenExpired else Unauthorized
        else if status == 403 then Forbidden
        else if status == 404 then NotFound
        else if status == 409 then Conflict
        else if status == 410 then EndpointRetired
        else if status == 429 then RateLimited
        else if status == 503 then
          if body.message == ENGINE_BUSY_MESSAGE then EngineBusy
          else if body.message == CHAIN_RPC_MESSAGE then ChainRpcUnavailable
          else ServiceUnavailable
        else if 500 <= status <= 599 then ServerError
        else Other)
  }

  function TagOf(rest: string): Option<string> {
    var tag := Trim(UpTo(rest, ':'));
    if IsReasonTag(tag) then Some(tag) else None
  }

  function ReasonTag(error: Error): Option<string> {
    if !error.Api? || error.status != 400 then None else
      var message := error.body.message;
      var rest :=
        if REJECTED_PREFIX <= message then StripPrefix(message, REJECTED_PREFIX)
        else if error.body.code == TRANSACTION_FAILED then AfterFirst(message, FAILED)
        else None;
      if rest.None? then None else TagOf(rest.value)
  }

  // ---- the message grammar ----

  /** A tag, with whitespace around it, up to a colon or the end. */
  ghost predicate TagText(rest: string, tag: string, w1: string, w2: string, tail: string) {
    && rest == w1 + tag + w2 + tail
    && AllWhitespace(w1) && AllWhitespace(w2)
    && (tail == "" || tail[0] == ':')
  }

  ghost predicate OpensWithTag(rest: string, tag: string) {
    exists w1, w2, tail :: TagText(rest, tag, w1, w2, tail)
  }

  /** `Rejected: <tag>[: <detail>]` */
  ghost predicate RejectedForm(message: string, tag: string) {
    REJECTED_PREFIX <= message && OpensWithTag(message[|REJECTED_PREFIX|..], tag)
  }

  /** `<op> failed: <tag>[: <detail>]`, where this is the first ` failed: ` there is. */
  ghost predicate FailedWith(message: string, op: string, rest: string) {
    message == op + FAILED + rest && !Contains(op + " ", FAILED)
  }

  ghost predicate FailedForm(message: string, tag: string) {
    exists op, rest :: FailedWith(message, op, rest) && OpensWithTag(rest, tag)
  }

  lemma TagIsTrimmed(tag: string)
    requires IsReasonTag(tag)
    ensures Trimmed(tag) && tag != "" && ':' !in tag
  {
    TagCharacters(tag);
  }

  lemma TagOfIff(rest: string, tag: string)
    ensures TagOf(rest) == Some(tag) <==> IsReasonTag(tag) && OpensWithTag(rest, tag)
  {
    var head := UpTo(rest, ':');
    if TagOf(rest) == Some(tag) {
      var w1, w2 := TrimSplits(head);
      assert rest == head + rest[|head|..];
      assert TagText(rest, tag, w1, w2, rest[|head|..]);
    }
    if IsReasonTag(tag) && OpensWithTag(rest, tag) {
      var w1, w2, tail :| TagText(rest, tag, w1, w2, tail);
      TagIsTrimmed(tag);
      assert ':' !in w1 && ':' !in w2;
      UpToOf(w1 + tag + w2, ':', tail);
      TrimOf(w1, tag, w2);
    }
  }

  /**
   The message splits right after `op` exactly when `op` and one space contain no
   ` failed: ` of their own: the separator overlaps itself in that one space only.
   */
  lemma SplitsAfterOperation(op: string, rest: string)
    ensures Find(op + FAILED + rest, FAILED) == Some(|op|) <==> !Contains(op + " ", FAILED)
  {
    var message := op + FAILED + rest;
    assert message[..|op| + 1] == op + " ";
    assert OccursAt(message, FAILED, |op|);
    forall i | 0 <= i < |op| && |op| + 1 < i + |FAILED| ensures !OccursAt(message, FAILED, i) {
      assert message[|op|] == ' ' != FAILED[|op| - i];
      assert message[i..i + |FAILED|][|op| - i] == message[|op|];
    }
    forall i | OccursAt(message, FAILED, i) && i < |op| ensures OccursAt(op + " ", FAILED, i) {
      assert message[..|op| + 1][i..i + |FAILED|] == message[i..i + |FAILED|];
    }
    forall i | OccursAt(op + " ", FAILED, i) ensures OccursAt(message, FAILED, i) && i < |op| {
      assert message[..|op| + 1][i..i + |FAILED|] == message[i..i + |FAILED|];
    }
  }

  lemma AfterFirstIff(message: string, rest: string)
    ensures AfterFirst(message, FAILED) == Some(rest) <==> exists op :: FailedWith(message, op, rest)
  {
    if AfterFirst(message, FAILED) == Some(rest) {
      var at := Find(message, FAILED).value;
      var op := message[..at];
      assert message == op + FAILED + rest;
      SplitsAfterOperation(op, rest);
      assert FailedWith(message, op, rest);
    }
    if exists op :: FailedWith(message, op, rest) {
      var op :| FailedWith(message, op, rest);
      SplitsAfterOperation(op, rest);
    }
  }

  /** Extraction inverts the message grammar, for every error and every would-be tag. */
  lemma ReasonTagIff(error: Error, tag: string)
    ensures ReasonTag(error) == Some(tag) <==>
              && error.Api? && error.status == 400 && IsReasonTag(tag)
              && (if REJECTED_PREFIX <= error.body.message then RejectedForm(error.body.message, tag)
                  else error.body.code == TRANSACTION_FAILED && FailedForm(error.body.message, tag))
  {
    if error.Api? && error.status == 400 {
      var message := error.body.message;
      if REJECTED_PREFIX <= message {
        TagOfIff(message[|REJECTED_PREFIX|..], tag);
      } else if error.body.code == TRANSACTION_FAILED {
        if ReasonTag(error) == Some(tag) {
          var rest := AfterFirst(message, FAILED).value;
          TagOfIff(rest, tag);
          AfterFirstIff(message, rest);
        }
        if IsReasonTag(tag) && FailedForm(message, tag) {
          var op, rest :| FailedWith(message, op, rest) && OpensWithTag(rest, tag);
          TagOfIff(rest, tag);
          AfterFirstIff(message, rest);
        }
      }
    }
  }

  // ---- formatting, then extracting ----

  lemma RejectedRoundTrip(body: ErrorBody, tag: string, detail: string)
    requires IsReasonTag(tag) && body.message == REJECTED_PREFIX + tag + ": " + detail
    ensures ReasonTag(Api(400, body)) == Some(tag) && Kind(Api(400, body)) == Some(Rejected)
  {
    var rest := body.message[|REJECTED_PREFIX|..];
    assert TagText(rest, tag, "", "", ": " + detail);
    ReasonTagIff(Api(400, body), tag);
  }

  /** `OP`, and the space that follows it, neither opens with the rejection prefix nor contains the separator. */
  ghost predicate PlainOperation(op: string) {
    !(REJECTED_PREFIX <= op + " ") && !Contains(op + " ", FAILED)
  }

  /** `OP failed: <tag>` gives its tag back after a plain operation. The space counts: see below. */
  lemma FailedRoundTrip(body: ErrorBody, op: string, tag: string)
    requires IsReasonTag(tag) && body.message == op + FAILED + tag && body.code == TRANSACTION_FAILED
    requires PlainOperation(op)
    ensures ReasonTag(Api(400, body)) == Some(tag)
  {
    PrefixNeedsOperation(op, tag);
    assert TagText(tag, tag, "", "", "");
    assert FailedWith(body.message, op, tag);
    ReasonTagIff(Api(400, body), tag);
  }

  lemma PrefixNeedsOperation(op: string, rest: string)
    ensures REJECTED_PREFIX <= op + FAILED + rest <==> REJECTED_PREFIX <= op + " "
  {
    var message := op + FAILED + rest;
    assert message[..|op| + 1] == op + " ";
    assert forall k :: 1 <= k < |REJECTED_PREFIX| ==> REJECTED_PREFIX[k] != 'f';
    assert message[|op| + 1] == 'f';
    if REJECTED_PREFIX <= message {
      assert |REJECTED_PREFIX| <= |op| + 1;
      assert message[..|op| + 1][..|REJECTED_PREFIX|] == message[..|REJECTED_PREFIX|];
    }
  }

  /** The error a failed operation is reported as. */
  function FailureOf(op: string, tag: string, errorType: string): Error {
    Api(400, ErrorBody(TRANSACTION_FAILED, errorType, op + FAILED + tag))
  }

  /** What follows `OP` up to the colon of its own ` failed: `, from byte `n` of `OP` and a space on. */
  function Lead(op: string, n: nat): (lead: string)
    requires n <= |op| + 1
    ensures ':' in lead
  {
    var lead := (op + " ")[n..] + "failed:";
    assert lead[|lead| - 1] == ':';
    lead
  }

  /** Where a message is cut after any other operation: no further than the space after it. */
  ghost function Cut(op: string): (n: nat)
    requires !PlainOperation(op)
    ensures n <= |op| + 1
  {
    if REJECTED_PREFIX <= op + " " then |REJECTED_PREFIX| else Find(op + " ", FAILED).value + |FAILED|
  }

  lemma SpaceAfterOperation(op: string, tag: string)
    ensures op + FAILED + tag == (op + " ") + ("failed: " + tag)
    ensures op + " " <= op + FAILED + tag
  {
  }

  lemma LeadFollows(op: string, tag: string, n: nat)
    requires n <= |op| + 1
    ensures (op + FAILED + tag)[n..] == Lead(op, n) + (" " + tag)
  {
    SpaceAfterOperation(op, tag);
    assert ((op + " ") + ("failed: " + tag))[n..] == (op + " ")[n..] + ("failed: " + tag);
    assert "failed: " == "failed:" + " ";
  }

  lemma CutIsFirst(op: string, tag: string)
    requires Contains(op + " ", FAILED)
    ensures Find(op + FAILED + tag, FAILED) == Find(op + " ", FAILED)
  {
    SpaceAfterOperation(op, tag);
    FindStays(op + " ", op + FAILED + tag, FAILED);
  }

  /** So the colon that ends the extracted text comes before the tag. */
  lemma CutEarly(op: string, tag: string, errorType: string)
    requires !PlainOperation(op)
    ensures ReasonTag(FailureOf(op, tag, errorType)) == TagOf(Lead(op, Cut(op)) + (" " + tag))
  {
    var message := op + FAILED + tag;
    PrefixNeedsOperation(op, tag);
    LeadFollows(op, tag, Cut(op));
    if REJECTED_PREFIX <= op + " " {
      assert StripPrefix(message, REJECTED_PREFIX) == Some(message[Cut(op)..]);
    } else {
      CutIsFirst(op, tag);
      assert AfterFirst(message, FAILED) == Some(message[Cut(op)..]);
    }
  }

  /** After any other operation the tag is not even looked at: what is extracted is the same for all tags. */
  lemma TagIgnored(op: string, tag1: string, tag2: string, errorType: string)
    requires !PlainOperation(op)
    ensures ReasonTag(FailureOf(op, tag1, errorType)) == ReasonTag(FailureOf(op, tag2, errorType))
  {
    CutEarly(op, tag1, errorType);
    CutEarly(op, tag2, errorType);
    UpToStops(Lead(op, Cut(op)), " " + tag1, " " + tag2, ':');
  }

  /** All tags come back exactly after a plain operation. */
  lemma FailedRoundTripIff(op: string, errorType: string)
    ensures (forall tag | IsReasonTag(tag) :: ReasonTag(FailureOf(op, tag, errorType)) == Some(tag))
            <==> PlainOperation(op)
  {
    if PlainOperation(op) {
      forall tag | IsReasonTag(tag) ensures ReasonTag(FailureOf(op, tag, errorType)) == Some(tag) {
        FailedRoundTrip(FailureOf(op, tag, errorType).body, op, tag);
      }
    } else {
      HeadIsTag("a");
      HeadIsTag("b");
      TagIgnored(op, "a", "b", errorType);
    }
  }

  lemma NoSeparator(s: string)
    requires forall i :: 0 <= i && i + |FAILED| <= |s| ==> s[i] != ' ' || s[i + 7] != ':'
    ensures !Contains(s, FAILED)
  {
    forall i ensures !OccursAt(s, FAILED, i) {
      if 0 <= i && i + |FAILED| <= |s| {
        assert s[i..i + |FAILED|][0] == s[i] && s[i..i + |FAILED|][7] == s[i + 7];
      }
    }
  }

  /** An operation that merely lacks the prefix is not enough: `Rejected:` borrows the separator's space. */
  lemma RejectedColonOperation(body: ErrorBody)
    requires body.message == "Rejected:" + FAILED + "shape"
    ensures !(REJECTED_PREFIX <= "Rejected:") && !Contains("Rejected:" + " ", FAILED)
    ensures !PlainOperation("Rejected:")
    ensures ReasonTag(Api(400, body)) == Some("failed")
  {
    NoSeparator("Rejected:" + " ");
    var rest := "failed" + ": " + "shape";
    assert body.message == REJECTED_PREFIX + rest;
    HeadIsTag("failed");
    RejectedRoundTrip(body, "failed", "shape");
  }

  // ---- what each kind stands for ----

  /** The three prefixes exclude each other, so the order they are looked for in does not matter. */
  lemma PrefixesExclusive(message: string)
    ensures !("Rejected: " <= message && "Duplicate reference_id" <= message)
    ensures !("Rejected: " <= message && "Unsupported operation" <= message)
    ensures !("Duplicate reference_id" <= message && "Unsupported operation" <= message)
  {
    assert "Rejected: "[0] == 'R' && "Duplicate reference_id"[0] == 'D' && "Unsupported operation"[0] == 'U';
  }

  predicate Unprefixed(message: string) {
    !("Rejected: " <= message) && !("Duplicate reference_id" <= message) && !("Unsupported operation" <= message)
  }

  /** A 400 is told by its prefix, whatever its code, and without one by its code. */
  lemma KindOf400(body: ErrorBody)
    ensures var kind := Kind(Api(400, body)); var message := body.message;
            && (kind == Some(Rejected) <==> "Rejected: " <= message)
            && (kind == Some(DuplicateReferenceId) <==> "Duplicate reference_id" <= message)
            && (kind == Some(UnsupportedOperation) <==> "Unsupported operation" <= message)
            && (kind == Some(InsufficientBalance) <==> Unprefixed(message) && body.code == "insufficient_balance")
            && (kind == Some(TransactionFailed) <==> Unprefixed(message) && body.code == "transaction_failed")
            && (kind == Some(BadRequest) <==>
                  Unprefixed(message) && body.code != "insufficient_balance" && body.code != "transaction_failed")
  {
    PrefixesExclusive(body.message);
    assert "insufficient_balance"[0] != "transaction_failed"[0];
  }

  /** Every other kind is told by its status; among 401 by the code, among 503 by the whole message. */
  lemma KindByStatus(error: Error)
    requires error.Api? && error.status != 400
    ensures var kind, status := Kind(error), error.status;
            && (kind == Some(TokenExpired) <==> status == 401 && error.body.code == "token_expired")
            && (kind == Some(Unauthorized) <==> status == 401 && error.body.code != "token_expired")
            && (kind == Some(Forbidden) <==> status == 403)
            && (kind == Some(NotFound) <==> status == 404)
            && (kind == Some(Conflict) <==> status == 409)
            && (kind == Some(EndpointRetired) <==> status == 410)
            && (kind == Some(RateLimited) <==> status == 429)
            && (kind == Some(EngineBusy) <==>
                  status == 503 && error.body.message == "Signing service is busy, retry later")
            && (kind == Some(ChainRpcUnavailable) <==>
                  status == 503 && error.body.message == "Chain RPC unavailable; cannot verify request")
            && (kind == Some(ServerError) <==> 500 <= status <= 599 && status != 503)
            && (status == 503 ==>
                  kind == Some(EngineBusy) || kind == Some(ChainRpcUnavailable) || kind == Some(ServiceUnavailable))
            && (kind == Some(ServiceUnavailable) ==> status == 503)
            && (kind == Some(Other) <==> status !in {401, 403, 404, 409, 410, 429} && !(500 <= status <= 599))
  {
    assert ENGINE_BUSY_MESSAGE[0] != CHAIN_RPC_MESSAGE[0];
  }

  // ---- the extractor and the classifier agree ----

  /** The messages on which the two disagree: an unrejected one with a prefix of another kind. */
  predicate PrefixShadows(message: string) {
    !(REJECTED_PREFIX <= message) && (DUPLICATE_PREFIX <= message || UNSUPPORTED_PREFIX <= message)
  }

  lemma TagAgreesWithKind(error: Error)
    requires ReasonTag(error).Some?
    ensures error.status == 400
    ensures Kind(error) == Some(Rejected) <==> REJECTED_PREFIX <= error.body.message
    ensures Kind(error) == Some(Rejected) || Kind(error) == Some(TransactionFailed)
            <==> !PrefixShadows(error.body.message)
    ensures Kind(error) == Some(DuplicateReferenceId) <==>
              PrefixShadows(error.body.message) && DUPLICATE_PREFIX <= error.body.message
    ensures Kind(error) == Some(UnsupportedOperation) <==>
              PrefixShadows(error.body.message) && UNSUPPORTED_PREFIX <= error.body.message
  {
    assert DUPLICATE_PREFIX[0] != UNSUPPORTED_PREFIX[0];
  }

  /** The exception is real: a tag can be extracted from what is classified as a duplicate. */
  lemma ShadowedTagExists()
    ensures var body := ErrorBody(TRANSACTION_FAILED, "", DUPLICATE_PREFIX + FAILED + "shape");
            ReasonTag(Api(400, body)) == Some("shape") && Kind(Api(400, body)) == Some(DuplicateReferenceId)
  {
    var op := DUPLICATE_PREFIX;
    var body := ErrorBody(TRANSACTION_FAILED, "", op + FAILED + "shape");
    assert ':' !in op;
    NoSeparator(op + " ");
    assert AllAlnum("shape") && IsLower("shape"[0]);
    HeadIsTag("shape");
    assert (op + " ")[0] != REJECTED_PREFIX[0];
    FailedRoundTrip(body, op, "shape");
    assert body.message[0] == 'D';
    assert op <= body.message;
  }

  /**
   Read by kind: a rejection has a tag exactly in the rejected form, a failed transaction
   exactly in the failed form, and of the other kinds only a shadowed one has any.
   */
  lemma TagByKind(error: Error, tag: string)
    requires IsReasonTag(tag)
    ensures Kind(error) == Some(Rejected) ==>
              (ReasonTag(error) == Some(tag) <==> RejectedForm(error.body.message, tag))
    ensures Kind(error) == Some(TransactionFailed) ==>
              (ReasonTag(error) == Some(tag) <==> FailedForm(error.body.message, tag))
    ensures Kind(error) != Some(Rejected) && Kind(error) != Some(TransactionFailed) ==>
              (ReasonTag(error) == Some(tag) <==>
                && error.Api? && error.status == 400 && error.body.code == TRANSACTION_FAILED
                && PrefixShadows(error.body.message) && FailedForm(error.body.message, tag))
  {
    ReasonTagIff(error, tag);
  }
}
