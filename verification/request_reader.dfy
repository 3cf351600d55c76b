/**
 The fixture gateway's incremental HTTP/1.1 request reader (tests/common/mod.rs): header
 block up to the first blank line, body by Content-Length (RFC 9112, sections 2.1 and 6.3).

 A connection is the sequence of reads it will satisfy; after the last one it is closed.
 */
module RequestReader {
  import opened Options
  import opened MachineInts
  import opened Text
  import Decimal
  import ByteText

  type Bytes = ByteText.Bytes

  /** `String::from_utf8`. */
  type Utf8 = Bytes -> Option<string>

  datatype Call = Call(verb: string, path: string, headers: map<string, string>, body: Bytes)

  /** A read request, or a panic of the fixture: closed too early, oversized, or malformed. */
  type Result = Outcome<Call, ()>

  const BLANK_LINE: Bytes := [0x0d, 0x0a, 0x0d, 0x0a]
  const SIZE_LIMIT: nat := 0x10_0000
  const CHUNK: nat := 4096

  ghost predicate Reads(chunks: seq<Bytes>) {
    forall i :: 0 <= i < |chunks| ==> 0 < |chunks[i]| <= CHUNK
  }

  function Stream(chunks: seq<Bytes>): Bytes {
    if chunks == [] then [] else chunks[0] + Stream(chunks[1..])
  }

  // ---- the header block ----

  function Lines(text: string): seq<string>
    decreases |text|
  {
    var at := Find(text, "\r\n");
    if at.None? then [text] else [text[..at.value]] + Lines(text[at.value + 2..])
  }

  function Word(s: string): (word: string)
    ensures word <= s && NoWhitespace(word)
    ensures |word| < |s| ==> IsWhitespace(s[|word|])
  {
    if s == "" || IsWhitespace(s[0]) then "" else [s[0]] + Word(s[1..])
  }

  predicate IsUpper(c: char) {
    'A' <= c <= 'Z'
  }

  /** `to_ascii_lowercase`. */
  function LowerAscii(s: string): (lower: string)
    ensures |lower| == |s|
    ensures forall i :: 0 <= i < |s| ==> !IsUpper(lower[i])
    ensures forall i :: 0 <= i < |s| ==> lower[i] as int == s[i] as int + if IsUpper(s[i]) then 32 else 0
  {
    if s == "" then "" else
      [if IsUpper(s[0]) then s[0] - 'A' + 'a' else s[0]] + LowerAscii(s[1..])
  }

  /** `name: value` lines, names lower-cased, a later line replacing an earlier one. */
  function HeadersOf(lines: seq<string>): map<string, string> {
    if lines == [] then map[] else
      var earlier, line := HeadersOf(lines[..|lines| - 1]), lines[|lines| - 1];
      var colon := Find(line, ":");
      if colon.None? then earlier
      else earlier[LowerAscii(Trim(line[..colon.value])) := Trim(line[colon.value + 1..])]
  }

  /** `str::parse::<usize>`. */
  function ParseUsize(s: string): Option<nat> {
    var digits := if s != "" && s[0] == '+' then s[1..] else s;
    var ds := Decimal.Read(digits, Decimal.CharDigit);
    if digits == "" || ds.None? || Decimal.Value(ds.value) >= TWO_64 then None else Some(Decimal.Value(ds.value))
  }

  datatype Head = Head(verb: string, path: string, headers: map<string, string>, length: nat)

  /** `None` where an `unwrap` panics. */
  function ParseHead(utf8: Utf8, block: Bytes): Option<Head> {
    var text := utf8(block);
    if text.None? then None else
      var lines := Lines(text.value);
      var line := TrimStart(lines[0]);
      var verb := Word(line);
      var path := Word(TrimStart(line[|verb|..]));
      var headers := HeadersOf(lines[1..]);
      var length := if "content-length" in headers then ParseUsize(headers["content-length"]) else Some(0);
      if verb == "" || path == "" || length.None? then None else Some(Head(verb, path, headers, length.value))
  }

  // ---- framing ----

  /** Where the header block ends: just past the first blank line. */
  function HeaderEnd(bytes: Bytes): (end: Option<nat>)
    ensures end.Some? ==> end.value <= |bytes|
  {
    var at := Find(bytes, BLANK_LINE);
    if at.Some? then Some(at.value + 4) else None
  }

  /** The request a whole stream holds, read or not: nothing here knows of chunks or sizes. */
  function Framed(utf8: Utf8, stream: Bytes): Result {
    var end := HeaderEnd(stream);
    if end.None? then Panicked else
      var head := ParseHead(utf8, stream[..end.value]);
      if head.None? || |stream| < end.value + head.value.length then Panicked
      else Ok(CallOf(head.value, stream, end.value))
  }

  /** What the reads of the first loop gather, and the reads left. */
  function GatherHead(bytes: Bytes, chunks: seq<Bytes>): (gathered: Option<(Bytes, seq<Bytes>)>)
    ensures gathered.Some? ==> HeaderEnd(gathered.value.0).Some?
    decreases |chunks|
  {
    if chunks == [] then None else
      var more := bytes + chunks[0];
      if |more| >= SIZE_LIMIT then None
      else if HeaderEnd(more).Some? then Some((more, chunks[1..]))
      else GatherHead(more, chunks[1..])
  }

  function GatherBody(bytes: Bytes, chunks: seq<Bytes>, upTo: nat): (gathered: Option<Bytes>)
    ensures gathered.Some? ==> upTo <= |gathered.value|
    decreases |chunks|
  {
    if |bytes| >= upTo then Some(bytes)
    else if chunks == [] then None
    else GatherBody(bytes + chunks[0], chunks[1..], upTo)
  }

  function CallOf(head: Head, bytes: Bytes, end: nat): Call
    requires end + head.length <= |bytes|
  {
    Call(head.verb, head.path, head.headers, bytes[end..end + head.length])
  }

  function ReadBody(utf8: Utf8, bytes: Bytes, chunks: seq<Bytes>): Result
    requires HeaderEnd(bytes).Some?
  {
    var end := HeaderEnd(bytes).value;
    var head := ParseHead(utf8, bytes[..end]);
    if head.None? then Panicked else
      var all := GatherBody(bytes, chunks, end + head.value.length);
      if all.None? then Panicked else Ok(CallOf(head.value, all.value, end))
  }

  function Read(utf8: Utf8, chunks: seq<Bytes>): Result {
    var gathered := GatherHead([], chunks);
    if gathered.None? then Panicked else ReadBody(utf8, gathered.value.0, gathered.value.1)
  }

  /** `read_request`: two loops over reads of at most 4096 bytes. */
  method ReadRequest(utf8: Utf8, chunks: seq<Bytes>) returns (result: Result)
    ensures result == Read(utf8, chunks)
  {
    var i, bytes, headerEnd := ReadHeaders(chunks);
    if headerEnd.None? {
      return Panicked;
    }
    result := ReadRest(utf8, bytes, headerEnd.value, chunks, i);
  }

  /** What follows the header block: the head is parsed, and the body read to its length. */
  method ReadRest(utf8: Utf8, start: Bytes, headerEnd: nat, chunks: seq<Bytes>, from: nat) returns (result: Result)
    requires from <= |chunks| && HeaderEnd(start) == Some(headerEnd)
    ensures result == ReadBody(utf8, start, chunks[from..])
  {
    var head := ParseHead(utf8, start[..headerEnd]);
    if head.None? {
      return Panicked;
    }
    var upTo := headerEnd + head.value.length;
    var _, bytes := ExtendBody(start, chunks, from, upTo);
    if |bytes| < upTo {
      return Panicked;
    }
    return Ok(Call(head.value.verb, head.value.path, head.value.headers, bytes[headerEnd..upTo]));
  }

  /** The first loop; no header end when the connection closed or the request is oversized. */
  method ReadHeaders(chunks: seq<Bytes>) returns (i: nat, bytes: Bytes, headerEnd: Option<nat>)
    ensures i <= |chunks|
    ensures headerEnd.None? ==> GatherHead([], chunks).None?
    ensures headerEnd.Some? ==> HeaderEnd(bytes) == headerEnd && GatherHead([], chunks) == Some((bytes, chunks[i..]))
  {
    i, bytes := 0, [];
    while true
      invariant i <= |chunks|
      invariant GatherHead([], chunks) == GatherHead(bytes, chunks[i..])
      decreases |chunks| - i
    {
      if i == |chunks| {
        return i, bytes, None;
      }
      bytes := bytes + chunks[i];
      i := i + 1;
      assert chunks[i - 1..][1..] == chunks[i..];
      if |bytes| >= SIZE_LIMIT {
        return i, bytes, None;
      }
      var at := Find(bytes, BLANK_LINE);
      if at.Some? {
        return i, bytes, Some(at.value + 4);
      }
    }
  }

  /** The second loop; short of `upTo` only when the connection closed. */
  method ExtendBody(start: Bytes, chunks: seq<Bytes>, from: nat, upTo: nat) returns (i: nat, bytes: Bytes)
    requires from <= |chunks|
    ensures from <= i <= |chunks|
    ensures GatherBody(start, chunks[from..], upTo) == if |bytes| < upTo then None else Some(bytes)
  {
    i, bytes := from, start;
    while |bytes| < upTo
      invariant from <= i <= |chunks|
      invariant GatherBody(start, chunks[from..], upTo) == GatherBody(bytes, chunks[i..], upTo)
      decreases |chunks| - i
    {
      if i == |chunks| {
        return;
      }
      bytes := bytes + chunks[i];
      i := i + 1;
      assert chunks[i - 1..][1..] == chunks[i..];
    }
  }

  // ---- chunk independence ----

  /** A blank line, once seen, stays the first one. */
  lemma HeaderEndStays(bytes: Bytes, more: Bytes)
    requires bytes <= more && HeaderEnd(bytes).Some?
    ensures HeaderEnd(more) == HeaderEnd(bytes)
  {
    FindStays(bytes, more, BLANK_LINE);
  }

  lemma EndsLater(bytes: Bytes, more: Bytes)
    requires bytes <= more && HeaderEnd(bytes).None?
    ensures HeaderEnd(more).Some? ==> HeaderEnd(more).value > |bytes|
  {
    if HeaderEnd(more).Some? {
      OccursLater(bytes, more, BLANK_LINE, Find(more, BLANK_LINE).value);
    }
  }

  /** Before the last read the header block was incomplete, so at most one read overshoots it. */
  lemma {:induction false} GatherHeadSound(bytes: Bytes, chunks: seq<Bytes>)
    requires Reads(chunks) && HeaderEnd(bytes).None?
    ensures GatherHead(bytes, chunks).Some? ==>
              var (more, rest) := GatherHead(bytes, chunks).value;
              && bytes + Stream(chunks) == more + Stream(rest)
              && Reads(rest)
              && HeaderEnd(more).Some? && HeaderEnd(more) == HeaderEnd(bytes + Stream(chunks))
              && HeaderEnd(more).value <= |more| < SIZE_LIMIT
    ensures GatherHead(bytes, chunks).None? ==>
              var end := HeaderEnd(bytes + Stream(chunks));
              end.Some? ==> end.value + CHUNK > SIZE_LIMIT && |bytes + Stream(chunks)| >= SIZE_LIMIT
    decreases |chunks|
  {
    if chunks == [] {
      assert bytes + Stream(chunks) == bytes;
    } else {
      var more := bytes + chunks[0];
      assert bytes + Stream(chunks) == more + Stream(chunks[1..]);
      if |more| >= SIZE_LIMIT {
        EndsLater(bytes, bytes + Stream(chunks));
      } else if HeaderEnd(more).Some? {
        HeaderEndStays(more, more + Stream(chunks[1..]));
      } else {
        GatherHeadSound(more, chunks[1..]);
      }
    }
  }

  lemma {:induction false} GatherBodySound(bytes: Bytes, chunks: seq<Bytes>, upTo: nat)
    ensures GatherBody(bytes, chunks, upTo).Some? <==> upTo <= |bytes + Stream(chunks)|
    ensures GatherBody(bytes, chunks, upTo).Some? ==>
              upTo <= |GatherBody(bytes, chunks, upTo).value|
              && GatherBody(bytes, chunks, upTo).value <= bytes + Stream(chunks)
    decreases |chunks|
  {
    if |bytes| < upTo && chunks != [] {
      GatherBodySound(bytes + chunks[0], chunks[1..], upTo);
      assert bytes + Stream(chunks) == (bytes + chunks[0]) + Stream(chunks[1..]);
    }
  }

  lemma NoBlankLineInNothing()
    ensures HeaderEnd([]).None?
  {
  }

  lemma BodyIsFramed(head: Head, bytes: Bytes, rest: seq<Bytes>, stream: Bytes, end: nat)
    requires stream == bytes + Stream(rest)
    ensures var all := GatherBody(bytes, rest, end + head.length);
            && (all.None? <==> |stream| < end + head.length)
            && (all.Some? ==> CallOf(head, all.value, end) == CallOf(head, stream, end))
  {
    var upTo := end + head.length;
    GatherBodySound(bytes, rest, upTo);
    if upTo <= |stream| {
      SameSlice(GatherBody(bytes, rest, upTo).value, stream, end, upTo);
    }
  }

  /** With the head gathered, the body is that of the whole stream. */
  lemma ReadBodyIsFramed(utf8: Utf8, bytes: Bytes, rest: seq<Bytes>, stream: Bytes)
    requires stream == bytes + Stream(rest)
    requires HeaderEnd(bytes).Some? && HeaderEnd(stream) == HeaderEnd(bytes)
    ensures ReadBody(utf8, bytes, rest) == Framed(utf8, stream)
  {
    var end := HeaderEnd(bytes).value;
    assert bytes[..end] == stream[..end];
    var head := ParseHead(utf8, bytes[..end]);
    if head.Some? {
      BodyIsFramed(head.value, bytes, rest, stream, end);
    }
  }

  lemma SameSlice(bytes: Bytes, more: Bytes, i: nat, j: nat)
    requires bytes <= more && i <= j <= |bytes|
    ensures bytes[i..j] == more[i..j]
  {
  }

  lemma ReadAfterHead(utf8: Utf8, chunks: seq<Bytes>)
    requires Reads(chunks) && GatherHead([], chunks).Some?
    ensures Read(utf8, chunks) == Framed(utf8, Stream(chunks))
    ensures HeaderEnd(Stream(chunks)).Some? && HeaderEnd(Stream(chunks)).value < SIZE_LIMIT
  {
    NoBlankLineInNothing();
    GatherHeadSound([], chunks);
    var (bytes, rest) := GatherHead([], chunks).value;
    assert [] + Stream(chunks) == Stream(chunks);
    ReadBodyIsFramed(utf8, bytes, rest, Stream(chunks));
  }

  /**
   The result is that of the whole stream, however it is split into reads, when the stream
   is under the size limit, or its header block ends at least one read below it.
   */
  lemma ChunkIndependent(utf8: Utf8, chunks: seq<Bytes>)
    requires Reads(chunks)
    requires var end := HeaderEnd(Stream(chunks));
             |Stream(chunks)| < SIZE_LIMIT || end.None? || end.value + CHUNK <= SIZE_LIMIT
    ensures Read(utf8, chunks) == Framed(utf8, Stream(chunks))
  {
    if GatherHead([], chunks).Some? {
      ReadAfterHead(utf8, chunks);
    } else {
      NoBlankLineInNothing();
      GatherHeadSound([], chunks);
      assert [] + Stream(chunks) == Stream(chunks);
    }
  }

  /** A header block that ends past the limit is rejected however it arrives. */
  lemma OversizedAlways(utf8: Utf8, chunks: seq<Bytes>)
    requires Reads(chunks)
    requires HeaderEnd(Stream(chunks)).Some? && HeaderEnd(Stream(chunks)).value >= SIZE_LIMIT
    ensures Read(utf8, chunks) == Panicked
  {
    if GatherHead([], chunks).Some? {
      ReadAfterHead(utf8, chunks);
    }
  }

  /** The first blank line and Content-Length frame the request: bytes past the body are ignored. */
  lemma FramedByContentLength(utf8: Utf8, block: Bytes, body: Bytes, beyond: Bytes, chunks: seq<Bytes>)
    requires HeaderEnd(block) == Some(|block|)
    requires |block| + CHUNK <= SIZE_LIMIT || |block + body + beyond| < SIZE_LIMIT
    requires ParseHead(utf8, block).Some? && ParseHead(utf8, block).value.length == |body|
    requires Reads(chunks) && Stream(chunks) == block + body + beyond
    ensures var head := ParseHead(utf8, block).value;
            Read(utf8, chunks) == Ok(Call(head.verb, head.path, head.headers, body))
  {
    var stream := block + body + beyond;
    HeaderEndStays(block, stream);
    ChunkIndependent(utf8, chunks);
    assert stream[..|block|] == block;
    assert stream[|block|..|block| + |body|] == body;
  }

  // ---- in between, the reads matter ----

  /** `s` byte by byte, then `chunks`. */
  function Trickle(s: Bytes, chunks: seq<Bytes>): seq<Bytes> {
    if s == [] then chunks else [s[..1]] + Trickle(s[1..], chunks)
  }

  /** A stream byte by byte, but for one read of `stream[a..m]`. */
  function OneBigRead(stream: Bytes, a: nat, m: nat): (chunks: seq<Bytes>)
    requires a < m <= |stream|
  {
    Trickle(stream[..a], [stream[a..m]] + Trickle(stream[m..], []))
  }

  lemma {:induction false} TrickleReads(s: Bytes, chunks: seq<Bytes>)
    requires Reads(chunks)
    ensures Reads(Trickle(s, chunks)) && Stream(Trickle(s, chunks)) == s + Stream(chunks)
  {
    if s != [] {
      TrickleReads(s[1..], chunks);
      assert Trickle(s, chunks)[1..] == Trickle(s[1..], chunks);
      assert s == s[..1] + s[1..];
    }
  }

  lemma ReadFirst(chunk: Bytes, chunks: seq<Bytes>)
    requires Reads(chunks) && 0 < |chunk| <= CHUNK
    ensures Reads([chunk] + chunks) && Stream([chunk] + chunks) == chunk + Stream(chunks)
  {
    assert ([chunk] + chunks)[1..] == chunks;
  }

  lemma ThreeParts(stream: Bytes, a: nat, m: nat)
    requires a <= m <= |stream|
    ensures stream == stream[..a] + (stream[a..m] + stream[m..])
  {
  }

  lemma OneBigReadReads(stream: Bytes, a: nat, m: nat)
    requires a < m <= |stream| && m - a <= CHUNK
    ensures Reads(OneBigRead(stream, a, m)) && Stream(OneBigRead(stream, a, m)) == stream
  {
    var after := Trickle(stream[m..], []);
    TrickleReads(stream[m..], []);
    ReadFirst(stream[a..m], after);
    TrickleReads(stream[..a], [stream[a..m]] + after);
    assert stream[m..] + Stream([]) == stream[m..];
    ThreeParts(stream, a, m);
  }

  /** Reads that complete no header block and stay small just accumulate. */
  lemma {:induction false} GatherThrough(bytes: Bytes, s: Bytes, chunks: seq<Bytes>)
    requires HeaderEnd(bytes + s).None? && |bytes + s| < SIZE_LIMIT
    ensures GatherHead(bytes, Trickle(s, chunks)) == GatherHead(bytes + s, chunks)
    decreases |s|
  {
    if s == [] {
      assert bytes + s == bytes;
    } else {
      var more := bytes + s[..1];
      assert bytes + s == more + s[1..];
      assert Trickle(s, chunks)[1..] == Trickle(s[1..], chunks);
      if HeaderEnd(more).Some? {
        HeaderEndStays(more, bytes + s);
      }
      GatherThrough(more, s[1..], chunks);
    }
  }

  /** What the one big read decides. */
  lemma GatherOneBigRead(stream: Bytes, a: nat, m: nat)
    requires a < m <= |stream| && a < SIZE_LIMIT && HeaderEnd(stream[..a]).None?
    requires HeaderEnd(stream[..m]).Some?
    ensures GatherHead([], OneBigRead(stream, a, m)).Some? <==> m < SIZE_LIMIT
  {
    var before := stream[..a];
    assert [] + before == before;
    var tail := [stream[a..m]] + Trickle(stream[m..], []);
    GatherThrough([], before, tail);
    assert before + tail[0] == stream[..m];
  }

  lemma NoEndBefore(stream: Bytes, n: nat)
    requires HeaderEnd(stream).Some? && n < HeaderEnd(stream).value
    ensures HeaderEnd(stream[..n]).None?
  {
    if HeaderEnd(stream[..n]).Some? {
      HeaderEndStays(stream[..n], stream);
    }
  }

  /** The read that completes the header block decides: up to byte `m`, it is oversized or it is not. */
  lemma ReadUpTo(utf8: Utf8, stream: Bytes, m: nat) returns (chunks: seq<Bytes>)
    requires HeaderEnd(stream).Some? && 0 < HeaderEnd(stream).value < SIZE_LIMIT
    requires HeaderEnd(stream).value <= m <= |stream| && m < HeaderEnd(stream).value + CHUNK
    ensures Reads(chunks) && Stream(chunks) == stream
    ensures Read(utf8, chunks) == if m < SIZE_LIMIT then Framed(utf8, stream) else Panicked
  {
    var a := HeaderEnd(stream).value - 1;
    chunks := OneBigRead(stream, a, m);
    OneBigReadReads(stream, a, m);
    NoEndBefore(stream, a);
    EndBy(stream, m);
    GatherOneBigRead(stream, a, m);
    if m < SIZE_LIMIT {
      ReadAfterHead(utf8, chunks);
    }
  }

  lemma EndBy(stream: Bytes, n: nat)
    requires HeaderEnd(stream).Some? && HeaderEnd(stream).value <= n <= |stream|
    ensures HeaderEnd(stream[..n]).Some?
  {
    var at := Find(stream, BLANK_LINE).value;
    assert stream[..n][at..at + 4] == stream[at..at + 4];
    assert OccursAt(stream[..n], BLANK_LINE, at);
  }

  /**
   The header block ends within one read of the limit and the stream reaches it: then a read
   may or may not overshoot the limit before the header block is seen to be complete.
   */
  predicate NearLimit(stream: Bytes) {
    && HeaderEnd(stream).Some?
    && SIZE_LIMIT - CHUNK < HeaderEnd(stream).value < SIZE_LIMIT <= |stream|
  }

  /** Near the limit the stream is framed if it trickles in, and refused if one read overshoots. */
  lemma ReadsMatterNearTheLimit(utf8: Utf8, stream: Bytes) returns (slow: seq<Bytes>, fast: seq<Bytes>)
    requires NearLimit(stream)
    ensures Reads(slow) && Reads(fast) && Stream(slow) == stream && Stream(fast) == stream
    ensures Read(utf8, slow) == Framed(utf8, stream)
    ensures Read(utf8, fast) == Panicked
  {
    slow := ReadUpTo(utf8, stream, HeaderEnd(stream).value);
    fast := ReadUpTo(utf8, stream, SIZE_LIMIT);
  }

  ghost predicate Splits(chunks: seq<Bytes>, stream: Bytes) {
    Reads(chunks) && Stream(chunks) == stream
  }

  /** Away from the limit every split has one result: refused if the header ends past it, else as framed. */
  lemma ReadsDoNotMatter(utf8: Utf8, chunks: seq<Bytes>, stream: Bytes)
    requires Splits(chunks, stream) && !NearLimit(stream)
    ensures Read(utf8, chunks) ==
              if HeaderEnd(stream).Some? && HeaderEnd(stream).value >= SIZE_LIMIT then Panicked
              else Framed(utf8, stream)
  {
    if HeaderEnd(stream).Some? && HeaderEnd(stream).value >= SIZE_LIMIT {
      OversizedAlways(utf8, chunks);
    } else {
      ChunkIndependent(utf8, chunks);
    }
  }

  /** Near it a split frames the stream or refuses it, so an unreadable stream is refused either way. */
  lemma FramedOrRefused(utf8: Utf8, chunks: seq<Bytes>)
    requires Reads(chunks)
    ensures Read(utf8, chunks) == Framed(utf8, Stream(chunks)) || Read(utf8, chunks) == Panicked
  {
    if GatherHead([], chunks).Some? {
      ReadAfterHead(utf8, chunks);
    }
  }

  /** All splits of a stream agree exactly when it is not a request whose header ends near the limit. */
  lemma SplitsAgreeIff(utf8: Utf8, stream: Bytes)
    ensures (forall chunks, chunks' | Splits(chunks, stream) && Splits(chunks', stream) ::
               Read(utf8, chunks) == Read(utf8, chunks'))
            <==> !(NearLimit(stream) && Framed(utf8, stream).Ok?)
  {
    if NearLimit(stream) {
      var slow, fast := ReadsMatterNearTheLimit(utf8, stream);
      assert Splits(slow, stream) && Splits(fast, stream);
      assert Framed(utf8, stream).Ok? ==> Read(utf8, slow) != Read(utf8, fast);
    }
    if !(NearLimit(stream) && Framed(utf8, stream).Ok?) {
      forall chunks | Splits(chunks, stream)
        ensures Read(utf8, chunks) ==
                  if HeaderEnd(stream).Some? && HeaderEnd(stream).value >= SIZE_LIMIT then Panicked
                  else Framed(utf8, stream)
      {
        FramedOrRefused(utf8, chunks);
        if !NearLimit(stream) {
          ReadsDoNotMatter(utf8, chunks, stream);
        }
      }
    }
  }

  // ---- what a framed request is ----

  predicate IsBlankAt(bytes: Bytes, i: nat) {
    i + 4 <= |bytes| && bytes[i] == 0x0d && bytes[i + 1] == 0x0a && bytes[i + 2] == 0x0d && bytes[i + 3] == 0x0a
  }

  /** Bytes that end in a blank line and have none before. */
  ghost predicate IsHeaderBlock(block: Bytes) {
    && 4 <= |block| && IsBlankAt(block, |block| - 4)
    && forall i :: 0 <= i < |block| - 4 ==> !IsBlankAt(block, i)
  }

  lemma BlankIs(bytes: Bytes, i: nat)
    ensures IsBlankAt(bytes, i) <==> OccursAt(bytes, BLANK_LINE, i)
  {
    if i + 4 <= |bytes| {
      var window := bytes[i..i + 4];
      assert window[0] == bytes[i] && window[1] == bytes[i + 1];
      assert window[2] == bytes[i + 2] && window[3] == bytes[i + 3];
      assert IsBlankAt(bytes, i) ==> window == BLANK_LINE;
    }
  }

  lemma HeaderEndIff(block: Bytes)
    ensures HeaderEnd(block) == Some(|block|) <==> IsHeaderBlock(block)
  {
    forall i: nat ensures IsBlankAt(block, i) <==> OccursAt(block, BLANK_LINE, i) {
      BlankIs(block, i);
    }
    if IsHeaderBlock(block) {
      FindIs(block, BLANK_LINE, |block| - 4);
    }
  }

  /** `stream` opens with a header block that parses to the head of `call`, and then its body. */
  ghost predicate IsRequest(utf8: Utf8, stream: Bytes, call: Call, block: Bytes, beyond: Bytes) {
    && stream == block + call.body + beyond
    && IsHeaderBlock(block)
    && ParseHead(utf8, block) == Some(Head(call.verb, call.path, call.headers, |call.body|))
  }

  lemma FramedIsRequest(utf8: Utf8, stream: Bytes, call: Call) returns (block: Bytes, beyond: Bytes)
    requires Framed(utf8, stream) == Ok(call)
    ensures IsRequest(utf8, stream, call, block, beyond)
  {
    var end := HeaderEnd(stream).value;
    block, beyond := stream[..end], stream[end + |call.body|..];
    EndBy(stream, end);
    HeaderEndStays(block, stream);
    HeaderEndIff(block);
    Cut(stream, end, |call.body|);
  }

  lemma Cut(stream: Bytes, i: nat, n: nat)
    requires i + n <= |stream|
    ensures stream == stream[..i] + stream[i..i + n] + stream[i + n..]
  {
  }

  lemma RequestIsFramed(utf8: Utf8, stream: Bytes, call: Call, block: Bytes, beyond: Bytes)
    requires IsRequest(utf8, stream, call, block, beyond)
    ensures Framed(utf8, stream) == Ok(call)
  {
    HeaderEndIff(block);
    HeaderEndStays(block, stream);
    PartsOf(block, call.body, beyond);
  }

  lemma PartsOf(block: Bytes, body: Bytes, beyond: Bytes)
    ensures var stream := block + body + beyond;
            stream[..|block|] == block && stream[|block|..|block| + |body|] == body
  {
  }

  /** A stream is framed as a request exactly when it is one, whatever follows; else it is refused. */
  lemma FramedIff(utf8: Utf8, stream: Bytes, call: Call)
    ensures Framed(utf8, stream) == Ok(call) <==> exists block, beyond :: IsRequest(utf8, stream, call, block, beyond)
    ensures !Framed(utf8, stream).Err?
  {
    if Framed(utf8, stream) == Ok(call) {
      var block, beyond := FramedIsRequest(utf8, stream, call);
    }
    if exists block, beyond :: IsRequest(utf8, stream, call, block, beyond) {
      var block, beyond :| IsRequest(utf8, stream, call, block, beyond);
      RequestIsFramed(utf8, stream, call, block, beyond);
    }
  }
}
