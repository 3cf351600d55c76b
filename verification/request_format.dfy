/** Writing an HTTP/1.1 request and reading it back. */
module RequestFormat {
  import opened Options
  import opened MachineInts
  import opened Text
  import opened RequestReader
  import Decimal
  import Unicode

  datatype Field = Field(name: string, value: string)

  function FieldLine(f: Field): string {
    f.name + ": " + f.value
  }

  function FormatFields(fields: seq<Field>): string {
    if fields == [] then "\r\n" else FieldLine(fields[0]) + "\r\n" + FormatFields(fields[1..])
  }

  function FormatHead(verb: string, path: string, fields: seq<Field>): string {
    (verb + " " + path + " HTTP/1.1") + "\r\n" + FormatFields(fields)
  }

  /** The header map of a list of fields: names fold to lower case, the last of a name wins. */
  function FieldMap(fields: seq<Field>): map<string, string> {
    if fields == [] then map[] else
      var last := fields[|fields| - 1];
      FieldMap(fields[..|fields| - 1])[LowerAscii(last.name) := last.value]
  }

  predicate IsToken(s: string) {
    s != "" && NoWhitespace(s)
  }

  predicate IsField(f: Field) {
    Trimmed(f.name) && ':' !in f.name && '\r' !in f.name && Trimmed(f.value) && '\r' !in f.value
  }

  predicate AreFields(fields: seq<Field>) {
    forall i :: 0 <= i < |fields| ==> IsField(fields[i])
  }

  // ---- lines ----

  lemma LinesCons(line: string, rest: string)
    requires '\r' !in line
    ensures Lines(line + "\r\n" + rest) == [line] + Lines(rest)
  {
    var text := line + "\r\n" + rest;
    FindAfter(line, "\r\n", rest);
    assert text[..|line|] == line && text[|line| + 2..] == rest;
  }

  function FieldLines(fields: seq<Field>): seq<string> {
    seq(|fields|, i requires 0 <= i < |fields| => FieldLine(fields[i]))
  }

  lemma LinesOfNothing()
    ensures Lines("") == [""]
  {
  }

  lemma {:induction false} LinesOfFields(fields: seq<Field>)
    requires AreFields(fields)
    ensures Lines(FormatFields(fields)) == FieldLines(fields) + ["", ""]
  {
    if fields == [] {
      LinesOfNothing();
      LinesCons("", "");
      assert "" + "\r\n" + "" == "\r\n";
    } else {
      LinesOfFields(fields[1..]);
      assert IsField(fields[0]);
      FieldLinesCons(fields);
      LinesCons(FieldLine(fields[0]), FormatFields(fields[1..]));
    }
  }

  lemma FieldLinesCons(fields: seq<Field>)
    requires fields != []
    ensures FieldLines(fields) == [FieldLine(fields[0])] + FieldLines(fields[1..])
  {
  }

  // ---- fields ----

  lemma NoColonNoHeader(lines: seq<string>, line: string)
    requires ':' !in line
    ensures HeadersOf(lines + [line]) == HeadersOf(lines)
  {
    assert (lines + [line])[..|lines|] == lines;
    forall i ensures !OccursAt(line, ":", i) {
      if 0 <= i && i + 1 <= |line| {
        assert line[i..i + 1][0] == line[i];
      }
    }
  }

  /** A header line with any whitespace around its name and its value; the first colon parts them. */
  lemma HeaderLineReads(lines: seq<string>, name: string, value: string, w1: string, w2: string, w3: string, w4: string)
    requires AllWhitespace(w1) && AllWhitespace(w2) && AllWhitespace(w3) && AllWhitespace(w4)
    requires Trimmed(name) && ':' !in name && Trimmed(value)
    ensures var line := w1 + name + w2 + ":" + (w3 + value + w4);
            HeadersOf(lines + [line]) == HeadersOf(lines)[LowerAscii(name) := value]
  {
    var before, after := w1 + name + w2, w3 + value + w4;
    var line := before + ":" + after;
    assert ':' !in before;
    FindAfter(before, ":", after);
    assert line[..|before|] == before && line[|before| + 1..] == after;
    TrimOf(w1, name, w2);
    TrimOf(w3, value, w4);
    assert (lines + [line])[..|lines|] == lines;
  }

  lemma HeaderOfField(lines: seq<string>, f: Field)
    requires IsField(f)
    ensures HeadersOf(lines + [FieldLine(f)]) == HeadersOf(lines)[LowerAscii(f.name) := f.value]
  {
    assert FieldLine(f) == "" + f.name + "" + ":" + (" " + f.value + "");
    HeaderLineReads(lines, f.name, f.value, "", "", " ", "");
  }

  lemma {:induction false} HeadersOfFields(fields: seq<Field>)
    requires AreFields(fields)
    ensures HeadersOf(FieldLines(fields)) == FieldMap(fields)
  {
    if fields != [] {
      var init, last := fields[..|fields| - 1], fields[|fields| - 1];
      HeadersOfFields(init);
      FieldLinesSnoc(fields);
      HeaderOfField(FieldLines(init), last);
    }
  }

  lemma FieldLinesSnoc(fields: seq<Field>)
    requires fields != []
    ensures FieldLines(fields) == FieldLines(fields[..|fields| - 1]) + [FieldLine(fields[|fields| - 1])]
  {
  }

  // ---- the request line ----

  lemma {:induction false} WordOf(word: string, rest: string)
    requires NoWhitespace(word) && (rest == "" || IsWhitespace(rest[0]))
    ensures Word(word + rest) == word
  {
    if word == "" {
      assert word + rest == rest;
    } else {
      WordOf(word[1..], rest);
      assert (word + rest)[1..] == word[1..] + rest;
    }
  }

  lemma RequestLineWords(verb: string, path: string)
    requires IsToken(verb) && IsToken(path)
    ensures var line := verb + " " + path + " HTTP/1.1";
            TrimStart(line) == line && Word(line) == verb
            && Word(TrimStart(line[|verb|..])) == path
  {
    var line := verb + " " + path + " HTTP/1.1";
    assert line[0] == verb[0];
    var after := " " + path + " HTTP/1.1";
    assert line == verb + after;
    WordOf(verb, after);
    assert line[|verb|..] == after == " " + (path + " HTTP/1.1");
    TrimStartOf(" ", path + " HTTP/1.1");
    WordOf(path, " HTTP/1.1");
  }

  // ---- lengths ----

  lemma ParseUsizeOfPrint(n: nat)
    requires n < TWO_64
    ensures ParseUsize(Decimal.Print(n)) == Some(n)
  {
    var ds := Decimal.Digits(n);
    Decimal.ReadWritten(ds, Decimal.DigitChar, Decimal.CharDigit);
    Decimal.ValueOfDigits(n);
    assert Decimal.Print(n)[0] == Decimal.DigitChar(ds[0]);
  }

  // ---- the head, and the request ----

  lemma HeadLines(verb: string, path: string, fields: seq<Field>)
    requires '\r' !in verb && '\r' !in path && AreFields(fields)
    ensures var lines := Lines(FormatHead(verb, path, fields));
            && lines[0] == verb + " " + path + " HTTP/1.1"
            && HeadersOf(lines[1..]) == FieldMap(fields)
  {
    var line := verb + " " + path + " HTTP/1.1";
    LinesCons(line, FormatFields(fields));
    LinesOfFields(fields);
    assert FieldLines(fields) + ["", ""] == FieldLines(fields) + [""] + [""];
    NoColonNoHeader(FieldLines(fields) + [""], "");
    NoColonNoHeader(FieldLines(fields), "");
    HeadersOfFields(fields);
  }

  lemma HeadReadsBack(utf8: Utf8, block: Bytes, verb: string, path: string, fields: seq<Field>, length: nat)
    requires utf8(block) == Some(FormatHead(verb, path, fields))
    requires IsToken(verb) && IsToken(path) && '\r' !in verb && '\r' !in path && AreFields(fields)
    requires length < TWO_64
    requires if "content-length" in FieldMap(fields)
             then FieldMap(fields)["content-length"] == Decimal.Print(length) else length == 0
    ensures ParseHead(utf8, block) == Some(Head(verb, path, FieldMap(fields), length))
  {
    HeadLines(verb, path, fields);
    RequestLineWords(verb, path);
    ParseUsizeOfPrint(length);
  }

  /** A request comes back field by field from any split of the connection, whatever follows it. */
  lemma RequestReadsBack(utf8: Utf8, block: Bytes, verb: string, path: string, fields: seq<Field>,
                         body: Bytes, beyond: Bytes, chunks: seq<Bytes>)
    requires utf8(block) == Some(FormatHead(verb, path, fields))
    requires HeaderEnd(block) == Some(|block|)
    requires |block| + CHUNK <= SIZE_LIMIT || |block + body + beyond| < SIZE_LIMIT
    requires IsToken(verb) && IsToken(path) && '\r' !in verb && '\r' !in path && AreFields(fields)
    requires |body| < TWO_64
    requires if "content-length" in FieldMap(fields)
             then FieldMap(fields)["content-length"] == Decimal.Print(|body|) else body == []
    requires Reads(chunks) && Stream(chunks) == block + body + beyond
    ensures Read(utf8, chunks) == Ok(Call(verb, path, FieldMap(fields), body))
  {
    HeadReadsBack(utf8, block, verb, path, fields, |body|);
    FramedByContentLength(utf8, block, body, beyond, chunks);
  }

  // ---- the bytes of a head end in its first blank line ----

  const NEWLINE: Bytes := [0x0d, 0x0a]

  /** No blank line starts within a nonempty line, nor at its end if another nonempty line follows. */
  lemma NoBlankLineYet(line: Bytes, rest: Bytes, i: int)
    requires Unicode.CR !in line && 0 <= i < |line| + 2
    requires rest != [] && rest[0] != Unicode.CR
    ensures !OccursAt(line + NEWLINE + rest, BLANK_LINE, i)
  {
    var s := line + NEWLINE + rest;
    if i + 4 <= |s| {
      assert s[i..i + 4][0] == s[i] && s[i..i + 4][2] == s[i + 2];
    }
    assert s[|line| + 1] == Unicode.LF && s[|line| + 2] == rest[0];
    assert i < |line| ==> s[i] == line[i];
  }

  lemma LineEndsBlock(line: Bytes)
    requires Unicode.CR !in line
    ensures HeaderEnd(line + NEWLINE + NEWLINE) == Some(|line| + 4)
  {
    assert line + NEWLINE + NEWLINE == line + BLANK_LINE + [];
    FindAfter(line, BLANK_LINE, []);
  }

  lemma LineBeforeBlock(line: Bytes, rest: Bytes)
    requires Unicode.CR !in line
    requires rest != [] && rest[0] != Unicode.CR && HeaderEnd(rest) == Some(|rest|)
    ensures HeaderEnd(line + NEWLINE + rest) == Some(|line| + 2 + |rest|)
  {
    var s := line + NEWLINE + rest;
    forall i | 0 <= i < |line| + 2 ensures !OccursAt(s, BLANK_LINE, i) {
      NoBlankLineYet(line, rest, i);
    }
    assert s[|line| + 2..] == rest;
    FindBehind(s, BLANK_LINE, |line| + 2, |rest| - 4);
  }

  lemma EncodeLine(line: string, rest: string)
    requires '\r' !in line
    ensures Unicode.CR !in Unicode.Encode(line) && |line| <= |Unicode.Encode(line)|
    ensures Unicode.Encode(line + "\r\n" + rest) == Unicode.Encode(line) + NEWLINE + Unicode.Encode(rest)
  {
    Unicode.EncodeNoCr(line);
    Unicode.EncodeConcat(line + "\r\n", rest);
    Unicode.EncodeConcat(line, "\r\n");
    Unicode.EncodeNewline();
  }

  /** Bytes of a nonempty first line and what follows it, up to the first blank line. */
  ghost predicate IsBlock(bytes: Bytes) {
    bytes != [] && bytes[0] != Unicode.CR && HeaderEnd(bytes) == Some(|bytes|)
  }

  lemma EncodedLastLine(line: string)
    requires line != "" && '\r' !in line
    ensures IsBlock(Unicode.Encode(line + "\r\n" + "\r\n"))
  {
    EncodeLine(line, "\r\n");
    Unicode.EncodeNewline();
    LineEndsBlock(Unicode.Encode(line));
  }

  lemma EncodedLineBefore(line: string, rest: string)
    requires line != "" && '\r' !in line && IsBlock(Unicode.Encode(rest))
    ensures IsBlock(Unicode.Encode(line + "\r\n" + rest))
  {
    EncodeLine(line, rest);
    LineBeforeBlock(Unicode.Encode(line), Unicode.Encode(rest));
  }

  lemma {:induction false} EncodedBlock(line: string, fields: seq<Field>)
    requires line != "" && '\r' !in line && AreFields(fields)
    ensures IsBlock(Unicode.Encode(line + "\r\n" + FormatFields(fields)))
    decreases |fields|
  {
    if fields == [] {
      EncodedLastLine(line);
    } else {
      assert IsField(fields[0]);
      EncodedBlock(FieldLine(fields[0]), fields[1..]);
      EncodedLineBefore(line, FormatFields(fields));
    }
  }

  /** `String::from_utf8` undoes the encoding. */
  ghost predicate DecodesUtf8(utf8: Utf8) {
    forall s :: utf8(Unicode.Encode(s)) == Some(s)
  }

  /** Such a decoder exists. */
  lemma SomeDecodesUtf8() returns (utf8: Utf8)
    ensures DecodesUtf8(utf8)
  {
    utf8 := bytes => Unicode.Decode(bytes);
    forall s ensures utf8(Unicode.Encode(s)) == Some(s) {
      Unicode.DecodeEncoded(s);
    }
  }

  function RequestBlock(verb: string, path: string, fields: seq<Field>): Bytes {
    Unicode.Encode(FormatHead(verb, path, fields))
  }

  lemma RequestBlockEnds(verb: string, path: string, fields: seq<Field>)
    requires '\r' !in verb && '\r' !in path && AreFields(fields)
    ensures var block := RequestBlock(verb, path, fields); HeaderEnd(block) == Some(|block|)
  {
    EncodedBlock(verb + " " + path + " HTTP/1.1", fields);
  }

  /** What is written is read: the bytes of a formatted head and a body, split in any way, are the request. */
  lemma WrittenReadsBack(utf8: Utf8, verb: string, path: string, fields: seq<Field>,
                         body: Bytes, beyond: Bytes, chunks: seq<Bytes>)
    requires DecodesUtf8(utf8)
    requires IsToken(verb) && IsToken(path) && '\r' !in verb && '\r' !in path && AreFields(fields)
    requires |body| < TWO_64
    requires if "content-length" in FieldMap(fields)
             then FieldMap(fields)["content-length"] == Decimal.Print(|body|) else body == []
    requires Reads(chunks) && Stream(chunks) == RequestBlock(verb, path, fields) + body + beyond
    requires |RequestBlock(verb, path, fields)| + CHUNK <= SIZE_LIMIT || |Stream(chunks)| < SIZE_LIMIT
    ensures Read(utf8, chunks) == Ok(Call(verb, path, FieldMap(fields), body))
  {
    RequestBlockEnds(verb, path, fields);
    RequestReadsBack(utf8, RequestBlock(verb, path, fields), verb, path, fields, body, beyond, chunks);
  }

  // ---- a request whose reading depends on the reads ----

  /** A `GET` padded to a header block of `n` bytes. */
  function Padded(n: nat): seq<Field> {
    [Field("x", seq(n, _ => 'a'))]
  }

  lemma PaddedFields(n: nat)
    ensures AreFields(Padded(n)) && "content-length" !in FieldMap(Padded(n))
    ensures |FormatFields(Padded(n))| == n + 7
    ensures forall i :: 0 <= i < n + 7 ==> FormatFields(Padded(n))[i] < '\U{0080}'
  {
    var f := Padded(n)[0];
    assert IsField(f);
    assert Padded(n)[..0] == [] && Padded(n)[1..] == [];
    assert FieldMap(Padded(n)) == map[LowerAscii("x") := f.value];
    assert |LowerAscii("x")| != |"content-length"|;
    assert FormatFields(Padded(n)) == FieldLine(f) + "\r\n" + "\r\n";
  }

  lemma PaddedLength(n: nat)
    ensures |RequestBlock("GET", "/", Padded(n))| == n + 23
  {
    PaddedFields(n);
    Unicode.EncodeAscii(FormatHead("GET", "/", Padded(n)));
  }

  /** Some well-formed requests are read or refused by how their bytes arrive. */
  lemma ReadsMatterForSome(utf8: Utf8) returns (stream: Bytes, slow: seq<Bytes>, fast: seq<Bytes>)
    requires DecodesUtf8(utf8)
    ensures NearLimit(stream) && Splits(slow, stream) && Splits(fast, stream)
    ensures Read(utf8, slow).Ok? && Read(utf8, fast) == Panicked
  {
    var n := SIZE_LIMIT - 24;
    var block := RequestBlock("GET", "/", Padded(n));
    PaddedFields(n);
    PaddedLength(n);
    RequestBlockEnds("GET", "/", Padded(n));
    stream := block + [0];
    HeaderEndStays(block, stream);
    assert stream[..|block|] == block;
    HeadReadsBack(utf8, block, "GET", "/", Padded(n), 0);
    assert Framed(utf8, stream).Ok?;
    slow, fast := ReadsMatterNearTheLimit(utf8, stream);
  }

  // ---- which heads parse, written by hand or not ----

  function JoinLines(lines: seq<string>): string {
    if lines == [] then "" else if |lines| == 1 then lines[0] else lines[0] + "\r\n" + JoinLines(lines[1..])
  }

  /** The text is cut at every line end and nowhere else. */
  lemma {:induction false} LinesJoin(text: string)
    ensures Lines(text) != [] && JoinLines(Lines(text)) == text
    ensures forall i :: 0 <= i < |Lines(text)| ==> !Contains(Lines(text)[i], "\r\n")
    decreases |text|
  {
    var at := Find(text, "\r\n");
    if at.Some? {
      var line, rest := text[..at.value], text[at.value + 2..];
      LinesJoin(rest);
      assert text == line + "\r\n" + rest;
      forall i ensures !OccursAt(line, "\r\n", i) {
        OccursLater(line, text, "\r\n", i);
      }
    }
  }

  /** Two words, set apart by whitespace; anything may follow the second after more of it. */
  ghost predicate IsRequestLine(line: string, verb: string, path: string) {
    exists w0, w1, rest :: RequestLineSplits(line, verb, path, w0, w1, rest)
  }

  ghost predicate RequestLineSplits(line: string, verb: string, path: string, w0: string, w1: string, rest: string) {
    && line == w0 + verb + w1 + path + rest
    && AllWhitespace(w0) && AllWhitespace(w1) && w1 != ""
    && IsToken(verb) && IsToken(path)
    && (rest == "" || IsWhitespace(rest[0]))
  }

  lemma WordsOfLine(line: string, verb: string, path: string, w0: string, w1: string, rest: string)
    requires RequestLineSplits(line, verb, path, w0, w1, rest)
    ensures Word(TrimStart(line)) == verb
    ensures Word(TrimStart(TrimStart(line)[|verb|..])) == path
  {
    var after := w1 + (path + rest);
    assert line == w0 + (verb + after);
    assert (verb + after)[0] == verb[0];
    TrimStartOf(w0, verb + after);
    assert after[0] == w1[0];
    WordOf(verb, after);
    assert (verb + after)[|verb|..] == after;
    assert (path + rest)[0] == path[0];
    TrimStartOf(w1, path + rest);
    WordOf(path, rest);
  }

  lemma WordsInTurn(start: string) returns (w1: string, rest: string)
    requires Word(start) != "" && Word(TrimStart(start[|Word(start)|..])) != ""
    ensures start == Word(start) + w1 + Word(TrimStart(start[|Word(start)|..])) + rest
    ensures AllWhitespace(w1) && w1 != "" && (rest == "" || IsWhitespace(rest[0]))
  {
    var verb := Word(start);
    var after := start[|verb|..];
    var second := TrimStart(after);
    w1 := TrimStartSplits(after);
    rest := second[|Word(second)|..];
    assert after != "" && IsWhitespace(after[0]) && w1 != "";
    Regroup(start, verb, w1, Word(second), rest);
  }

  lemma Regroup(start: string, verb: string, w1: string, path: string, rest: string)
    requires verb <= start && start[|verb|..] == w1 + (path + rest)
    ensures start == verb + w1 + path + rest
  {
    assert start == verb + start[|verb|..];
  }

  lemma LineOfWords(line: string)
    requires Word(TrimStart(line)) != "" && Word(TrimStart(TrimStart(line)[|Word(TrimStart(line))|..])) != ""
    ensures var verb := Word(TrimStart(line));
            IsRequestLine(line, verb, Word(TrimStart(TrimStart(line)[|verb|..])))
  {
    var w0 := TrimStartSplits(line);
    var start := TrimStart(line);
    var w1, rest := WordsInTurn(start);
    var verb := Word(start);
    var path := Word(TrimStart(start[|verb|..]));
    LineFrom(line, w0, start, verb, w1, path, rest);
  }

  lemma LineFrom(line: string, w0: string, start: string, verb: string, w1: string, path: string, rest: string)
    requires line == w0 + start && start == verb + w1 + path + rest
    requires AllWhitespace(w0) && AllWhitespace(w1) && w1 != "" && IsToken(verb) && IsToken(path)
    requires rest == "" || IsWhitespace(rest[0])
    ensures IsRequestLine(line, verb, path)
  {
    assert line == w0 + verb + w1 + path + rest;
    assert RequestLineSplits(line, verb, path, w0, w1, rest);
  }

  /** The headers say the length: none is none, and anything but a `usize` is refused. */
  predicate SaysLength(headers: map<string, string>, length: nat) {
    if "content-length" in headers then ParseUsize(headers["content-length"]) == Some(length) else length == 0
  }

  /** A block parses exactly if it decodes, opens with a verb and a path, and its length, if given, is a number. */
  lemma ParseHeadIff(utf8: Utf8, block: Bytes, head: Head)
    ensures ParseHead(utf8, block) == Some(head) <==>
              && utf8(block).Some?
              && var lines := Lines(utf8(block).value);
                 && IsRequestLine(lines[0], head.verb, head.path)
                 && head.headers == HeadersOf(lines[1..])
                 && SaysLength(head.headers, head.length)
  {
    if utf8(block).Some? {
      var line := Lines(utf8(block).value)[0];
      if ParseHead(utf8, block) == Some(head) {
        LineOfWords(line);
      }
      if IsRequestLine(line, head.verb, head.path) {
        var w0, w1, rest :| RequestLineSplits(line, head.verb, head.path, w0, w1, rest);
        WordsOfLine(line, head.verb, head.path, w0, w1, rest);
      }
    }
  }

  predicate IsDigitChar(c: char) {
    '0' <= c <= '9'
  }

  function CharWorth(c: char): nat {
    if IsDigitChar(c) then c as int - '0' as int else 0
  }

  /** A length is digits, one at least, after at most one plus sign, and fits 64 bits. */
  lemma ParseUsizeIff(s: string, n: nat)
    ensures ParseUsize(s) == Some(n) <==>
              var digits := if s != "" && s[0] == '+' then s[1..] else s;
              && digits != "" && (forall i :: 0 <= i < |digits| ==> IsDigitChar(digits[i]))
              && n == Decimal.PlaceValue(digits, CharWorth) < 0x1_0000_0000_0000_0000
  {
    forall c: char
      ensures Decimal.CharDigit(c).Some? <==> IsDigitChar(c)
      ensures Decimal.CharDigit(c).Some? ==> Decimal.CharDigit(c).value == CharWorth(c)
    {
    }
    Decimal.ReadIs(if s != "" && s[0] == '+' then s[1..] else s, Decimal.CharDigit, CharWorth);
  }
}
