/** Regular expressions by what they denote. */
module Regex {
  datatype Expr =
    | Range(lo: char, hi: char)
    | Cat(left: Expr, right: Expr)
    | Alt(left: Expr, right: Expr)
    | Star(body: Expr)

  function Join(parts: seq<string>): string {
    if parts == [] then "" else Join(parts[..|parts| - 1]) + parts[|parts| - 1]
  }

  /** `parts` take `s` apart into words of `body`. */
  ghost predicate IsStar(body: Expr, parts: seq<string>, s: string)
    decreases body, 2
  {
    Join(parts) == s && forall k :: 0 <= k < |parts| ==> Matches(body, parts[k])
  }

  /** `t` and `u` take `s` apart into words of the two halves of `r`. */
  ghost predicate IsCat(r: Expr, s: string, t: string, u: string)
    requires r.Cat?
    decreases r, 0
  {
    s == t + u && Matches(r.left, t) && Matches(r.right, u)
  }

  ghost predicate Matches(r: Expr, s: string)
    decreases r, 1
  {
    match r
    case Range(lo, hi) => |s| == 1 && lo <= s[0] <= hi
    case Cat(_, _) => exists t, u :: IsCat(r, s, t, u)
    case Alt(left, right) => Matches(left, s) || Matches(right, s)
    case Star(body) => exists parts :: IsStar(body, parts, s)
  }

  lemma CatIntro(left: Expr, right: Expr, s: string, t: string, whole: string)
    requires Matches(left, s) && Matches(right, t) && whole == s + t
    ensures Matches(Cat(left, right), whole)
  {
    assert IsCat(Cat(left, right), whole, s, t);
  }

  lemma CatElim(left: Expr, right: Expr, s: string) returns (t: string, u: string)
    requires Matches(Cat(left, right), s)
    ensures s == t + u && Matches(left, t) && Matches(right, u)
  {
    t, u :| IsCat(Cat(left, right), s, t, u);
  }

  lemma CatCatIntro(a: Expr, b: Expr, c: Expr, s: string, t: string, u: string, whole: string)
    requires Matches(a, s) && Matches(b, t) && Matches(c, u) && whole == s + t + u
    ensures Matches(Cat(a, Cat(b, c)), whole)
  {
    var rest := t + u;
    CatIntro(b, c, t, u, rest);
    assert whole == s + rest;
    CatIntro(a, Cat(b, c), s, rest, whole);
  }

  lemma CatCatElim(a: Expr, b: Expr, c: Expr, s: string) returns (t: string, u: string, v: string)
    requires Matches(Cat(a, Cat(b, c)), s)
    ensures s == t + u + v && Matches(a, t) && Matches(b, u) && Matches(c, v)
  {
    var rest;
    t, rest := CatElim(a, Cat(b, c), s);
    u, v := CatElim(b, c, rest);
    assert t + rest == t + u + v;
  }

  lemma StarIntro(body: Expr, parts: seq<string>)
    requires forall k :: 0 <= k < |parts| ==> Matches(body, parts[k])
    ensures Matches(Star(body), Join(parts))
  {
    assert IsStar(body, parts, Join(parts));
  }

  lemma StarElim(body: Expr, s: string) returns (parts: seq<string>)
    requires Matches(Star(body), s)
    ensures Join(parts) == s && forall k :: 0 <= k < |parts| ==> Matches(body, parts[k])
  {
    parts :| IsStar(body, parts, s);
  }

  lemma JoinSnoc(parts: seq<string>, p: string)
    ensures Join(parts + [p]) == Join(parts) + p
  {
    assert (parts + [p])[..|parts|] == parts;
  }
}

/** The reason-tag recognizer of src/error.rs and the language it is meant to accept. */
module ReasonTags {
  import opened Regex
  import Unicode

  const LOWER := Range('a', 'z')
  const ALNUM := Alt(Range('a', 'z'), Range('0', '9'))
  const UNDERSCORE := Range('_', '_')
  const WORD_TAIL := Cat(UNDERSCORE, Cat(ALNUM, Star(ALNUM)))
  /** `^[a-z][a-z0-9]*(?:_[a-z0-9]+)*$` */
  const TAG := Cat(LOWER, Cat(Star(ALNUM), Star(WORD_TAIL)))

  const MAX_TAG_BYTES: nat := 64

  predicate IsLower(c: char) { 'a' <= c <= 'z' }

  predicate IsAlnum(c: char) { IsLower(c) || '0' <= c <= '9' }

  /**
   The same language, read from the right: the last character is in a word, and what
   precedes it is a tag, or a tag and an underscore.
   */
  predicate TagShaped(s: string) {
    && s != ""
    && IsAlnum(s[|s| - 1])
    && var before := s[..|s| - 1];
       if before == "" then IsLower(s[0])
       else TagShaped(before) || TagOpen(before)
  }

  /** A tag followed by one underscore. */
  predicate TagOpen(s: string) {
    s != "" && s[|s| - 1] == '_' && TagShaped(s[..|s| - 1])
  }

  // ---- the two readings agree ----

  predicate AllAlnum(s: string) {
    forall i :: 0 <= i < |s| ==> IsAlnum(s[i])
  }

  lemma {:induction false} StarOfAlnum(s: string)
    requires AllAlnum(s)
    ensures Matches(Star(ALNUM), s)
  {
    if s == "" {
      StarIntro(ALNUM, []);
    } else {
      var init, last := s[..|s| - 1], [s[|s| - 1]];
      StarOfAlnum(init);
      var parts := StarElim(ALNUM, init);
      StarIntro(ALNUM, parts + [last]);
      JoinSnoc(parts, last);
      assert s == init + last;
    }
  }

  lemma {:induction false} AlnumParts(parts: seq<string>)
    requires forall k :: 0 <= k < |parts| ==> Matches(ALNUM, parts[k])
    ensures AllAlnum(Join(parts))
  {
    if parts != [] {
      AlnumParts(parts[..|parts| - 1]);
    }
  }

  /** A word segment: an underscore and one or more word characters. */
  predicate IsWordTail(s: string) {
    |s| >= 2 && s[0] == '_' && AllAlnum(s[1..])
  }

  lemma AlnumsElim(s: string)
    requires Matches(Star(ALNUM), s)
    ensures AllAlnum(s)
  {
    var parts := StarElim(ALNUM, s);
    AlnumParts(parts);
  }

  lemma WordTailElim(s: string)
    requires Matches(WORD_TAIL, s)
    ensures IsWordTail(s)
  {
    var mark, first, rest := CatCatElim(UNDERSCORE, ALNUM, Star(ALNUM), s);
    AlnumsElim(rest);
  }

  lemma WordTailIntro(s: string)
    requires IsWordTail(s)
    ensures Matches(WORD_TAIL, s)
  {
    StarOfAlnum(s[2..]);
    CatCatIntro(UNDERSCORE, ALNUM, Star(ALNUM), s[..1], s[1..2], s[2..], s);
  }

  lemma WordTailsElim(s: string) returns (parts: seq<string>)
    requires Matches(Star(WORD_TAIL), s)
    ensures Join(parts) == s && forall k :: 0 <= k < |parts| ==> IsWordTail(parts[k])
  {
    parts := StarElim(WORD_TAIL, s);
    forall k | 0 <= k < |parts| ensures IsWordTail(parts[k]) { WordTailElim(parts[k]); }
  }

  lemma WordTailsIntro(parts: seq<string>)
    requires forall k :: 0 <= k < |parts| ==> IsWordTail(parts[k])
    ensures Matches(Star(WORD_TAIL), Join(parts))
  {
    forall k | 0 <= k < |parts| ensures Matches(WORD_TAIL, parts[k]) { WordTailIntro(parts[k]); }
    StarIntro(WORD_TAIL, parts);
  }

  /** A match of the expression, taken apart. */
  ghost predicate Decomposed(s: string, head: string, parts: seq<string>) {
    && s == head + Join(parts)
    && head != "" && IsLower(head[0]) && AllAlnum(head)
    && forall k :: 0 <= k < |parts| ==> IsWordTail(parts[k])
  }

  lemma MatchDecomposes(s: string) returns (head: string, parts: seq<string>)
    requires Matches(TAG, s)
    ensures Decomposed(s, head, parts)
  {
    var first, letters, tails := CatCatElim(LOWER, Star(ALNUM), Star(WORD_TAIL), s);
    AlnumsElim(letters);
    parts := WordTailsElim(tails);
    head := first + letters;
  }

  lemma DecomposedMatches(s: string, head: string, parts: seq<string>)
    requires Decomposed(s, head, parts)
    ensures Matches(TAG, s)
  {
    assert head == head[..1] + head[1..];
    StarOfAlnum(head[1..]);
    WordTailsIntro(parts);
    CatCatIntro(LOWER, Star(ALNUM), Star(WORD_TAIL), head[..1], head[1..], Join(parts), s);
  }

  lemma {:induction false} GrowByAlnum(s: string, word: string)
    requires TagShaped(s) || TagOpen(s)
    requires word != "" && AllAlnum(word)
    ensures TagShaped(s + word)
  {
    var before := word[..|word| - 1];
    assert (s + word)[..|s + word| - 1] == s + before;
    if before == "" {
      assert s + before == s;
    } else {
      GrowByAlnum(s, before);
    }
  }

  lemma {:induction false} HeadIsTag(head: string)
    requires head != "" && IsLower(head[0]) && AllAlnum(head)
    ensures TagShaped(head)
  {
    if |head| > 1 {
      HeadIsTag(head[..|head| - 1]);
    }
  }

  lemma {:induction false} DecomposedIsTag(s: string, head: string, parts: seq<string>)
    requires Decomposed(s, head, parts)
    ensures TagShaped(s)
    decreases |parts|
  {
    if parts == [] {
      assert s == head;
      HeadIsTag(head);
    } else {
      var p := parts[|parts| - 1];
      var t := head + Join(parts[..|parts| - 1]);
      DecomposedIsTag(t, head, parts[..|parts| - 1]);
      assert (t + "_")[..|t|] == t;
      GrowByAlnum(t + "_", p[1..]);
      assert s == t + "_" + p[1..];
    }
  }

  lemma {:induction false} TagDecomposes(s: string) returns (head: string, parts: seq<string>)
    requires TagShaped(s)
    ensures Decomposed(s, head, parts)
  {
    var before, c := s[..|s| - 1], [s[|s| - 1]];
    assert s == before + c;
    if before == "" {
      head, parts := s, [];
    } else if TagShaped(before) {
      head, parts := TagDecomposes(before);
      if parts == [] {
        head := head + c;
      } else {
        var init, last := parts[..|parts| - 1], parts[|parts| - 1];
        JoinSnoc(init, last + c);
        parts := init + [last + c];
      }
    } else {
      head, parts := TagDecomposes(before[..|before| - 1]);
      JoinSnoc(parts, "_" + c);
      parts := parts + ["_" + c];
    }
  }

  lemma TagIsRegex(s: string)
    ensures TagShaped(s) <==> Matches(TAG, s)
  {
    if TagShaped(s) {
      var head, parts := TagDecomposes(s);
      DecomposedMatches(s, head, parts);
    }
    if Matches(TAG, s) {
      var head, parts := MatchDecomposes(s);
      DecomposedIsTag(s, head, parts);
    }
  }

  // ---- bytes and characters ----

  /** `str::len`. */
  function ByteLen(s: string): nat {
    |Unicode.Encode(s)|
  }

  lemma {:induction false} TagCharacters(tag: string)
    requires TagShaped(tag) || TagOpen(tag)
    ensures forall i :: 0 <= i < |tag| ==> IsAlnum(tag[i]) || tag[i] == '_'
  {
    if |tag| > 1 {
      TagCharacters(tag[..|tag| - 1]);
    }
  }

  lemma TagBytes(s: string)
    requires TagShaped(s) || TagOpen(s)
    ensures ByteLen(s) == |s|
  {
    TagCharacters(s);
    Unicode.EncodeAscii(s);
  }

  // ---- the recognizer ----

  /** What the recognizer decides. */
  predicate IsReasonTag(tag: string) {
    TagShaped(tag) && |tag| <= MAX_TAG_BYTES
  }

  lemma ReasonTagLanguage(tag: string)
    ensures IsReasonTag(tag) <==> Matches(TAG, tag) && |tag| <= 64
    ensures IsReasonTag(tag) ==> ByteLen(tag) == |tag|
  {
    TagIsRegex(tag);
    if TagShaped(tag) {
      TagBytes(tag);
    }
  }

  /** Every nonempty prefix of a tag is a tag, or a tag and an underscore. */
  lemma {:induction false} PrefixViable(tag: string, n: nat)
    requires TagShaped(tag) && 0 < n <= |tag|
    ensures TagShaped(tag[..n]) || TagOpen(tag[..n])
  {
    var before := tag[..|tag| - 1];
    if n == |tag| {
      assert tag[..n] == tag;
    } else if TagShaped(before) {
      PrefixViable(before, n);
      assert before[..n] == tag[..n];
    } else if n == |before| {
      assert tag[..n] == before;
    } else {
      PrefixViable(before[..|before| - 1], n);
      assert before[..|before| - 1][..n] == tag[..n];
    }
  }

  /** The flag-driven loop: it accepts exactly the documented expression, at most 64 bytes long. */
  method CheckReasonTag(tag: string) returns (ok: bool)
    ensures ok <==> Matches(TAG, tag) && ByteLen(tag) <= 64
    ensures ok == IsReasonTag(tag)
  {
    ReasonTagLanguage(tag);
    TagIsRegex(tag);
    if TagShaped(tag) { TagBytes(tag); }
    if tag == "" || ByteLen(tag) > MAX_TAG_BYTES {
      return false;
    }
    var prevUnderscore := true;
    var first := true;
    for i := 0 to |tag|
      invariant first == (i == 0)
      invariant !prevUnderscore ==> TagShaped(tag[..i])
      invariant prevUnderscore && i > 0 ==> TagOpen(tag[..i])
    {
      var c := tag[i];
      ghost var seen := tag[..i + 1];
      assert seen[..|seen| - 1] == tag[..i];
      if TagShaped(tag) { PrefixViable(tag, i + 1); }
      if 'a' <= c <= 'z' {
        prevUnderscore := false;
      } else if '0' <= c <= '9' && !first {
        prevUnderscore := false;
      } else if c == '_' && !prevUnderscore {
        prevUnderscore := true;
      } else {
        return false;
      }
      first := false;
    }
    assert tag[..|tag|] == tag;
    return !prevUnderscore;
  }
}
