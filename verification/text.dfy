/** The string operations the SDK parses with. Strings are sequences of Unicode scalars. */
module Text {
  import opened Options

  ghost predicate OccursAt<T>(s: seq<T>, sep: seq<T>, i: int) {
    0 <= i && i + |sep| <= |s| && s[i..i + |sep|] == sep
  }

  ghost predicate Contains<T>(s: seq<T>, sep: seq<T>) {
    exists i :: OccursAt(s, sep, i)
  }

  /** `str::find`, and the first matching window of a byte slice. */
  function Find<T(==)>(s: seq<T>, sep: seq<T>): (at: Option<nat>)
    ensures at.Some? ==> OccursAt(s, sep, at.value) && forall i :: OccursAt(s, sep, i) ==> at.value <= i
    ensures at.None? ==> !Contains(s, sep)
  {
    if sep <= s then
      assert OccursAt(s, sep, 0);
      Some(0)
    else if s == [] then
      assert forall i :: !OccursAt(s, sep, i);
      None
    else
      var rest := Find(s[1..], sep);
      assert forall i :: OccursAt(s, sep, i) ==> OccursAt(s[1..], sep, i - 1) by {
        forall i | OccursAt(s, sep, i) ensures OccursAt(s[1..], sep, i - 1) {
          assert i != 0;
          assert s[1..][i - 1..i - 1 + |sep|] == s[i..i + |sep|];
        }
      }
      if rest.Some? then
        assert OccursAt(s, sep, rest.value + 1) by {
          assert s[1..][rest.value..rest.value + |sep|] == s[rest.value + 1..rest.value + 1 + |sep|];
        }
        Some(rest.value + 1)
      else None
  }

  lemma OccursLater<T>(s: seq<T>, more: seq<T>, sep: seq<T>, i: int)
    requires s <= more
    ensures OccursAt(s, sep, i) <==> OccursAt(more, sep, i) && i + |sep| <= |s|
  {
    if 0 <= i && i + |sep| <= |s| {
      assert more[i..i + |sep|] == s[i..i + |sep|];
    }
  }

  /** What was found in a prefix is what is found in the whole. */
  lemma FindStays<T>(s: seq<T>, more: seq<T>, sep: seq<T>)
    requires s <= more && Find(s, sep).Some?
    ensures Find(more, sep) == Find(s, sep)
  {
    OccursLater(s, more, sep, Find(s, sep).value);
    OccursLater(s, more, sep, Find(more, sep).value);
  }

  lemma OccursBehind<T>(s: seq<T>, sep: seq<T>, k: nat, i: nat)
    requires k <= |s|
    ensures OccursAt(s[k..], sep, i) <==> OccursAt(s, sep, k + i)
  {
    if k + i + |sep| <= |s| {
      assert s[k..][i..i + |sep|] == s[k + i..k + i + |sep|];
    }
  }

  /** The first occurrence is what is found. */
  lemma FindIs<T>(s: seq<T>, sep: seq<T>, at: nat)
    requires OccursAt(s, sep, at) && forall i :: 0 <= i < at ==> !OccursAt(s, sep, i)
    ensures Find(s, sep) == Some(at)
  {
  }

  lemma OccursBehindLater<T>(s: seq<T>, sep: seq<T>, k: nat, at: nat)
    requires k <= |s| && forall i :: 0 <= i < k ==> !OccursAt(s, sep, i)
    requires forall i :: 0 <= i < at ==> !OccursAt(s[k..], sep, i)
    ensures forall i :: 0 <= i < k + at ==> !OccursAt(s, sep, i)
  {
    forall i | k <= i < k + at ensures !OccursAt(s, sep, i) {
      OccursBehind(s, sep, k, i - k);
    }
  }

  /** Nothing found in the first `k` places: the search goes on behind them. */
  lemma FindBehind<T>(s: seq<T>, sep: seq<T>, k: nat, at: nat)
    requires k <= |s| && forall i :: 0 <= i < k ==> !OccursAt(s, sep, i)
    requires Find(s[k..], sep) == Some(at)
    ensures Find(s, sep) == Some(k + at)
  {
    OccursBehind(s, sep, k, at);
    OccursBehindLater(s, sep, k, at);
    FindIs(s, sep, k + at);
  }

  lemma FindAfter<T>(head: seq<T>, sep: seq<T>, rest: seq<T>)
    requires sep != [] && sep[0] !in head
    ensures Find(head + sep + rest, sep) == Some(|head|)
  {
    var s := head + sep + rest;
    assert OccursAt(s, sep, |head|);
    forall i | 0 <= i < |head| ensures !OccursAt(s, sep, i) {
      assert s[i] == head[i];
      assert i + |sep| <= |s| ==> s[i..i + |sep|][0] == s[i];
    }
    FindIs(s, sep, |head|);
  }

  /** `str::strip_prefix`. */
  function StripPrefix(s: string, prefix: string): Option<string> {
    if prefix <= s then Some(s[|prefix|..]) else None
  }

  /** The second half of `str::split_once`. */
  function AfterFirst(s: string, sep: string): Option<string> {
    var at := Find(s, sep);
    if at.Some? then Some(s[at.value + |sep|..]) else None
  }

  /** `s.split(c).next()`: everything before the first `c`, or all of `s`. */
  function UpTo(s: string, c: char): (head: string)
    ensures head <= s && c !in head
    ensures |head| < |s| ==> s[|head|] == c
  {
    if s == "" || s[0] == c then "" else [s[0]] + UpTo(s[1..], c)
  }

  /** `char::is_whitespace`: the Unicode `White_Space` property. */
  predicate IsWhitespace(c: char) {
    || '\U{0009}' <= c <= '\U{000D}'
    || c == ' '
    || c == '\U{0085}'
    || c == '\U{00A0}'
    || c == '\U{1680}'
    || '\U{2000}' <= c <= '\U{200A}'
    || c == '\U{2028}'
    || c == '\U{2029}'
    || c == '\U{202F}'
    || c == '\U{205F}'
    || c == '\U{3000}'
  }

  predicate AllWhitespace(s: string) {
    forall i :: 0 <= i < |s| ==> IsWhitespace(s[i])
  }

  predicate NoWhitespace(s: string) {
    forall i :: 0 <= i < |s| ==> !IsWhitespace(s[i])
  }

  function TrimStart(s: string): string {
    if s != "" && IsWhitespace(s[0]) then TrimStart(s[1..]) else s
  }

  function TrimEnd(s: string): string {
    if s != "" && IsWhitespace(s[|s| - 1]) then TrimEnd(s[..|s| - 1]) else s
  }

  function Trim(s: string): string {
    TrimEnd(TrimStart(s))
  }

  predicate Trimmed(s: string) {
    s == "" || (!IsWhitespace(s[0]) && !IsWhitespace(s[|s| - 1]))
  }

  lemma {:induction false} TrimStartSplits(s: string) returns (w: string)
    ensures s == w + TrimStart(s) && AllWhitespace(w)
    ensures TrimStart(s) == "" || !IsWhitespace(TrimStart(s)[0])
  {
    if s != "" && IsWhitespace(s[0]) {
      w := TrimStartSplits(s[1..]);
      w := [s[0]] + w;
    } else {
      w := "";
    }
  }

  lemma {:induction false} TrimEndSplits(s: string) returns (w: string)
    ensures s == TrimEnd(s) + w && AllWhitespace(w)
    ensures TrimEnd(s) == "" || !IsWhitespace(TrimEnd(s)[|TrimEnd(s)| - 1])
  {
    if s != "" && IsWhitespace(s[|s| - 1]) {
      w := TrimEndSplits(s[..|s| - 1]);
      w := w + [s[|s| - 1]];
    } else {
      w := "";
    }
  }

  /** `Trim` removes whitespace at both ends and leaves none there. */
  lemma TrimSplits(s: string) returns (w1: string, w2: string)
    ensures s == w1 + Trim(s) + w2 && AllWhitespace(w1) && AllWhitespace(w2)
    ensures Trimmed(Trim(s))
  {
    w1 := TrimStartSplits(s);
    w2 := TrimEndSplits(TrimStart(s));
    if Trim(s) != "" {
      assert TrimStart(s)[0] == Trim(s)[0];
    }
  }

  lemma {:induction false} TrimStartOf(w: string, t: string)
    requires AllWhitespace(w) && (t == "" || !IsWhitespace(t[0]))
    ensures TrimStart(w + t) == t
  {
    if w == "" {
      assert w + t == t;
    } else {
      TrimStartOf(w[1..], t);
      assert (w + t)[1..] == w[1..] + t;
    }
  }

  lemma {:induction false} TrimEndOf(t: string, w: string)
    requires AllWhitespace(w) && (t == "" || !IsWhitespace(t[|t| - 1]))
    ensures TrimEnd(t + w) == t
  {
    if w == "" {
      assert t + w == t;
    } else {
      TrimEndOf(t, w[..|w| - 1]);
      assert (t + w)[..|t + w| - 1] == t + w[..|w| - 1];
    }
  }

  /** Conversely, whitespace around a trimmed text is exactly what `Trim` removes. */
  lemma TrimOf(w1: string, t: string, w2: string)
    requires AllWhitespace(w1) && AllWhitespace(w2) && Trimmed(t)
    ensures Trim(w1 + t + w2) == t
  {
    if t == "" {
      assert w1 + t + w2 == (w1 + w2) + "";
      TrimStartOf(w1 + w2, "");
    } else {
      assert w1 + t + w2 == w1 + (t + w2);
      assert (t + w2)[0] == t[0];
      TrimStartOf(w1, t + w2);
      TrimEndOf(t, w2);
    }
  }

  /** What `UpTo` returns when the stop character is known. */
  lemma {:induction false} UpToOf(head: string, c: char, tail: string)
    requires c !in head && (tail == "" || tail[0] == c)
    ensures UpTo(head + tail, c) == head
  {
    if head == "" {
      assert head + tail == tail;
    } else {
      UpToOf(head[1..], c, tail);
      assert (head + tail)[1..] == head[1..] + tail;
    }
  }

  /** Nothing past the first `c` matters. */
  lemma UpToStops(a: string, b1: string, b2: string, c: char)
    requires c in a
    ensures UpTo(a + b1, c) == UpTo(a + b2, c)
  {
    var head := UpTo(a, c);
    assert |head| < |a| by { assert head <= a && c !in head; }
    assert a + b1 == head + (a[|head|..] + b1);
    assert a + b2 == head + (a[|head|..] + b2);
    UpToOf(head, c, a[|head|..] + b1);
    UpToOf(head, c, a[|head|..] + b2);
  }
}
