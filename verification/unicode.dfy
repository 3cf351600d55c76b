/** UTF-8 (RFC 3629, section 3): the bytes of a string. */
module Unicode {
  import opened Options

  type Bytes = seq<bv8>

  const CR: bv8 := 0x0d
  const LF: bv8 := 0x0a

  function Nibble(n: nat): (b: bv8)
    requires n < 16
    ensures b < 16
    ensures (b < 2 <==> n < 2) && (b < 4 <==> n < 4)
    ensures b == 0x0 <==> n == 0
    ensures b == 0xd <==> n == 13
  {
    [0x0, 0x1, 0x2, 0x3, 0x4, 0x5, 0x6, 0x7, 0x8, 0x9, 0xa, 0xb, 0xc, 0xd, 0xe, 0xf][n]
  }

  function ByteOf(n: nat): bv8
    requires n < 256
  {
    (Nibble(n / 16) << 4) | Nibble(n % 16)
  }

  /** The low six bits of `n`, as a continuation byte. */
  function Continuation(n: nat): bv8 {
    0x80 | ByteOf(n % 64)
  }

  function EncodeChar(c: char): (bytes: Bytes)
    ensures 1 <= |bytes| <= 4
    ensures c < '\U{0080}' ==> |bytes| == 1
  {
    var n := c as int;
    if n < 0x80 then [ByteOf(n)]
    else if n < 0x800 then [0xc0 | ByteOf(n / 64), Continuation(n)]
    else if n < 0x1_0000 then [0xe0 | ByteOf(n / 4096), Continuation(n / 64), Continuation(n)]
    else [0xf0 | ByteOf(n / 262144), Continuation(n / 4096), Continuation(n / 64), Continuation(n)]
  }

  function Concat<T, U>(s: seq<T>, f: T -> seq<U>): seq<U> {
    if s == [] then [] else f(s[0]) + Concat(s[1..], f)
  }

  lemma AppendTwice<U>(a: seq<U>, b: seq<U>, c: seq<U>)
    ensures a + (b + c) == (a + b) + c
  {
  }

  lemma {:induction false} ConcatSplits<T, U>(s: seq<T>, t: seq<T>, f: T -> seq<U>)
    ensures Concat(s + t, f) == Concat(s, f) + Concat(t, f)
  {
    if s == [] {
      assert s + t == t;
    } else {
      ConcatSplits(s[1..], t, f);
      assert (s + t)[1..] == s[1..] + t;
      AppendTwice(f(s[0]), Concat(s[1..], f), Concat(t, f));
    }
  }

  function Encode(s: string): Bytes {
    Concat(s, EncodeChar)
  }

  lemma EncodeConcat(s: string, t: string)
    ensures Encode(s + t) == Encode(s) + Encode(t)
  {
    ConcatSplits(s, t, EncodeChar);
  }

  lemma HighBytes(b: bv8)
    ensures 0x80 | b != CR && 0xc0 | b != CR && 0xe0 | b != CR && 0xf0 | b != CR
  {
  }

  lemma NibblesOfCr(hi: bv8, lo: bv8)
    requires hi < 16 && lo < 16 && (hi << 4) | lo == CR
    ensures hi == 0x0 && lo == 0xd
  {
  }

  /** Bytes that are a carriage return come from one only. */
  lemma AsciiCr(n: nat)
    requires n < 256 && ByteOf(n) == CR
    ensures n == 0x0d
  {
    NibblesOfCr(Nibble(n / 16), Nibble(n % 16));
  }

  lemma EncodeCharNoCr(c: char)
    requires c != '\r'
    ensures CR !in EncodeChar(c)
  {
    var n := c as int;
    if n < 0x80 {
      if ByteOf(n) == CR {
        AsciiCr(n);
      }
    } else {
      HighBytes(ByteOf(n % 64));
      HighBytes(ByteOf(n / 64 % 64));
      HighBytes(ByteOf(n / 4096 % 64));
      if n < 0x800 {
        HighBytes(ByteOf(n / 64));
      } else if n < 0x1_0000 {
        HighBytes(ByteOf(n / 4096));
      } else {
        HighBytes(ByteOf(n / 262144));
      }
    }
  }

  lemma {:induction false} EncodeNoCr(s: string)
    requires '\r' !in s
    ensures CR !in Encode(s) && |s| <= |Encode(s)|
  {
    if s != "" {
      EncodeCharNoCr(s[0]);
      EncodeNoCr(s[1..]);
    }
  }

  lemma {:induction false} EncodeAscii(s: string)
    requires forall i :: 0 <= i < |s| ==> s[i] < '\U{0080}'
    ensures |Encode(s)| == |s|
  {
    if s != "" {
      EncodeAscii(s[1..]);
    }
  }

  lemma EncodeNewline()
    ensures Encode("\r\n") == [CR, LF]
  {
    assert "\r\n"[1..] == "\n";
    assert "\n"[1..] == "";
    assert Encode("\n") == EncodeChar('\n') + Encode("");
  }

  // ---- the encoding can be undone ----

  function NibbleValue(b: bv8): nat {
    if b == 0x0 then 0 else if b == 0x1 then 1 else if b == 0x2 then 2 else if b == 0x3 then 3
    else if b == 0x4 then 4 else if b == 0x5 then 5 else if b == 0x6 then 6 else if b == 0x7 then 7
    else if b == 0x8 then 8 else if b == 0x9 then 9 else if b == 0xa then 10 else if b == 0xb then 11
    else if b == 0xc then 12 else if b == 0xd then 13 else if b == 0xe then 14 else 15
  }

  lemma NibbleReads(n: nat)
    requires n < 16
    ensures NibbleValue(Nibble(n)) == n
  {
  }

  function ByteValue(b: bv8): nat {
    16 * NibbleValue(b >> 4) + NibbleValue(b & 0x0f)
  }

  lemma NibblesApart(hi: bv8, lo: bv8)
    requires hi < 16 && lo < 16
    ensures ((hi << 4) | lo) >> 4 == hi && ((hi << 4) | lo) & 0x0f == lo
  {
  }

  lemma ByteOfReads(n: nat)
    requires n < 256
    ensures ByteValue(ByteOf(n)) == n
  {
    NibblesApart(Nibble(n / 16), Nibble(n % 16));
    NibbleReads(n / 16);
    NibbleReads(n % 16);
  }

  lemma NibblesSplit(h1: bv8, l1: bv8, h2: bv8, l2: bv8)
    requires h1 < 16 && l1 < 16 && h2 < 16 && l2 < 16 && (h1 << 4) | l1 == (h2 << 4) | l2
    ensures h1 == h2 && l1 == l2
  {
  }

  lemma ByteOfInjective(m: nat, n: nat)
    requires m < 256 && n < 256 && ByteOf(m) == ByteOf(n)
    ensures m == n
  {
    NibblesSplit(Nibble(m / 16), Nibble(m % 16), Nibble(n / 16), Nibble(n % 16));
    NibbleReads(m / 16);
    NibbleReads(n / 16);
    NibbleReads(m % 16);
    NibbleReads(n % 16);
  }

  lemma SmallNibbles(hi: bv8, lo: bv8)
    requires hi < 16 && lo < 16
    ensures hi == 0 ==> (hi << 4) | lo < 0x10
    ensures hi < 2 ==> (hi << 4) | lo < 0x20
    ensures hi < 4 ==> (hi << 4) | lo < 0x40
    ensures hi < 8 ==> (hi << 4) | lo < 0x80
  {
  }

  lemma ByteOfBounds(n: nat)
    requires n < 256
    ensures n < 0x10 ==> ByteOf(n) < 0x10
    ensures n < 0x20 ==> ByteOf(n) < 0x20
    ensures n < 0x40 ==> ByteOf(n) < 0x40
    ensures n < 0x80 ==> ByteOf(n) < 0x80
  {
    SmallNibbles(Nibble(n / 16), Nibble(n % 16));
  }

  lemma MarkersSeparate(a: bv8, b: bv8)
    ensures a < 0x40 && b < 0x40 && 0x80 | a == 0x80 | b ==> a == b
    ensures a < 0x20 && b < 0x20 && 0xc0 | a == 0xc0 | b ==> a == b
    ensures a < 0x10 && b < 0x10 && 0xe0 | a == 0xe0 | b ==> a == b
    ensures a < 0x10 && b < 0x10 && 0xf0 | a == 0xf0 | b ==> a == b
    ensures a < 0x20 ==> 0xc0 <= 0xc0 | a < 0xe0
    ensures a < 0x10 ==> 0xe0 <= 0xe0 | a < 0xf0
    ensures 0xf0 <= 0xf0 | a
  {
  }

  lemma ContinuationInjective(m: nat, n: nat)
    requires Continuation(m) == Continuation(n)
    ensures m % 64 == n % 64
  {
    ByteOfBounds(m % 64);
    ByteOfBounds(n % 64);
    MarkersSeparate(ByteOf(m % 64), ByteOf(n % 64));
    ByteOfInjective(m % 64, n % 64);
  }

  /** The first byte tells how many there are. */
  function LengthFrom(first: bv8): nat {
    if first < 0x80 then 1 else if first < 0xe0 then 2 else if first < 0xf0 then 3 else 4
  }

  lemma FirstByteTells(c: char)
    ensures LengthFrom(EncodeChar(c)[0]) == |EncodeChar(c)|
  {
    var n := c as int;
    if n < 0x80 {
      ByteOfBounds(n);
    } else if n < 0x800 {
      ByteOfBounds(n / 64);
      MarkersSeparate(ByteOf(n / 64), 0);
    } else if n < 0x1_0000 {
      ByteOfBounds(n / 4096);
      MarkersSeparate(ByteOf(n / 4096), 0);
    } else {
      MarkersSeparate(ByteOf(n / 262144), 0);
    }
  }

  lemma LeadInjective(m: nat, n: nat)
    requires m < 0x40 && n < 0x40
    ensures m < 0x20 && n < 0x20 && 0xc0 | ByteOf(m) == 0xc0 | ByteOf(n) ==> m == n
    ensures m < 0x10 && n < 0x10 && 0xe0 | ByteOf(m) == 0xe0 | ByteOf(n) ==> m == n
    ensures m < 0x10 && n < 0x10 && 0xf0 | ByteOf(m) == 0xf0 | ByteOf(n) ==> m == n
  {
    ByteOfBounds(m);
    ByteOfBounds(n);
    MarkersSeparate(ByteOf(m), ByteOf(n));
    if ByteOf(m) == ByteOf(n) {
      ByteOfInjective(m, n);
    }
  }

  lemma MarkersRead(a: bv8)
    ensures a < 0x40 ==> (0x80 | a) & 0xc0 == 0x80 && (0x80 | a) & 0x3f == a
    ensures a < 0x20 ==> (0xc0 | a) & 0xe0 == 0xc0 && (0xc0 | a) & 0x1f == a
    ensures a < 0x10 ==> (0xe0 | a) & 0xf0 == 0xe0 && (0xe0 | a) & 0x0f == a
    ensures a < 0x08 ==> (0xf0 | a) & 0xf8 == 0xf0 && (0xf0 | a) & 0x07 == a
  {
  }

  /** A byte of the form `10xxxxxx` and the value of its `x`s. */
  predicate Continues(b: bv8, value: nat) {
    b & 0xc0 == 0x80 && ByteValue(b & 0x3f) == value
  }

  lemma ContinuationReads(n: nat)
    ensures Continues(Continuation(n), n % 64)
  {
    ByteOfBounds(n % 64);
    MarkersRead(ByteOf(n % 64));
    ByteOfReads(n % 64);
  }

  lemma LeadReads(n: nat)
    requires n < 0x20
    ensures (0xc0 | ByteOf(n)) & 0xe0 == 0xc0 && ByteValue((0xc0 | ByteOf(n)) & 0x1f) == n
    ensures n < 0x10 ==> (0xe0 | ByteOf(n)) & 0xf0 == 0xe0 && ByteValue((0xe0 | ByteOf(n)) & 0x0f) == n
    ensures n < 0x08 ==> (0xf0 | ByteOf(n)) & 0xf8 == 0xf0 && ByteValue((0xf0 | ByteOf(n)) & 0x07) == n
  {
    ByteOfBounds(n);
    ByteOfReads(n);
    MarkersRead(ByteOf(n));
    if n < 0x08 {
      SmallByte(Nibble(n));
    }
  }

  lemma SmallByte(lo: bv8)
    ensures (0 << 4) | lo == lo
  {
  }

  /** A first byte of the form `110xxxxx`, `1110xxxx` or `11110xxx`, and the value of its `x`s. */
  predicate Leads(b: bv8, length: nat, value: nat) {
    if length == 2 then b & 0xe0 == 0xc0 && ByteValue(b & 0x1f) == value
    else if length == 3 then b & 0xf0 == 0xe0 && ByteValue(b & 0x0f) == value
    else b & 0xf8 == 0xf0 && ByteValue(b & 0x07) == value
  }

  lemma TwoBytes(c: char)
    requires 0x80 <= c as int < 0x800
    ensures var n, bytes := c as int, EncodeChar(c);
            |bytes| == 2 && Leads(bytes[0], 2, n / 64) && Continues(bytes[1], n % 64)
  {
    LeadReads(c as int / 64);
    ContinuationReads(c as int);
  }

  lemma ThreeBytes(c: char)
    requires 0x800 <= c as int < 0x1_0000
    ensures var n, bytes := c as int, EncodeChar(c);
            && |bytes| == 3 && Leads(bytes[0], 3, n / 4096)
            && Continues(bytes[1], n / 64 % 64) && Continues(bytes[2], n % 64)
  {
    LeadReads(c as int / 4096);
    ContinuationReads(c as int / 64);
    ContinuationReads(c as int);
  }

  lemma FourBytes(c: char)
    requires 0x1_0000 <= c as int
    ensures var n, bytes := c as int, EncodeChar(c);
            && |bytes| == 4 && Leads(bytes[0], 4, n / 262144)
            && Continues(bytes[1], n / 4096 % 64) && Continues(bytes[2], n / 64 % 64) && Continues(bytes[3], n % 64)
  {
    LeadReads(c as int / 262144);
    ContinuationReads(c as int / 4096);
    ContinuationReads(c as int / 64);
    ContinuationReads(c as int);
  }

  /** The bit patterns of the standard, read back: as many bytes as the scalar needs, its bits in order. */
  lemma EncodedBits(c: char)
    ensures var n, bytes := c as int, EncodeChar(c);
            if n < 0x80 then |bytes| == 1 && ByteValue(bytes[0]) == n
            else if n < 0x800 then |bytes| == 2 && Leads(bytes[0], 2, n / 64) && Continues(bytes[1], n % 64)
            else if n < 0x1_0000 then
              && |bytes| == 3 && Leads(bytes[0], 3, n / 4096)
              && Continues(bytes[1], n / 64 % 64) && Continues(bytes[2], n % 64)
            else
              && |bytes| == 4 && Leads(bytes[0], 4, n / 262144)
              && Continues(bytes[1], n / 4096 % 64) && Continues(bytes[2], n / 64 % 64) && Continues(bytes[3], n % 64)
  {
    var n := c as int;
    if n < 0x80 {
      ByteOfReads(n);
    } else if n < 0x800 {
      TwoBytes(c);
    } else if n < 0x1_0000 {
      ThreeBytes(c);
    } else {
      FourBytes(c);
    }
  }

  lemma SextetsOf(n: nat)
    ensures n == 64 * (n / 64) + n % 64
    ensures n / 64 == 64 * (n / 4096) + n / 64 % 64
    ensures n / 4096 == 64 * (n / 262144) + n / 4096 % 64
  {
  }

  lemma TwoBytesInjective(c: char, d: char)
    requires EncodeChar(c) == EncodeChar(d) && |EncodeChar(c)| == 2
    ensures c as int % 64 == d as int % 64 && c as int / 64 == d as int / 64
  {
    ContinuationInjective(c as int, d as int);
    LeadInjective(c as int / 64, d as int / 64);
  }

  lemma ThreeBytesInjective(c: char, d: char)
    requires EncodeChar(c) == EncodeChar(d) && |EncodeChar(c)| == 3
    ensures c as int % 64 == d as int % 64 && c as int / 64 % 64 == d as int / 64 % 64
    ensures c as int / 4096 == d as int / 4096
  {
    ContinuationInjective(c as int, d as int);
    ContinuationInjective(c as int / 64, d as int / 64);
    LeadInjective(c as int / 4096, d as int / 4096);
  }

  lemma FourBytesInjective(c: char, d: char)
    requires EncodeChar(c) == EncodeChar(d) && |EncodeChar(c)| == 4
    ensures c as int % 64 == d as int % 64 && c as int / 64 % 64 == d as int / 64 % 64
    ensures c as int / 4096 % 64 == d as int / 4096 % 64 && c as int / 262144 == d as int / 262144
  {
    ContinuationInjective(c as int, d as int);
    ContinuationInjective(c as int / 64, d as int / 64);
    ContinuationInjective(c as int / 4096, d as int / 4096);
    LeadInjective(c as int / 262144, d as int / 262144);
  }

  lemma EncodeCharInjective(c: char, d: char)
    requires EncodeChar(c) == EncodeChar(d)
    ensures c == d
  {
    if |EncodeChar(c)| == 1 {
      ByteOfInjective(c as int, d as int);
    } else {
      if |EncodeChar(c)| == 2 {
        TwoBytesInjective(c, d);
      } else if |EncodeChar(c)| == 3 {
        ThreeBytesInjective(c, d);
      } else {
        FourBytesInjective(c, d);
      }
      SextetsOf(c as int);
      SextetsOf(d as int);
    }
  }

  lemma FirstCharTells(c: char, s: Bytes, d: char, t: Bytes)
    requires EncodeChar(c) + s == EncodeChar(d) + t
    ensures c == d && s == t
  {
    var both := EncodeChar(c) + s;
    assert both[0] == EncodeChar(c)[0] == EncodeChar(d)[0];
    FirstByteTells(c);
    FirstByteTells(d);
    var k := |EncodeChar(c)|;
    assert both[..k] == EncodeChar(c) && both[..k] == EncodeChar(d);
    assert both[k..] == s && both[k..] == t;
    EncodeCharInjective(c, d);
  }

  /** Different strings have different bytes. */
  lemma {:induction false} EncodeInjective(s: string, t: string)
    requires Encode(s) == Encode(t)
    ensures s == t
  {
    if s != "" && t != "" {
      FirstCharTells(s[0], Encode(s[1..]), t[0], Encode(t[1..]));
      EncodeInjective(s[1..], t[1..]);
      assert s == [s[0]] + s[1..] && t == [t[0]] + t[1..];
    }
  }

  /** What some string is encoded as, decodes to it; other bytes are not UTF-8. */
  ghost function Decode(bytes: Bytes): Option<string> {
    if exists s :: Encode(s) == bytes then
      var s :| Encode(s) == bytes;
      Some(s)
    else None
  }

  lemma DecodeEncoded(s: string)
    ensures Decode(Encode(s)) == Some(s)
  {
    var t := Decode(Encode(s)).value;
    EncodeInjective(s, t);
  }
}
