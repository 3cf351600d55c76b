/** Text as its UTF-8 bytes: decimal integers and lower-case hexadecimal. */
module ByteText {
  import opened Options
  import opened MachineInts
  import opened Decimal

  type Byte = bv8
  type Bytes = seq<Byte>

  const PLUS: Byte := 0x2b
  const MINUS: Byte := 0x2d
  const DOT: Byte := 0x2e

  function DigitByte(d: Digit): Byte {
    [0x30, 0x31, 0x32, 0x33, 0x34, 0x35, 0x36, 0x37, 0x38, 0x39][d]
  }

  function ByteDigit(b: Byte): Option<Digit> {
    if b == 0x30 then Some(0) else if b == 0x31 then Some(1) else if b == 0x32 then Some(2)
    else if b == 0x33 then Some(3) else if b == 0x34 then Some(4) else if b == 0x35 then Some(5)
    else if b == 0x36 then Some(6) else if b == 0x37 then Some(7) else if b == 0x38 then Some(8)
    else if b == 0x39 then Some(9) else None
  }

  function DigitBytes(ds: seq<Digit>): Bytes {
    Write(ds, DigitByte)
  }

  /** One or more digits. */
  function Magnitude(s: Bytes): Option<nat> {
    var ds := Read(s, ByteDigit);
    if ds.None? || ds.value == [] then None else Some(Value(ds.value))
  }

  function Negated(n: Option<nat>): Option<int> {
    if n.None? then None else Some(-(n.value as int))
  }

  /** A decimal integer: an optional sign and at least one digit, of any magnitude. */
  function ParseInt(s: Bytes): Option<int> {
    if s != [] && s[0] == MINUS then Negated(Magnitude(s[1..]))
    else if s != [] && s[0] == PLUS then Magnitude(s[1..])
    else Magnitude(s)
  }

  /** `str::parse::<i64>`: a decimal integer that fits. */
  function ParseI64(s: Bytes): Option<I64> {
    var n := ParseInt(s);
    if n.Some? && -TWO_63 <= n.value < TWO_63 then Some(n.value) else None
  }

  /** `to_string` of an integer. */
  function PrintInt(n: int): Bytes {
    if n < 0 then [MINUS] + DigitBytes(Digits(-n)) else DigitBytes(Digits(n))
  }

  lemma DigitByteReads(d: Digit)
    ensures ByteDigit(DigitByte(d)) == Some(d)
  {
    match d
    case 0 => case 1 => case 2 => case 3 => case 4 =>
    case 5 => case 6 => case 7 => case 8 => case 9 =>
  }

  lemma MagnitudeOf(ds: seq<Digit>)
    requires ds != []
    ensures Magnitude(DigitBytes(ds)) == Some(Value(ds))
  {
    forall d: Digit ensures ByteDigit(DigitByte(d)) == Some(d) {
      DigitByteReads(d);
    }
    ReadWritten(ds, DigitByte, ByteDigit);
  }

  lemma NoSign(s: Bytes)
    requires Magnitude(s).Some?
    ensures s[0] != PLUS && s[0] != MINUS
  {
    ReadAreDigits(s, ByteDigit);
    assert ByteDigit(s[0]).Some?;
  }

  /** Digits are read with either sign before them, or with none. */
  lemma ParseSigned(s: Bytes)
    requires Magnitude(s).Some?
    ensures ParseInt(s) == Magnitude(s)
    ensures ParseInt([PLUS] + s) == Magnitude(s)
    ensures ParseInt([MINUS] + s) == Negated(Magnitude(s))
  {
    NoSign(s);
    assert ([PLUS] + s)[1..] == s && ([MINUS] + s)[1..] == s;
  }

  // ---- what is a decimal integer, and which ----

  predicate IsDigitByte(b: Byte) {
    0x30 <= b <= 0x39
  }

  /** What a digit is worth in the first place. */
  function Worth(b: Byte): nat {
    (b - 0x30) as int
  }

  lemma ByteDigitIs(b: Byte)
    ensures ByteDigit(b).Some? <==> IsDigitByte(b)
    ensures IsDigitByte(b) ==> ByteDigit(b) == Some(Worth(b))
  {
  }

  predicate IsSigned(s: Bytes) {
    s != [] && (s[0] == 0x2b || s[0] == 0x2d)
  }

  /** What follows the sign, if there is one. */
  function Unsigned(s: Bytes): Bytes {
    if IsSigned(s) then s[1..] else s
  }

  predicate IsDecimal(s: Bytes) {
    s != [] && forall i :: 0 <= i < |s| ==> IsDigitByte(s[i])
  }

  lemma MagnitudeIs(s: Bytes)
    ensures Magnitude(s) == if IsDecimal(s) then Some(PlaceValue(s, Worth)) else None
  {
    forall b: Byte
      ensures ByteDigit(b).Some? <==> IsDigitByte(b)
      ensures ByteDigit(b).Some? ==> ByteDigit(b).value == Worth(b)
    {
      ByteDigitIs(b);
    }
    ReadIs(s, ByteDigit, Worth);
  }

  /** Accepted are one sign at most and then digits, at least one, whose value fits an `i64`: nothing else. */
  lemma ParseI64Iff(s: Bytes, n: int)
    ensures -TWO_63 <= n < TWO_63 ==>
              (ParseI64(s) == Some(n) <==>
                && IsDecimal(Unsigned(s))
                && n == (if s[0] == 0x2d then -1 else 1) * PlaceValue(Unsigned(s), Worth))
    ensures ParseI64(s).Some? ==> IsDecimal(Unsigned(s))
  {
    MagnitudeIs(Unsigned(s));
  }

  /** Printing is canonical: a minus sign or none, and no leading zero. */
  lemma PrintedIsCanonical(n: int)
    ensures var s := PrintInt(n);
            && IsDecimal(Unsigned(s))
            && (s[0] == 0x2d <==> n < 0) && s[0] != 0x2b
            && (Unsigned(s)[0] == 0x30 ==> s == [0x30])
  {
    var m: nat := if n < 0 then -n else n;
    var s := DigitBytes(Digits(m));
    MagnitudeOf(Digits(m));
    MagnitudeIs(s);
    NoSign(s);
    LeadingDigit(m);
    assert n < 0 ==> ([MINUS] + s)[1..] == s;
    assert s[0] == DigitByte(Digits(m)[0]);
    DigitByteReads(Digits(m)[0]);
    if m == 0 {
      assert s == [0x30];
    }
  }

  lemma {:induction false} LeadingDigit(n: nat)
    ensures Digits(n)[0] == 0 ==> n == 0
  {
    if n >= 10 {
      LeadingDigit(n / 10);
    }
  }

  lemma ParseIntPrinted(n: int)
    ensures ParseInt(PrintInt(n)) == Some(n)
  {
    var m: nat := if n < 0 then -n else n;
    MagnitudeOf(Digits(m));
    ValueOfDigits(m);
    ParseSigned(DigitBytes(Digits(m)));
  }

  /** Parsing undoes printing on all of `i64`, and rejects every integer outside it. */
  lemma ParsePrinted(n: int)
    ensures ParseI64(PrintInt(n)) == if -TWO_63 <= n < TWO_63 then Some(n) else None
  {
    ParseIntPrinted(n);
  }

  lemma ParsedHasNoDot(s: Bytes)
    requires ParseI64(s).Some?
    ensures DOT !in s
  {
    var signed := s[0] == PLUS || s[0] == MINUS;
    var digits := if signed then s[1..] else s;
    ReadAreDigits(digits, ByteDigit);
    assert forall i :: 0 <= i < |digits| ==> digits[i] != DOT;
    if signed {
      assert s == [s[0]] + digits;
    }
  }

  // ---- hexadecimal ----

  function HexDigit(nibble: Byte): Byte {
    if nibble < 10 then 0x30 + nibble else 0x57 + nibble
  }

  /** `hex::encode`. */
  function Hex(bytes: Bytes): (s: Bytes)
    ensures |s| == 2 * |bytes|
  {
    if bytes == [] then [] else [HexDigit(bytes[0] >> 4), HexDigit(bytes[0] & 0x0f)] + Hex(bytes[1..])
  }

  /** The value of a lower-case hexadecimal digit. */
  function HexValue(c: Byte): (v: Option<Byte>)
    ensures v.Some? ==> v.value < 16
  {
    if 0x30 <= c <= 0x39 then Some(c - 0x30)
    else if 0x61 <= c <= 0x66 then Some(c - 0x61 + 10)
    else None
  }

  lemma HexDigitReads(nibble: Byte)
    requires nibble < 16
    ensures HexValue(HexDigit(nibble)) == Some(nibble)
  {
  }

  lemma NibblesMakeByte(b: Byte)
    ensures b >> 4 < 16 && b & 0x0f < 16 && 16 * (b >> 4) + (b & 0x0f) == b
  {
  }

  /** Two lower-case hexadecimal digits for each byte, the high one first. */
  ghost predicate IsHexOf(s: Bytes, bytes: Bytes) {
    |s| == 2 * |bytes| && forall k :: 0 <= k < |bytes| ==> IsHexAt(s, bytes, k)
  }

  predicate IsHexAt(s: Bytes, bytes: Bytes, k: nat)
    requires |s| == 2 * |bytes| && k < |bytes|
  {
    && HexValue(s[2 * k]).Some? && HexValue(s[2 * k + 1]).Some?
    && 16 * HexValue(s[2 * k]).value + HexValue(s[2 * k + 1]).value == bytes[k]
  }

  lemma HexReadsFirst(b: Byte)
    ensures HexValue(HexDigit(b >> 4)).Some? && HexValue(HexDigit(b & 0x0f)).Some?
    ensures 16 * HexValue(HexDigit(b >> 4)).value + HexValue(HexDigit(b & 0x0f)).value == b
  {
    NibblesMakeByte(b);
    HexDigitReads(b >> 4);
    HexDigitReads(b & 0x0f);
  }

  lemma {:induction false} HexReadsAt(bytes: Bytes, k: nat)
    requires k < |bytes|
    ensures IsHexAt(Hex(bytes), bytes, k)
    decreases k
  {
    if k == 0 {
      HexReadsFirst(bytes[0]);
    } else {
      HexReadsAt(bytes[1..], k - 1);
      HexShifts(bytes, 2 * k);
      HexShifts(bytes, 2 * k + 1);
    }
  }

  lemma HexShifts(bytes: Bytes, i: nat)
    requires bytes != [] && 2 <= i < 2 * |bytes|
    ensures Hex(bytes)[i] == Hex(bytes[1..])[i - 2]
  {
  }

  lemma HexReads(bytes: Bytes)
    ensures IsHexOf(Hex(bytes), bytes)
  {
    forall k | 0 <= k < |bytes| ensures IsHexAt(Hex(bytes), bytes, k) {
      HexReadsAt(bytes, k);
    }
  }

  lemma HexByteUnique(hi1: Byte, lo1: Byte, hi2: Byte, lo2: Byte)
    requires HexValue(hi1).Some? && HexValue(lo1).Some? && HexValue(hi2).Some? && HexValue(lo2).Some?
    requires 16 * HexValue(hi1).value + HexValue(lo1).value == 16 * HexValue(hi2).value + HexValue(lo2).value
    ensures hi1 == hi2 && lo1 == lo2
  {
  }

  /** Nothing else is the hexadecimal of those bytes. */
  lemma HexIsHexOf(s: Bytes, bytes: Bytes)
    ensures IsHexOf(s, bytes) <==> s == Hex(bytes)
  {
    HexReads(bytes);
    if IsHexOf(s, bytes) {
      forall k | 0 <= k < |bytes| ensures s[2 * k] == Hex(bytes)[2 * k] && s[2 * k + 1] == Hex(bytes)[2 * k + 1] {
        assert IsHexAt(s, bytes, k) && IsHexAt(Hex(bytes), bytes, k);
        HexByteUnique(s[2 * k], s[2 * k + 1], Hex(bytes)[2 * k], Hex(bytes)[2 * k + 1]);
      }
      forall i | 0 <= i < |s| ensures s[i] == Hex(bytes)[i] {
        assert i == 2 * (i / 2) || i == 2 * (i / 2) + 1;
      }
    }
  }

  lemma HexByteInjective(x: Byte, y: Byte)
    requires HexDigit(x >> 4) == HexDigit(y >> 4) && HexDigit(x & 0x0f) == HexDigit(y & 0x0f)
    ensures x == y
  {
  }

  lemma {:induction false} HexInjective(a: Bytes, b: Bytes)
    requires Hex(a) == Hex(b)
    ensures a == b
  {
    assert |a| == |b| by { assert |Hex(a)| == |Hex(b)|; }
    if a != [] {
      var s, t := Hex(a), Hex(b);
      assert s[0] == t[0] && s[1] == t[1];
      HexByteInjective(a[0], b[0]);
      assert s[2..] == Hex(a[1..]) && t[2..] == Hex(b[1..]);
      HexInjective(a[1..], b[1..]);
      assert a == [a[0]] + a[1..] && b == [b[0]] + b[1..];
    }
  }
}
