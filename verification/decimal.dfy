/** Positional decimal notation, as digit values; the text modules map digits to their own characters. */
module Decimal {
  import opened Options

  type Digit = d: int | 0 <= d < 10

  function Digits(n: nat): (ds: seq<Digit>)
    ensures |ds| > 0
  {
    if n < 10 then [n] else Digits(n / 10) + [n % 10]
  }

  function Value(ds: seq<Digit>): nat {
    if ds == [] then 0 else 10 * Value(ds[..|ds| - 1]) + ds[|ds| - 1]
  }

  lemma {:induction false} ValueOfDigits(n: nat)
    ensures Value(Digits(n)) == n
  {
    if n >= 10 {
      ValueOfDigits(n / 10);
      assert Digits(n)[..|Digits(n)| - 1] == Digits(n / 10);
    } else {
      assert [n][..0] == [];
    }
  }

  function DigitChar(d: Digit): (c: char)
  {
    ['0', '1', '2', '3', '4', '5', '6', '7', '8', '9'][d]
  }

  function CharDigit(c: char): (d: Option<Digit>)
    ensures d.Some? ==> DigitChar(d.value) == c
    ensures d.None? ==> forall e: Digit :: DigitChar(e) != c
  {
    if '0' <= c <= '9' then Some(c as int - '0' as int) else None
  }

  /** Digits in the symbols of an alphabet. */
  function Write<T>(ds: seq<Digit>, symbol: Digit -> T): (s: seq<T>)
    ensures |s| == |ds|
    ensures forall i :: 0 <= i < |ds| ==> s[i] == symbol(ds[i])
  {
    seq(|ds|, i requires 0 <= i < |ds| => symbol(ds[i]))
  }

  /** The digits that symbols stand for, if they all do. */
  function Read<T>(s: seq<T>, digit: T -> Option<Digit>): Option<seq<Digit>> {
    if s == [] then Some([]) else
      var init, last := Read(s[..|s| - 1], digit), digit(s[|s| - 1]);
      if init.Some? && last.Some? then Some(init.value + [last.value]) else None
  }

  lemma {:induction false} ReadWritten<T>(ds: seq<Digit>, symbol: Digit -> T, digit: T -> Option<Digit>)
    requires forall d: Digit :: digit(symbol(d)) == Some(d)
    ensures Read(Write(ds, symbol), digit) == Some(ds)
  {
    if ds != [] {
      var init, last := ds[..|ds| - 1], ds[|ds| - 1];
      ReadWritten(init, symbol, digit);
      assert Write(ds, symbol)[..|ds| - 1] == Write(init, symbol);
      assert ds == init + [last];
    }
  }

  lemma {:induction false} ReadAreDigits<T>(s: seq<T>, digit: T -> Option<Digit>)
    requires Read(s, digit).Some?
    ensures forall i :: 0 <= i < |s| ==> digit(s[i]).Some?
  {
    if s != [] {
      ReadAreDigits(s[..|s| - 1], digit);
    }
  }

  function Pow10(n: nat): nat {
    if n == 0 then 1 else 10 * Pow10(n - 1)
  }

  /** Each digit by its place: the first is worth the most. */
  function PlaceValue<T>(s: seq<T>, worth: T -> nat): nat {
    if s == [] then 0 else worth(s[0]) * Pow10(|s| - 1) + PlaceValue(s[1..], worth)
  }

  lemma {:induction false} PlaceValueSnoc<T>(s: seq<T>, last: T, worth: T -> nat)
    ensures PlaceValue(s + [last], worth) == 10 * PlaceValue(s, worth) + worth(last)
  {
    if s == [] {
      assert ([] + [last])[1..] == [];
    } else {
      PlaceValueSnoc(s[1..], last, worth);
      assert (s + [last])[1..] == s[1..] + [last];
      ScaledByTen(worth(s[0]), Pow10(|s| - 1));
    }
  }

  lemma ScaledByTen(d: nat, p: nat)
    ensures d * (10 * p) == 10 * (d * p)
  {
  }

  /** Reading succeeds when every symbol is a digit, and the digits make the value of their places. */
  lemma {:induction false} ReadIs<T>(s: seq<T>, digit: T -> Option<Digit>, worth: T -> nat)
    requires forall c :: digit(c).Some? ==> digit(c).value == worth(c)
    ensures Read(s, digit).Some? <==> forall i :: 0 <= i < |s| ==> digit(s[i]).Some?
    ensures Read(s, digit).Some? ==>
              |Read(s, digit).value| == |s| && Value(Read(s, digit).value) == PlaceValue(s, worth)
  {
    if s != [] {
      var init, last := s[..|s| - 1], s[|s| - 1];
      ReadIs(init, digit, worth);
      PlaceValueSnoc(init, last, worth);
      assert s == init + [last];
      assert forall i :: 0 <= i < |init| ==> s[i] == init[i];
    }
  }

  function Chars(ds: seq<Digit>): string {
    Write(ds, DigitChar)
  }

  /** `n.to_string()`. */
  function Print(n: nat): string {
    Chars(Digits(n))
  }

  lemma PrintInjective(m: nat, n: nat)
    requires Print(m) == Print(n)
    ensures m == n
  {
    var ds, es := Digits(m), Digits(n);
    assert |ds| == |es| by { assert |Chars(ds)| == |Chars(es)|; }
    forall i | 0 <= i < |ds| ensures ds[i] == es[i] {
      assert DigitChar(ds[i]) == Chars(ds)[i] == Chars(es)[i] == DigitChar(es[i]);
    }
    assert ds == es;
    ValueOfDigits(m);
    ValueOfDigits(n);
  }
}
