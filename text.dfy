/**
 * The string functions the notebook applies to cells: Spark's `upper`
 * (over ASCII), a single-character `regexp_replace`, and the implicit cast
 * of an integer to its decimal string that both perform on integer input.
 */
module Text {

  predicate IsLowerAscii(c: char) {
    'a' <= c <= 'z'
  }

  /** Upper-case one character: ASCII letters only, everything else unchanged. */
  function UpperChar(c: char): (u: char)
    ensures !IsLowerAscii(u)
    ensures IsLowerAscii(c) ==> u as int == c as int - 32
    ensures !IsLowerAscii(c) ==> u == c
  {
    if IsLowerAscii(c) then (c as int - 32) as char else c
  }

  /** No lower-case ASCII letter occurs in `s`. */
  predicate IsUpperCased(s: string) {
    forall i :: 0 <= i < |s| ==> !IsLowerAscii(s[i])
  }

  /** Spark's `upper`, over ASCII. */
  function Upper(s: string): (r: string)
    ensures |r| == |s|
    ensures IsUpperCased(r)
    ensures forall i :: 0 <= i < |s| && !IsLowerAscii(s[i]) ==> r[i] == s[i]
    ensures forall i :: 0 <= i < |s| && IsLowerAscii(s[i]) ==> r[i] as int == s[i] as int - 32
  {
    if s == [] then [] else [UpperChar(s[0])] + Upper(s[1..])
  }

  /** Upper-casing twice is upper-casing once. */
  lemma UpperIdempotent(s: string)
    ensures Upper(Upper(s)) == Upper(s)
  {
  }

  /** `regexp_replace(s, from, to)` for a pattern that is one character without regular-expression meaning. */
  function ReplaceEach(s: string, from: char, to: char): (r: string)
    ensures |r| == |s|
    ensures forall i :: 0 <= i < |s| && s[i] == from ==> r[i] == to
    ensures forall i :: 0 <= i < |s| && s[i] != from ==> r[i] == s[i]
  {
    if s == [] then [] else [if s[0] == from then to else s[0]] + ReplaceEach(s[1..], from, to)
  }

  /** After the replacement no `from` is left (unless it is replaced by itself). */
  lemma ReplaceEachRemoves(s: string, from: char, to: char)
    requires from != to
    ensures from !in ReplaceEach(s, from, to)
  {
  }

  /** Replacing twice is replacing once. */
  lemma ReplaceEachIdempotent(s: string, from: char, to: char)
    ensures ReplaceEach(ReplaceEach(s, from, to), from, to) == ReplaceEach(s, from, to)
  {
  }

  predicate IsDigit(c: char) {
    '0' as int <= c as int <= '9' as int
  }

  function DigitChar(d: nat): (c: char)
    requires d < 10
    ensures IsDigit(c) && c as int - '0' as int == d
  {
    ('0' as int + d) as char
  }

  /** Decimal digits of a natural number, most significant first. */
  function Digits(n: nat): (r: string)
    ensures |r| > 0
    ensures forall i :: 0 <= i < |r| ==> IsDigit(r[i])
    ensures r[|r| - 1] as int - '0' as int == n % 10
    ensures |r| == 1 <==> n < 10
    ensures |r| == 1 || r[0] != '0'
  {
    if n < 10 then [DigitChar(n)] else Digits(n / 10) + [DigitChar(n % 10)]
  }

  /** The string an integer is cast to: a minus sign for negatives, then its digits. */
  function DecimalString(n: int): (r: string)
    ensures |r| > 0
    ensures (r[0] == '-') <==> n < 0
    ensures forall i :: 0 < i < |r| ==> IsDigit(r[i])
  {
    if n < 0 then "-" + Digits(-n) else Digits(n)
  }

  /** The number a non-empty string of decimal digits denotes. */
  function DigitsValue(s: string): nat
    requires |s| > 0 && forall i :: 0 <= i < |s| ==> IsDigit(s[i])
  {
    assert IsDigit(s[|s| - 1]);
    var last := s[|s| - 1] as int - '0' as int;
    if |s| == 1 then last else DigitsValue(s[..|s| - 1]) * 10 + last
  }

  /** The integer a decimal string (an optional minus sign, then digits) denotes. */
  function DecimalValue(s: string): int
    requires |s| > 0 && forall i :: 0 < i < |s| ==> IsDigit(s[i])
    requires s[0] == '-' ==> |s| > 1
    requires s[0] != '-' ==> IsDigit(s[0])
  {
    if s[0] == '-' then -(DigitsValue(s[1..]) as int) else DigitsValue(s)
  }

  /** Reading back the digits of `n` gives `n`. */
  lemma {:induction false} DigitsRoundTrip(n: nat)
    ensures DigitsValue(Digits(n)) == n
  {
    if n >= 10 {
      DigitsRoundTrip(n / 10);
      var d := Digits(n);
      assert d[..|d| - 1] == Digits(n / 10);
    }
  }

  /** Reading back the decimal string of `n` gives `n`, so the cast loses nothing. */
  lemma DecimalRoundTrip(n: int)
    ensures DecimalValue(DecimalString(n)) == n
  {
    if n < 0 {
      assert DecimalString(n)[1..] == Digits(-n);
      DigitsRoundTrip(-n);
    } else {
      DigitsRoundTrip(n);
    }
  }

  /** A decimal string has no letters, so upper-casing leaves it as it is. */
  lemma UpperDecimalString(n: int)
    ensures Upper(DecimalString(n)) == DecimalString(n)
  {
    var s := DecimalString(n);
    assert forall i :: 0 <= i < |s| ==> !IsLowerAscii(s[i]);
  }
}
