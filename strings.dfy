/**
  Text helpers the converter relies on: Python's `str.strip()` with no
  arguments, decimal rendering of a natural number (`str(n)`), and the
  zero-padded two-digit rendering `f"{n:02d}"`, each with the reading
  back that shows nothing is lost.
 */
module Strings {

  // ---------------------------------------------------------------------
  // Whitespace stripping
  // ---------------------------------------------------------------------

  /** The characters Python treats as whitespace, which `str.strip()` removes from both ends. */
  predicate IsSpace(c: char) {
    || c == ' ' || c == '\t' || c == '\n' || c == '\r' || c == '\U{000B}' || c == '\U{000C}'
    || ('\U{001C}' <= c <= '\U{001F}')
    || c == '\U{0085}' || c == '\U{00A0}' || c == '\U{1680}'
    || ('\U{2000}' <= c <= '\U{200A}')
    || c == '\U{2028}' || c == '\U{2029}' || c == '\U{202F}' || c == '\U{205F}' || c == '\U{3000}'
  }

  predicate AllSpace(s: string) {
    forall i :: 0 <= i < |s| ==> IsSpace(s[i])
  }

  /** Neither end of `s` is whitespace (an empty string qualifies). */
  predicate IsTrimmed(s: string) {
    |s| > 0 ==> !IsSpace(s[0]) && !IsSpace(s[|s| - 1])
  }

  function TrimLeft(s: string): string
    decreases |s|
  {
    if |s| > 0 && IsSpace(s[0]) then TrimLeft(s[1..]) else s
  }

  function TrimRight(s: string): string
    decreases |s|
  {
    if |s| > 0 && IsSpace(s[|s| - 1]) then TrimRight(s[..|s| - 1]) else s
  }

  /** Python's `s.strip()`. */
  function Strip(s: string): string {
    TrimRight(TrimLeft(s))
  }

  lemma {:induction false} TrimLeftSplit(s: string) returns (i: nat)
    ensures i <= |s| && TrimLeft(s) == s[i..]
    ensures AllSpace(s[..i])
    ensures i < |s| ==> !IsSpace(s[i])
    decreases |s|
  {
    if |s| > 0 && IsSpace(s[0]) {
      var k := TrimLeftSplit(s[1..]);
      i := k + 1;
      assert s[1..][k..] == s[i..];
      assert forall j :: 0 < j < i ==> s[..i][j] == s[1..][..k][j - 1];
    } else {
      i := 0;
    }
  }

  lemma {:induction false} TrimRightSplit(s: string) returns (j: nat)
    ensures j <= |s| && TrimRight(s) == s[..j]
    ensures AllSpace(s[j..])
    ensures j > 0 ==> !IsSpace(s[j - 1])
    decreases |s|
  {
    if |s| > 0 && IsSpace(s[|s| - 1]) {
      var p := s[..|s| - 1];
      j := TrimRightSplit(p);
      assert p[..j] == s[..j];
      assert forall k :: j <= k < |s| - 1 ==> s[k] == p[j..][k - j];
    } else {
      j := |s|;
    }
  }

  /**
    `Strip(s)` is the slice `s[i..j]` that remains once every leading and
    trailing whitespace character has been removed: what is cut off is all
    whitespace and what remains starts and ends with a non-whitespace
    character.
   */
  lemma StripSplit(s: string) returns (i: nat, j: nat)
    ensures i <= j <= |s| && Strip(s) == s[i..j]
    ensures AllSpace(s[..i]) && AllSpace(s[j..])
    ensures IsTrimmed(Strip(s))
  {
    i := TrimLeftSplit(s);
    var t := s[i..];
    var k := TrimRightSplit(t);
    j := i + k;
    assert t[..k] == s[i..j];
    assert s[j..] == t[k..];
  }

  /** A string that neither starts nor ends with whitespace is left alone by `strip`. */
  lemma StripTrimmed(s: string)
    requires IsTrimmed(s)
    ensures Strip(s) == s
  {
  }

  /** Stripping twice is stripping once. */
  lemma StripIdempotent(s: string)
    ensures Strip(Strip(s)) == Strip(s)
  {
    var _, _ := StripSplit(s);
    StripTrimmed(Strip(s));
  }

  // ---------------------------------------------------------------------
  // Decimal rendering
  // ---------------------------------------------------------------------

  predicate IsDigit(c: char) {
    '0' <= c <= '9'
  }

  predicate IsDigits(s: string) {
    forall i :: 0 <= i < |s| ==> IsDigit(s[i])
  }

  function DigitChar(d: nat): (c: char)
    requires d < 10
  {
    ('0' as int + d) as char
  }

  /** `str(n)` for a natural number: decimal digits, no sign, no leading zero. */
  function NatToDecimal(n: nat): string
    decreases n
  {
    if n < 10 then [DigitChar(n)] else NatToDecimal(n / 10) + [DigitChar(n % 10)]
  }

  /** The number a string of decimal digits denotes (leading zeros allowed): `int(s)`. */
  function DecimalValue(s: string): nat
    requires IsDigits(s)
    decreases |s|
  {
    if s == [] then 0
    else DecimalValue(s[..|s| - 1]) * 10 + (s[|s| - 1] as int - '0' as int)
  }

  /** Reading back `str(n)` gives `n`. */
  lemma {:induction false} DecimalRoundTrip(n: nat)
    ensures IsDigits(NatToDecimal(n))
    ensures DecimalValue(NatToDecimal(n)) == n
    decreases n
  {
    if n >= 10 {
      DecimalRoundTrip(n / 10);
      var s := NatToDecimal(n);
      assert s[..|s| - 1] == NatToDecimal(n / 10);
    }
  }

  /** `str(n)` has one digit below 10, two from 10 to 99 and at least three from 100 on. */
  lemma {:induction false} DecimalLength(n: nat)
    ensures 1 <= |NatToDecimal(n)|
    ensures |NatToDecimal(n)| == 1 <==> n < 10
    ensures |NatToDecimal(n)| == 2 <==> 10 <= n < 100
    decreases n
  {
    if n >= 10 {
      DecimalLength(n / 10);
    }
  }

  /** A leading zero does not change the value of a digit string. */
  lemma {:induction false} LeadingZero(s: string)
    requires IsDigits(s)
    ensures IsDigits("0" + s) && DecimalValue("0" + s) == DecimalValue(s)
    decreases |s|
  {
    if s != [] {
      var p := s[..|s| - 1];
      LeadingZero(p);
      assert ("0" + s)[..|s|] == "0" + p;
    }
  }

  /** `f"{n:02d}"`: at least two digits, zero-padded on the left; 100 and above are not cut. */
  function Pad2(n: nat): string {
    if n < 10 then "0" + NatToDecimal(n) else NatToDecimal(n)
  }

  /** Reading back `f"{n:02d}"` gives `n`, so distinct numbers are rendered distinctly. */
  lemma Pad2RoundTrip(n: nat)
    ensures IsDigits(Pad2(n)) && DecimalValue(Pad2(n)) == n
  {
    DecimalRoundTrip(n);
    if n < 10 {
      LeadingZero(NatToDecimal(n));
    }
  }

  /** The padded rendering is exactly two characters wide precisely for the numbers below 100. */
  lemma Pad2Width(n: nat)
    ensures |Pad2(n)| >= 2
    ensures |Pad2(n)| == 2 <==> n < 100
  {
    DecimalLength(n);
  }

  lemma Pad2Injective(m: nat, n: nat)
    requires Pad2(m) == Pad2(n)
    ensures m == n
  {
    Pad2RoundTrip(m);
    Pad2RoundTrip(n);
  }
}
