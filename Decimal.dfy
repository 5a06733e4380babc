/**
 * Decimal text of integers as JavaScript template literals and `toString()` write it,
 * `String.prototype.padStart` with a one-character fill, and a reader that recovers
 * the numbers written in a text (used to state round trips of the duration formatters).
 */
module Decimal {

  predicate IsDigit(c: char) {
    '0' <= c <= '9'
  }

  predicate AllDigits(s: string) {
    forall i :: 0 <= i < |s| ==> IsDigit(s[i])
  }

  function DigitChar(d: nat): (c: char)
    requires d < 10
    ensures IsDigit(c)
  {
    ('0' as int + d) as char
  }

  function DigitValue(c: char): (d: nat)
    requires IsDigit(c)
    ensures d < 10 && DigitChar(d) == c
  {
    c as int - '0' as int
  }

  /** `${n}` for a non-negative integer `n`: its shortest decimal text. */
  function NatToString(n: nat): (s: string)
    ensures |s| >= 1 && AllDigits(s)
    ensures s[0] == '0' ==> n == 0
    ensures n < 10 <==> |s| == 1
    ensures n < 100 ==> |s| <= 2
    decreases n
  {
    if n < 10 then [DigitChar(n)] else NatToString(n / 10) + [DigitChar(n % 10)]
  }

  /** Numbers from 100 up take at least three digits. */
  lemma NatToStringLong(n: nat)
    requires n >= 100
    ensures |NatToString(n)| >= 3
  {
    assert NatToString(n) == NatToString(n / 10) + [DigitChar(n % 10)];
  }

  /** `${n}` for any integer `n`. */
  function IntToString(n: int): (s: string)
    ensures n >= 0 ==> s == NatToString(n)
    ensures n < 0 ==> s == "-" + NatToString(-n)
  {
    if n >= 0 then NatToString(n) else "-" + NatToString(-n)
  }

  /** The value of a digit string read in base ten (an empty string reads as 0). */
  function DigitsValue(s: string): nat
    requires AllDigits(s)
    decreases |s|
  {
    if s == [] then 0 else 10 * DigitsValue(s[..|s| - 1]) + DigitValue(s[|s| - 1])
  }

  lemma {:induction false} NatToStringRoundTrip(n: nat)
    ensures DigitsValue(NatToString(n)) == n
    decreases n
  {
    if n >= 10 {
      var s := NatToString(n);
      assert s[..|s| - 1] == NatToString(n / 10);
      NatToStringRoundTrip(n / 10);
    }
  }

  /** The text `n` digits `c` long. */
  function Repeat(c: char, n: nat): (r: string)
    ensures |r| == n && forall i :: 0 <= i < n ==> r[i] == c
  {
    if n == 0 then [] else Repeat(c, n - 1) + [c]
  }

  /** `s.padStart(width, [fill])`: prefixes copies of `fill` until `s` is `width` long; never truncates. */
  function PadStart(s: string, width: nat, fill: char): (r: string)
    ensures |r| == if |s| >= width then |s| else width
    ensures r[|r| - |s|..] == s
    ensures forall i :: 0 <= i < |r| - |s| ==> r[i] == fill
  {
    if |s| >= width then s else Repeat(fill, width - |s|) + s
  }

  /** Leading zeros do not change the value of a digit string. */
  lemma {:induction false} LeadingZerosValue(k: nat, s: string)
    requires AllDigits(s)
    ensures AllDigits(Repeat('0', k) + s)
    ensures DigitsValue(Repeat('0', k) + s) == DigitsValue(s)
    decreases |s|
  {
    var t := Repeat('0', k) + s;
    if s == [] {
      ZerosValue(k);
      assert t == Repeat('0', k);
    } else {
      var s' := s[..|s| - 1];
      assert t[..|t| - 1] == Repeat('0', k) + s';
      LeadingZerosValue(k, s');
    }
  }

  lemma {:induction false} ZerosValue(k: nat)
    ensures DigitsValue(Repeat('0', k)) == 0
  {
    if k > 0 {
      assert Repeat('0', k)[..k - 1] == Repeat('0', k - 1);
      ZerosValue(k - 1);
    }
  }

  /** The decimal text of `n` padded with `0` to `width` characters still reads as `n`. */
  lemma PaddedValue(n: nat, width: nat)
    ensures AllDigits(PadStart(NatToString(n), width, '0'))
    ensures DigitsValue(PadStart(NatToString(n), width, '0')) == n
  {
    NatToStringRoundTrip(n);
    PaddedDigits(NatToString(n), width);
  }

  /** Zero-padding a digit string keeps it a digit string of the same value. */
  lemma PaddedDigits(s: string, width: nat)
    requires AllDigits(s)
    ensures AllDigits(PadStart(s, width, '0')) && DigitsValue(PadStart(s, width, '0')) == DigitsValue(s)
  {
    if |s| < width {
      LeadingZerosValue(width - |s|, s);
    }
  }

  // ---------------------------------------------------------------------------
  // Reading numbers back out of a text

  /** The length of the run of digits `s` starts with. */
  function DigitRun(s: string): (k: nat)
    ensures k <= |s| && AllDigits(s[..k])
    ensures k < |s| ==> !IsDigit(s[k])
    ensures s != [] && IsDigit(s[0]) ==> k > 0
    decreases |s|
  {
    if s == [] || !IsDigit(s[0]) then 0
    else
      var k := 1 + DigitRun(s[1..]);
      assert s[..k] == [s[0]] + s[1..][..k - 1];
      k
  }

  /** The values of the maximal runs of digits in `s`, left to right. */
  function Numbers(s: string): seq<nat>
    decreases |s|
  {
    if s == [] then []
    else if !IsDigit(s[0]) then Numbers(s[1..])
    else
      var k := DigitRun(s);
      [DigitsValue(s[..k])] + Numbers(s[k..])
  }

  predicate NoDigits(s: string) {
    forall i :: 0 <= i < |s| ==> !IsDigit(s[i])
  }

  lemma {:induction false} NumbersSkipSeparator(sep: string, t: string)
    requires NoDigits(sep)
    ensures Numbers(sep + t) == Numbers(t)
    decreases |sep|
  {
    if sep != [] {
      var u := sep + t;
      assert u[0] == sep[0] && !IsDigit(u[0]);
      assert u[1..] == sep[1..] + t;
      NumbersSkipSeparator(sep[1..], t);
    } else {
      assert sep + t == t;
    }
  }

  lemma {:induction false} DigitRunOfDigits(d: string, t: string)
    requires AllDigits(d)
    requires t == [] || !IsDigit(t[0])
    ensures DigitRun(d + t) == |d|
    decreases |d|
  {
    if d != [] {
      assert (d + t)[1..] == d[1..] + t;
      DigitRunOfDigits(d[1..], t);
    }
  }

  /** A non-empty digit string followed by a non-digit (or the end) reads as one number. */
  lemma NumbersOfDigitRun(d: string, t: string)
    requires d != [] && AllDigits(d)
    requires t == [] || !IsDigit(t[0])
    ensures Numbers(d + t) == [DigitsValue(d)] + Numbers(t)
  {
    DigitRunOfDigits(d, t);
    assert (d + t)[..|d|] == d;
    assert (d + t)[|d|..] == t;
  }

  /** A number, then a separator with no digits: the number is read and the separator skipped. */
  lemma NumbersOfField(d: string, sep: string, rest: string)
    requires d != [] && AllDigits(d) && sep != [] && NoDigits(sep)
    ensures Numbers(d + sep + rest) == [DigitsValue(d)] + Numbers(rest)
  {
    assert d + sep + rest == d + (sep + rest);
    assert (sep + rest)[0] == sep[0];
    NumbersOfDigitRun(d, sep + rest);
    NumbersSkipSeparator(sep, rest);
  }

  /** Two numbers split by a separator without digits. */
  lemma NumbersOfTwo(a: string, sep: string, b: string)
    requires a != [] && AllDigits(a) && b != [] && AllDigits(b) && sep != [] && NoDigits(sep)
    ensures Numbers(a + sep + b) == [DigitsValue(a), DigitsValue(b)]
  {
    NumbersOfDigitRun(b, []);
    assert b + [] == b;
    NumbersOfField(a, sep, b);
  }

  /** Two numbers, each followed by a unit without digits. */
  lemma NumbersOfTwoFields(a: string, u1: string, b: string, u2: string)
    requires a != [] && AllDigits(a) && b != [] && AllDigits(b)
    requires u1 != [] && NoDigits(u1) && u2 != [] && NoDigits(u2)
    ensures Numbers(a + u1 + b + u2) == [DigitsValue(a), DigitsValue(b)]
  {
    NumbersOfField(b, u2, []);
    assert b + u2 + [] == b + u2;
    NumbersOfField(a, u1, b + u2);
    assert a + u1 + b + u2 == a + u1 + (b + u2);
  }

  /** Three numbers split by one separator without digits. */
  lemma NumbersOfThree(a: string, sep: string, b: string, c: string)
    requires a != [] && AllDigits(a) && b != [] && AllDigits(b) && c != [] && AllDigits(c)
    requires sep != [] && NoDigits(sep)
    ensures Numbers(a + sep + b + sep + c) == [DigitsValue(a), DigitsValue(b), DigitsValue(c)]
  {
    var tail := b + sep + c;
    assert Numbers(tail) == [DigitsValue(b), DigitsValue(c)] by { NumbersOfTwo(b, sep, c); }
    assert Numbers(a + sep + tail) == [DigitsValue(a)] + Numbers(tail) by { NumbersOfField(a, sep, tail); }
    Regroup(a, sep, b, sep, c);
  }

  lemma Regroup(a: string, s1: string, b: string, s2: string, c: string)
    ensures a + s1 + b + s2 + c == a + s1 + (b + s2 + c)
  {
  }
}
