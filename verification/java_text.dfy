/**
 * The few java.lang string operations the time-of-day text code relies on:
 * Integer.parseInt in radix 10, the decimal text that StringBuilder.append
 * writes for a non-negative long, and String.indexOf / lastIndexOf of a
 * character.
 */
module JavaText {
  import opened Wrappers
  import opened JavaInt

  predicate IsDigit(c: char) { '0' <= c <= '9' }

  predicate AllDigits(s: string) { forall i :: 0 <= i < |s| ==> IsDigit(s[i]) }

  function DigitValue(c: char): (d: nat)
    requires IsDigit(c)
    ensures d < 10
  {
    c as int - '0' as int
  }

  function DigitChar(d: nat): (c: char)
    requires d < 10
    ensures IsDigit(c) && DigitValue(c) == d
  {
    ('0' as int + d) as char
  }

  /** Every character of s[lo..hi] is a digit. */
  predicate DigitsBetween(s: string, lo: nat, hi: nat)
    requires lo <= hi <= |s|
  {
    forall i :: lo <= i < hi ==> IsDigit(s[i])
  }

  /** The value of the digits s[lo..hi], most significant first, read as parseInt does. */
  function ValueBetween(s: string, lo: nat, hi: nat): nat
    requires lo <= hi <= |s| && DigitsBetween(s, lo, hi)
    decreases hi - lo
  {
    if hi == lo then 0 else ValueBetween(s, lo, hi - 1) * 10 + DigitValue(s[hi - 1])
  }

  /** The value of a string of decimal digits. */
  function DigitsValue(s: string): nat
    requires AllDigits(s)
  {
    ValueBetween(s, 0, |s|)
  }

  /** Digits read from a prefix do not depend on what follows it. */
  lemma {:induction false} ValueOfPrefix(a: string, b: string, hi: nat)
    requires hi <= |a| && DigitsBetween(a, 0, hi)
    ensures DigitsBetween(a + b, 0, hi) && ValueBetween(a + b, 0, hi) == ValueBetween(a, 0, hi)
  {
    if hi > 0 {
      ValueOfPrefix(a, b, hi - 1);
      assert (a + b)[hi - 1] == a[hi - 1];
    }
  }

  /** The text Java writes for a non-negative integer: its decimal digits. */
  function DecimalText(n: nat): (s: string)
    ensures |s| >= 1
    ensures |s| == 1 <==> n < 10
  {
    if n < 10 then [DigitChar(n)] else DecimalText(n / 10) + [DigitChar(n % 10)]
  }

  /**
   * The decimal text is all digits, has no leading zero, and reads back
   * as n.
   */
  lemma {:induction false} DecimalTextValue(n: nat)
    ensures AllDigits(DecimalText(n)) && DigitsValue(DecimalText(n)) == n
    ensures n >= 10 ==> DecimalText(n)[0] != '0'
  {
    if n >= 10 {
      var p := DecimalText(n / 10);
      DecimalTextValue(n / 10);
      ValueOfPrefix(p, [DigitChar(n % 10)], |p|);
      assert DecimalText(n)[0] == p[0];
    }
  }

  /**
   * Integer.parseInt(s): an optional '-' or '+' followed by at least one
   * ASCII digit, whose value fits in an int; anything else is a
   * NumberFormatException, here None.
   */
  function ParseInt(s: string): (r: Option<int>)
    ensures r.Some? ==> |s| > 0 && IsInt(r.value)
  {
    if |s| == 0 then None
    else
      var start := if s[0] == '-' || s[0] == '+' then 1 else 0;
      if start == |s| || !DigitsBetween(s, start, |s|) then None
      else
        var magnitude := ValueBetween(s, start, |s|);
        var v: int := if s[0] == '-' then -(magnitude as int) else magnitude;
        if IsInt(v) then Some(v) else None
  }

  /** A non-empty string of digits parses to its value, or fails when that exceeds an int. */
  lemma ParseIntOfDigits(s: string)
    requires |s| > 0 && AllDigits(s)
    ensures ParseInt(s) == if DigitsValue(s) <= MaxInt then Some(DigitsValue(s) as int) else None
  {
  }

  /** A string that parses as an int holds only a sign and digits, so no other character. */
  lemma ParseIntCharacters(s: string)
    requires ParseInt(s).Some?
    ensures forall i :: 0 <= i < |s| ==> IsDigit(s[i]) || (i == 0 && (s[i] == '-' || s[i] == '+'))
  {
  }

  /** String.indexOf(c): the first position holding c, or -1. */
  function IndexOf(s: string, c: char): (i: int)
    ensures -1 <= i < |s|
    ensures i >= 0 ==> s[i] == c && forall j :: 0 <= j < i ==> s[j] != c
    ensures i == -1 ==> forall j :: 0 <= j < |s| ==> s[j] != c
  {
    IndexFrom(s, c, 0)
  }

  /** The first position at or after `from` holding c, or -1. */
  function IndexFrom(s: string, c: char, from: nat): (i: int)
    requires from <= |s|
    ensures i == -1 || from <= i < |s|
    ensures i >= 0 ==> s[i] == c && forall j :: from <= j < i ==> s[j] != c
    ensures i == -1 ==> forall j :: from <= j < |s| ==> s[j] != c
    decreases |s| - from
  {
    if from == |s| then -1
    else if s[from] == c then from
    else IndexFrom(s, c, from + 1)
  }

  /** String.lastIndexOf(c): the last position holding c, or -1. */
  function LastIndexOf(s: string, c: char): (i: int)
    ensures -1 <= i < |s|
    ensures i >= 0 ==> s[i] == c && forall j :: i < j < |s| ==> s[j] != c
    ensures i == -1 ==> forall j :: 0 <= j < |s| ==> s[j] != c
  {
    LastIndexBefore(s, c, |s|)
  }

  /** The last position before `upTo` holding c, or -1. */
  function LastIndexBefore(s: string, c: char, upTo: nat): (i: int)
    requires upTo <= |s|
    ensures -1 <= i < upTo
    ensures i >= 0 ==> s[i] == c && forall j :: i < j < upTo ==> s[j] != c
    ensures i == -1 ==> forall j :: 0 <= j < upTo ==> s[j] != c
  {
    if upTo == 0 then -1
    else if s[upTo - 1] == c then upTo - 1
    else LastIndexBefore(s, c, upTo - 1)
  }
}
