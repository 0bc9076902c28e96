/**
 * Decimal rendering of natural numbers, as done by `%d` in the debugger
 * helper and by `print_stream::print` in the kernel, together with the
 * digit scanner that reads such a rendering back.
 */
module Decimal {

  predicate IsDigit(c: char) {
    '0' <= c <= '9'
  }

  predicate AllDigits(s: string) {
    forall k :: 0 <= k < |s| ==> IsDigit(s[k])
  }

  function DigitChar(d: nat): (c: char)
    requires d < 10
    ensures IsDigit(c)
  {
    ['0', '1', '2', '3', '4', '5', '6', '7', '8', '9'][d]
  }

  function DigitValue(c: char): (d: nat)
    requires IsDigit(c)
    ensures d < 10 && DigitChar(d) == c
  {
    (c as int - '0' as int) as nat
  }

  /** The value a string of digits denotes, most significant digit first. */
  function DigitsValue(s: string): nat
    requires AllDigits(s)
  {
    if |s| == 0 then 0 else DigitsValue(s[..|s| - 1]) * 10 + DigitValue(s[|s| - 1])
  }

  /** Shortest decimal rendering of n, without sign or leading zeros. */
  function Dec(n: nat): (s: string)
    ensures |s| > 0 && AllDigits(s)
    ensures DigitsValue(s) == n
    ensures |s| > 1 ==> s[0] != '0'
  {
    if n < 10 then [DigitChar(n)]
    else
      var s := Dec(n / 10) + [DigitChar(n % 10)];
      assert s[..|s| - 1] == Dec(n / 10);
      s
  }

  /** Number of leading digit characters of s. */
  function DigitRun(s: string): (k: nat)
    ensures k <= |s|
    ensures forall j :: 0 <= j < k ==> IsDigit(s[j])
    ensures k < |s| ==> !IsDigit(s[k])
  {
    if |s| > 0 && IsDigit(s[0]) then 1 + DigitRun(s[1..]) else 0
  }

  /** Splits s into its longest all-digit prefix and the rest. */
  function SpanDigits(s: string): (r: (string, string))
    ensures r.0 + r.1 == s
    ensures AllDigits(r.0)
    ensures |r.1| > 0 ==> !IsDigit(r.1[0])
  {
    var k := DigitRun(s);
    assert s[..k] + s[k..] == s;
    (s[..k], s[k..])
  }

  /** The digit run of a string of digits followed by a non-digit is exactly those digits. */
  lemma {:induction false} DigitRunOfDigits(p: string, t: string)
    requires AllDigits(p)
    requires |t| > 0 ==> !IsDigit(t[0])
    ensures DigitRun(p + t) == |p|
  {
    if |p| > 0 {
      assert (p + t)[1..] == p[1..] + t;
      DigitRunOfDigits(p[1..], t);
    }
  }

  /** Scanning digits off a rendering stops exactly where the next non-digit begins. */
  lemma SpanDigitsOfDigits(p: string, t: string)
    requires AllDigits(p)
    requires |t| > 0 ==> !IsDigit(t[0])
    ensures SpanDigits(p + t) == (p, t)
  {
    DigitRunOfDigits(p, t);
    assert (p + t)[..|p|] == p;
    assert (p + t)[|p|..] == t;
  }

  /** Reading a number back: the value of Dec(n) followed by a non-digit is n. */
  lemma DecRoundTrip(n: nat, t: string)
    requires |t| > 0 ==> !IsDigit(t[0])
    ensures SpanDigits(Dec(n) + t) == (Dec(n), t)
    ensures DigitsValue(SpanDigits(Dec(n) + t).0) == n
  {
    SpanDigitsOfDigits(Dec(n), t);
  }
}
