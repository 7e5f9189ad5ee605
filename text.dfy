/** String helpers standing for the JavaScript string operations the core uses. */
module Text {

  /** `s.startsWith(p)` */
  predicate IsPrefix(p: string, s: string)
  {
    |p| <= |s| && s[..|p|] == p
  }

  /** `s.endsWith(suffix)` */
  predicate EndsWith(s: string, suffix: string)
  {
    |suffix| <= |s| && s[|s| - |suffix|..] == suffix
  }

  /** The text of `s` before the first occurrence of `sep`, or all of `s` when `sep`
      does not occur: element 0 of `s.split(sep)`. */
  function Before(s: string, sep: string): (r: string)
    requires sep != ""
    ensures IsPrefix(r, s)
    ensures forall i :: 0 <= i < |r| ==> !IsPrefix(sep, s[i..])
    ensures r == s || IsPrefix(sep, s[|r|..])
    decreases |s|
  {
    if s == "" then ""
    else if IsPrefix(sep, s) then ""
    else
      var rest := Before(s[1..], sep);
      assert forall i :: 1 <= i <= |s| ==> s[i..] == s[1..][i - 1..];
      [s[0]] + rest
  }

  /** The ASCII digit for `d`. */
  function DigitChar(d: nat): (c: char)
    requires d < 10
  {
    (('0' as int) + d) as char
  }

  predicate IsDigit(c: char)
  {
    '0' <= c <= '9'
  }

  predicate AllDigits(s: string)
  {
    forall i :: 0 <= i < |s| ==> IsDigit(s[i])
  }

  /** Decimal rendering of a natural number, as a template literal `${n}` produces it. */
  function NatToDecimal(n: nat): (r: string)
    ensures r != "" && AllDigits(r)
    ensures |r| > 1 ==> r[0] != '0'
    decreases n
  {
    if n < 10 then [DigitChar(n)] else NatToDecimal(n / 10) + [DigitChar(n % 10)]
  }

  /** Decimal rendering of an integer, with a leading '-' for negative values. */
  function IntToDecimal(x: int): (r: string)
    ensures r != ""
    ensures x >= 0 <==> AllDigits(r)
  {
    if x < 0 then
      var r := "-" + NatToDecimal(-x);
      assert !IsDigit(r[0]);
      r
    else NatToDecimal(x)
  }

  /** The value of a string of decimal digits (what `parseInt` returns for it). */
  function DecimalValue(s: string): nat
    requires AllDigits(s)
  {
    if s == "" then 0
    else DecimalValue(s[..|s| - 1]) * 10 + ((s[|s| - 1] as int) - ('0' as int))
  }

  /** Reading back the rendering of `n` gives `n`. */
  lemma {:induction false} DecimalRoundTrip(n: nat)
    ensures DecimalValue(NatToDecimal(n)) == n
  {
    if n >= 10 {
      DecimalRoundTrip(n / 10);
      var r := NatToDecimal(n);
      assert r[..|r| - 1] == NatToDecimal(n / 10);
    }
  }
}
