/** How the report prints a duration: Python's `str` of a float that holds a
    whole number of milliseconds divided by 1000 (`120.0`, `121.5`, `0.125`),
    and a reader that recovers the milliseconds from that text. */
module Formatting {
  import opened Wrappers
  import opened Strings

  predicate IsDigit(c: char)
  {
    '0' <= c <= '9'
  }

  predicate AllDigits(s: string)
  {
    forall i :: 0 <= i < |s| ==> IsDigit(s[i])
  }

  function DigitChar(d: nat): (c: char)
    requires d < 10
    ensures IsDigit(c) && DigitValue(c) == d
  {
    ('0' as int + d) as char
  }

  function DigitValue(c: char): (d: nat)
    requires IsDigit(c)
    ensures d < 10
  {
    c as int - '0' as int
  }

  /** The number a string of decimal digits denotes. */
  function DecimalValue(s: string): (n: nat)
    requires AllDigits(s)
  {
    if |s| == 0 then 0 else DecimalValue(s[..|s| - 1]) * 10 + DigitValue(s[|s| - 1])
  }

  /** Decimal digits of `n` without leading zeros (`str(int)`). */
  function NatToDecimal(n: nat): (s: string)
    ensures |s| > 0 && AllDigits(s)
    ensures DecimalValue(s) == n
    ensures s[0] == '0' ==> s == "0"
  {
    if n < 10 then [DigitChar(n)]
    else
      var prefix := NatToDecimal(n / 10);
      var s := prefix + [DigitChar(n % 10)];
      assert s[..|s| - 1] == prefix;
      s
  }

  /** The weight of the last digit of a fraction of one to three digits. */
  function FractionScale(digits: nat): nat
  {
    if digits == 1 then 100 else if digits == 2 then 10 else 1
  }

  /** The digits after the point of `r / 1000` for `r < 1000` in shortest
      form: trailing zeros dropped, but at least one digit. */
  function FractionDigits(r: nat): (s: string)
    requires r < 1000
    ensures 1 <= |s| <= 3 && AllDigits(s)
    ensures DecimalValue(s) * FractionScale(|s|) == r
    ensures |s| > 1 ==> s[|s| - 1] != '0'
  {
    var d1, d2, d3 := r / 10 / 10, r / 10 % 10, r % 10;
    var one := [DigitChar(d1)];
    DecimalAppend([], DigitChar(d1));
    DecimalAppend(one, DigitChar(d2));
    DecimalAppend(one + [DigitChar(d2)], DigitChar(d3));
    if d2 == 0 && d3 == 0 then one
    else if d3 == 0 then one + [DigitChar(d2)]
    else one + [DigitChar(d2)] + [DigitChar(d3)]
  }

  lemma DecimalAppend(s: string, c: char)
    requires AllDigits(s) && IsDigit(c)
    ensures AllDigits(s + [c]) && DecimalValue(s + [c]) == DecimalValue(s) * 10 + DigitValue(c)
  {
    assert (s + [c])[..|s|] == s;
  }

  /** `str(ms / 1000)` for a float holding a whole number of milliseconds:
      the whole seconds, a point, and the shortest fraction. */
  function FormatSeconds(ms: nat): (s: string)
  {
    NatToDecimal(ms / 1000) + "." + FractionDigits(ms % 1000)
  }

  /** Reads `<digits>.<one to three digits>` back as milliseconds. */
  function ParseSeconds(s: string): (millis: Option<nat>)
  {
    var dot := LastIndexOf(s, '.');
    if dot < 0 then None
    else
      var whole, fraction := s[..dot], s[dot + 1..];
      if |whole| == 0 || !AllDigits(whole) || |fraction| == 0 || |fraction| > 3 || !AllDigits(fraction) then None
      else Some(DecimalValue(whole) * 1000 + DecimalValue(fraction) * FractionScale(|fraction|))
  }

  /** A printed duration reads back as the same number of milliseconds, so
      the printed form loses nothing and distinct durations print differently. */
  lemma FormatSecondsRoundTrip(ms: nat)
    ensures ParseSeconds(FormatSeconds(ms)) == Some(ms)
  {
    var whole := NatToDecimal(ms / 1000);
    var fraction := FractionDigits(ms % 1000);
    var s := FormatSeconds(ms);
    assert s == whole + "." + fraction;
    assert s[|whole|] == '.';
    assert forall j :: |whole| < j < |s| ==> s[j] == fraction[j - |whole| - 1];
    var dot := LastIndexOf(s, '.');
    assert dot == |whole|;
    assert s[..dot] == whole && s[dot + 1..] == fraction;
  }

  /** A printed duration is never the `-` placeholder of an unmatched video. */
  lemma FormatSecondsIsNotDash(ms: nat)
    ensures FormatSeconds(ms) != "-"
  {
    var s := FormatSeconds(ms);
    assert IsDigit(s[0]);
  }

  /** Whole seconds print with `.0` (`120.0`), as Python's `str` of a float does. */
  lemma FormatWhole(seconds: nat)
    ensures FormatSeconds(seconds * 1000) == NatToDecimal(seconds) + ".0"
  {
    assert (seconds * 1000) / 1000 == seconds && (seconds * 1000) % 1000 == 0;
    assert FractionDigits(0) == "0";
  }

  lemma HalfFraction()
    ensures FractionDigits(500) == "5"
  {
  }

  /** Trailing zeros of the milliseconds are dropped: `121.5`, not `121.500`. */
  lemma FormatHalf(seconds: nat)
    ensures FormatSeconds(seconds * 1000 + 500) == NatToDecimal(seconds) + ".5"
  {
    assert (seconds * 1000 + 500) / 1000 == seconds && (seconds * 1000 + 500) % 1000 == 500;
    HalfFraction();
  }
}
