/** Decimal text: Python's `str(n)`, `int(text)`, `int(float(text))` and
    `text.isdigit()`, for ASCII digits. */
module Decimal {
  import opened Wrappers
  import opened Text

  predicate IsDigit(c: char)
  {
    '0' <= c <= '9'
  }

  predicate AllDigits(s: string)
  {
    forall i :: 0 <= i < |s| ==> IsDigit(s[i])
  }

  /** `s.isdigit()`: non-empty and digits only. */
  predicate IsDigitText(s: string)
  {
    |s| > 0 && AllDigits(s)
  }

  function DigitValue(c: char): nat
    requires IsDigit(c)
  {
    c as int - '0' as int
  }

  function DigitChar(d: nat): (c: char)
    requires d < 10
    ensures IsDigit(c) && DigitValue(c) == d
  {
    ('0' as int + d) as char
  }

  /** The number a run of digits denotes (leading zeros allowed). */
  function DigitsValue(s: string): nat
    requires AllDigits(s)
  {
    if |s| == 0 then 0 else DigitsValue(s[..|s| - 1]) * 10 + DigitValue(s[|s| - 1])
  }

  /** `str(n)` for a natural number: no leading zeros. */
  function NatToString(n: nat): (s: string)
    ensures IsDigitText(s)
    ensures |s| > 1 ==> s[0] != '0'
  {
    if n < 10 then [DigitChar(n)] else NatToString(n / 10) + [DigitChar(n % 10)]
  }

  lemma {:induction false} NatToStringRoundTrip(n: nat)
    ensures DigitsValue(NatToString(n)) == n
  {
    if n >= 10 {
      var s := NatToString(n);
      assert s[..|s| - 1] == NatToString(n / 10);
      NatToStringRoundTrip(n / 10);
    }
  }

  /** `str(n)` */
  function IntToString(n: int): string
  {
    if n < 0 then "-" + NatToString(-n) else NatToString(n)
  }

  lemma IntToStringNoSpace(n: int)
    ensures NoSpace(IntToString(n))
    ensures '.' !in IntToString(n) && '-' !in IntToString(n)[1..]
  {
    var d := NatToString(if n < 0 then -n else n);
    assert forall i :: 0 <= i < |d| ==> IsDigit(d[i]);
  }

  /** `int(s)` in base 10, restricted to surrounding whitespace, an
      optional sign and one or more ASCII digits; every other text is
      treated as the `ValueError` case (Python also accepts `_` between
      digits and non-ASCII digits, which this model does not). */
  function ParseInt(s: string): (r: Option<int>)
    ensures r.Some? ==> |Strip(s)| > 0
  {
    var t := Strip(s);
    if |t| > 0 && (t[0] == '+' || t[0] == '-') then
      var d := t[1..];
      var v: int := if IsDigitText(d) then DigitsValue(d) else 0;
      if IsDigitText(d) then Some(if t[0] == '-' then -v else v) else None
    else if IsDigitText(t) then Some(DigitsValue(t))
    else None
  }

  /** `int(str(n)) == n` */
  lemma ParseIntRoundTrip(n: int)
    ensures ParseInt(IntToString(n)) == Some(n)
  {
    IntToStringNoSpace(n);
    StripNoSpace(IntToString(n));
    if n < 0 {
      assert IntToString(n)[1..] == NatToString(-n);
      NatToStringRoundTrip(-n);
    } else {
      NatToStringRoundTrip(n);
    }
  }

  /** Position of the first `c` in `s`, or `|s|` when there is none. */
  function IndexOf(s: string, c: char): (k: nat)
    ensures k <= |s|
    ensures k < |s| ==> s[k] == c
    ensures c !in s[..k]
  {
    if |s| == 0 then 0
    else if s[0] == c then 0
    else
      var k := IndexOf(s[1..], c);
      assert s[..k + 1] == [s[0]] + s[1..][..k];
      k + 1
  }

  /** `int(float(u))` for an unsigned decimal `digits [. digits]` with at
      least one digit: the whole part, the fraction being dropped. */
  function UnsignedTruncate(u: string): Option<nat>
  {
    var k := IndexOf(u, '.');
    var whole := u[..k];
    var frac := if k < |u| then u[k + 1..] else "";
    if AllDigits(whole) && AllDigits(frac) && |whole| + |frac| > 0 then Some(DigitsValue(whole))
    else None
  }

  /** `int(float(t))` for a stripped decimal text with an optional sign: the
      value truncated toward zero, or `None` for the `ValueError` case. */
  function TruncateDecimal(t: string): (r: Option<int>)
    ensures r.Some? ==> |t| > 0
  {
    if |t| > 0 && (t[0] == '+' || t[0] == '-') then
      match UnsignedTruncate(t[1..])
      case None => None
      case Some(u) =>
        var v: int := u;
        Some(if t[0] == '-' then -v else v)
    else
      UnsignedTruncate(t)
  }

  lemma NoDotInDigits(d: string)
    requires AllDigits(d)
    ensures '.' !in d
  {
  }

  /** The unsigned part: `digits` and `digits.frac` both truncate to the
      value of `digits`. */
  lemma UnsignedTruncateDigits(d: string, frac: string)
    requires IsDigitText(d) && AllDigits(frac)
    ensures UnsignedTruncate(d + "." + frac) == Some(DigitsValue(d))
    ensures UnsignedTruncate(d) == Some(DigitsValue(d))
  {
    NoDotInDigits(d);
    var u := d + "." + frac;
    assert u[..|d|] == d;
    assert IndexOf(u, '.') == |d| by {
      assert u[|d|] == '.';
      assert '.' !in u[..|d|];
    }
    assert u[|d| + 1..] == frac;
    assert d[..|d|] == d;
  }

  /** A leading sign is peeled off before the unsigned part is read. */
  lemma TruncateWithSign(sign: char, u: string)
    requires sign == '+' || sign == '-'
    requires UnsignedTruncate(u).Some?
    ensures var v: int := UnsignedTruncate(u).value;
            TruncateDecimal([sign] + u) == Some(if sign == '-' then -v else v)
  {
    var t := [sign] + u;
    assert t[0] == sign;
    assert t[1..] == u;
  }

  lemma TruncateUnsigned(d: string, frac: string)
    requires IsDigitText(d) && AllDigits(frac)
    ensures TruncateDecimal(d + "." + frac) == Some(DigitsValue(d))
    ensures TruncateDecimal(d) == Some(DigitsValue(d))
  {
    UnsignedTruncateDigits(d, frac);
    assert IsDigit(d[0]);
    assert (d + "." + frac)[0] == d[0];
  }

  /** A fraction is dropped, not rounded: `int(float("n.f")) == n`. */
  lemma TruncateDropsFraction(n: int, frac: string)
    requires AllDigits(frac)
    ensures TruncateDecimal(IntToString(n) + "." + frac) == Some(n)
    ensures TruncateDecimal(IntToString(n)) == Some(n)
  {
    if n < 0 {
      var d := NatToString(-n);
      NatToStringRoundTrip(-n);
      UnsignedTruncateDigits(d, frac);
      assert IntToString(n) == ['-'] + d;
      assert IntToString(n) + "." + frac == ['-'] + (d + "." + frac);
      TruncateWithSign('-', d + "." + frac);
      TruncateWithSign('-', d);
    } else {
      var d := NatToString(n);
      NatToStringRoundTrip(n);
      TruncateUnsigned(d, frac);
    }
  }
}
