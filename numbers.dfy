/**
 * Numbers in the rows: the value of digit strings (`int(qty)`), the decimal
 * grammar standing for `is_numeric` / `float(...)`, and `round(x, 2)`.
 * Money is an exact `real`, never an IEEE-754 float.
 */
module Numbers {
  import opened Wrappers
  import opened Text

  function Pow10(k: nat): (p: nat)
    ensures p >= 1
  {
    if k == 0 then 1 else 10 * Pow10(k - 1)
  }

  function DigitValue(c: char): (d: nat)
    requires IsDecimal(c)
    ensures d <= 9
  {
    c as int - '0' as int
  }

  /** The value of a string of decimal digits, most significant first, as
      `int(s)` computes it; the empty string reads as 0. */
  function DigitsValue(s: string): nat
    requires AllDecimal(s)
  {
    if |s| == 0 then 0 else DigitsValue(s[..|s| - 1]) * 10 + DigitValue(s[|s| - 1])
  }

  /** A string of digits has value 0 exactly when every digit is '0'. */
  lemma {:induction false} DigitsValueZero(s: string)
    requires AllDecimal(s)
    ensures DigitsValue(s) == 0 <==> forall i | 0 <= i < |s| :: s[i] == '0'
    decreases |s|
  {
    if |s| > 0 {
      var p := s[..|s| - 1];
      DigitsValueZero(p);
      assert forall i | 0 <= i < |p| :: p[i] == s[i];
    }
  }

  /** Index of the first '.', or the length when there is none. */
  function FirstDot(s: string): (i: nat)
    ensures i <= |s|
    ensures forall k | 0 <= k < i :: s[k] != '.'
    ensures i < |s| ==> s[i] == '.'
    ensures (forall k | 0 <= k < |s| :: s[k] != '.') ==> i == |s|
  {
    if |s| == 0 || s[0] == '.' then 0 else 1 + FirstDot(s[1..])
  }

  /** An unsigned decimal numeral: digits, at most one point, at least one
      digit, in the shapes `12`, `12.`, `12.5` and `.5`. */
  function ParseUnsigned(s: string): (r: Option<real>)
    ensures r.Some? ==> r.value >= 0.0
    ensures r.Some? ==> HasDecimal(s)
  {
    var dot := FirstDot(s);
    if dot == |s| then
      if |s| > 0 && AllDecimal(s) then
        assert IsDecimal(s[0]);
        Some(DigitsValue(s) as real)
      else None
    else
      var whole := s[..dot];
      var frac := s[dot + 1..];
      if AllDecimal(whole) && AllDecimal(frac) && |whole| + |frac| > 0 then
        var w := if |whole| > 0 then 0 else dot + 1;
        assert IsDecimal(s[w]) by {
          if |whole| > 0 { assert s[0] == whole[0]; } else { assert s[dot + 1] == frac[0]; }
        }
        Some(PointValue(whole, frac))
      else None
  }

  /** The value of the numeral `whole.frac`. */
  function PointValue(whole: string, frac: string): real
    requires AllDecimal(whole) && AllDecimal(frac)
  {
    DigitsValue(whole) as real + DigitsValue(frac) as real / Pow10(|frac|) as real
  }

  /** The numerals `is_numeric` accepts, with their value: an optional sign
      and an unsigned numeral. */
  function ParseDecimal(s: string): (r: Option<real>)
    ensures r.Some? && r.value < 0.0 ==> |s| > 0 && s[0] == '-'
    ensures r.Some? ==> HasDecimal(s)
  {
    var signed := |s| > 0 && (s[0] == '+' || s[0] == '-');
    var body := if signed then s[1..] else s;
    match ParseUnsigned(body)
    case None => None
    case Some(v) =>
      assert signed ==> forall i | 0 <= i < |body| :: body[i] == s[i + 1];
      Some(if signed && s[0] == '-' then -v else v)
  }

  /** `is_numeric`. */
  predicate IsNumeric(s: string) {
    ParseDecimal(s).Some?
  }

  /** A non-empty string of decimals is numeric, and `float` and `int` agree
      on it. */
  lemma DigitsAreNumeric(s: string)
    requires |s| > 0 && AllDecimal(s)
    ensures ParseDecimal(s) == Some(DigitsValue(s) as real)
  {
    assert IsDecimal(s[0]);
    UnsignedDigits(s);
  }

  lemma UnsignedDigits(s: string)
    requires |s| > 0 && AllDecimal(s)
    ensures ParseUnsigned(s) == Some(DigitsValue(s) as real)
  {
    assert forall k | 0 <= k < |s| :: s[k] != '.' by {
      forall k | 0 <= k < |s| ensures s[k] != '.' {
        assert IsDecimal(s[k]);
      }
    }
  }

  /** The first '.' of a numeral with a point ends its whole part. */
  lemma FirstDotOfPoint(whole: string, frac: string)
    requires AllDecimal(whole)
    ensures FirstDot(whole + "." + frac) == |whole|
  {
    var s := whole + "." + frac;
    forall k | 0 <= k < |whole| ensures s[k] != '.' {
      assert s[k] == whole[k] && IsDecimal(whole[k]);
    }
    assert s[|whole|] == '.';
  }

  /** A numeral with a point reads as its whole part plus its fraction. */
  lemma PointNumeral(whole: string, frac: string)
    requires |whole| > 0 && AllDecimal(whole) && AllDecimal(frac)
    ensures ParseDecimal(whole + "." + frac) == Some(PointValue(whole, frac))
  {
    var s := whole + "." + frac;
    FirstDotOfPoint(whole, frac);
    assert s[..|whole|] == whole;
    assert s[|whole| + 1..] == frac;
    assert s[0] == whole[0];
    PointParts(s, |whole|);
  }

  /** A numeral whose fraction is all zeros has the value of its whole
      part. */
  lemma ZeroFraction(whole: string, frac: string)
    requires |whole| > 0 && AllDecimal(whole) && AllDecimal(frac)
    requires forall i | 0 <= i < |frac| :: frac[i] == '0'
    ensures ParseDecimal(whole + "." + frac) == Some(DigitsValue(whole) as real)
  {
    PointNumeral(whole, frac);
    DigitsValueZero(frac);
    ZeroFractionValue(whole, frac);
  }

  lemma ZeroFractionValue(whole: string, frac: string)
    requires AllDecimal(whole) && AllDecimal(frac) && DigitsValue(frac) == 0
    ensures PointValue(whole, frac) == DigitsValue(whole) as real
  {
    var p := Pow10(|frac|) as real;
    assert 0.0 / p == 0.0;
  }

  lemma PointParts(s: string, n: nat)
    requires 0 < n < |s| && FirstDot(s) == n && IsDecimal(s[0])
    requires AllDecimal(s[..n]) && AllDecimal(s[n + 1..])
    ensures ParseDecimal(s) == Some(PointValue(s[..n], s[n + 1..]))
  {
    UnsignedPoint(s, n);
    UnsignedIsDecimal(s);
  }

  lemma UnsignedPoint(s: string, n: nat)
    requires 0 < n < |s| && FirstDot(s) == n
    requires AllDecimal(s[..n]) && AllDecimal(s[n + 1..])
    ensures ParseUnsigned(s) == Some(PointValue(s[..n], s[n + 1..]))
  {
  }

  /** A numeral that starts with a digit has no sign. */
  lemma UnsignedIsDecimal(s: string)
    requires |s| > 0 && IsDecimal(s[0])
    ensures ParseDecimal(s) == ParseUnsigned(s)
  {
  }

  /** A minus sign in front of an unsigned numeral negates its value. */
  lemma NegatedNumeral(s: string)
    requires ParseUnsigned(s).Some?
    ensures ParseDecimal("-" + s) == Some(-ParseUnsigned(s).value)
  {
    assert ("-" + s)[1..] == s;
  }

  /** A numeral without a minus sign never has a negative value. */
  lemma UnsignedIsNonNegative(s: string)
    requires |s| == 0 || s[0] != '-'
    ensures ParseDecimal(s).Some? ==> ParseDecimal(s).value >= 0.0
  {
  }

  /** Round half to even to an integer, as Python's `round` does. */
  function RoundHalfEven(x: real): (n: int)
    ensures -0.5 <= n as real - x <= 0.5
    ensures (n as real - x == 0.5 || x - n as real == 0.5) ==> n % 2 == 0
  {
    var f := x.Floor;
    var d := x - f as real;
    if d < 0.5 then f
    else if d > 0.5 then f + 1
    else if f % 2 == 0 then f
    else f + 1
  }

  /** A whole number of hundredths. */
  predicate IsCents(x: real) {
    (x * 100.0).Floor as real == x * 100.0
  }

  /** `round(x, 2)`: the nearest whole number of hundredths, ties to even. */
  function Round2(x: real): (r: real)
    ensures -0.005 <= r - x <= 0.005
    ensures IsCents(r)
  {
    var n := RoundHalfEven(x * 100.0);
    assert (n as real / 100.0) * 100.0 == n as real;
    n as real / 100.0
  }

  /** Rounding something already in whole hundredths changes nothing, so
      `Round2` is idempotent. */
  lemma Round2OfCents(x: real)
    requires IsCents(x)
    ensures Round2(x) == x
  {
    var n := (x * 100.0).Floor;
    assert RoundHalfEven(x * 100.0) == n;
  }

  lemma Round2Idempotent(x: real)
    ensures Round2(Round2(x)) == Round2(x)
  {
    Round2OfCents(Round2(x));
  }
}
