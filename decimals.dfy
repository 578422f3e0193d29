/**
 * Exact decimal amounts standing in for the Python floats that hold a
 * movement's amount: `float(text)` on a cleaned amount and `str(amount)`,
 * the text written into `<TRNAMT>` and, without its point, into the FITID.
 */
module Decimals {
  import opened Wrappers
  import opened Strings

  /**
   * The number (-1)^negative * magnitude / 10^scale. The sign is kept for
   * zero as well, as a float keeps -0.0 apart from 0.0.
   */
  datatype Decimal = Decimal(negative: bool, magnitude: nat, scale: nat)

  /** The float comparison `amount > 0`. */
  predicate Positive(d: Decimal) {
    !d.negative && d.magnitude > 0
  }

  /** No trailing zero after the decimal point. */
  predicate Normal(d: Decimal) {
    d.scale == 0 || d.magnitude % 10 != 0
  }

  /** The same number with trailing fractional zeros removed. */
  function Norm(d: Decimal): (r: Decimal)
    ensures Normal(r) && r.negative == d.negative && r.scale <= d.scale
    ensures r.magnitude * Pow10(d.scale - r.scale) == d.magnitude
    decreases d.scale
  {
    if d.scale > 0 && d.magnitude % 10 == 0 then
      var r := Norm(Decimal(d.negative, d.magnitude / 10, d.scale - 1));
      var p := Pow10(d.scale - 1 - r.scale);
      assert Pow10(d.scale - r.scale) == p * 10;
      assert r.magnitude * (p * 10) == (r.magnitude * p) * 10;
      r
    else d
  }

  /** A trailing `.0` does not change the normal form. */
  lemma NormTrailingZero(negative: bool, m: nat)
    ensures Norm(Decimal(negative, m * 10, 1)) == Decimal(negative, m, 0)
  {
    var e := Decimal(negative, m * 10, 1);
    assert e.magnitude % 10 == 0 && e.magnitude / 10 == m;
    assert Norm(e) == Norm(Decimal(negative, m, 0));
  }

  lemma NormNormal(d: Decimal)
    requires Normal(d)
    ensures Norm(d) == d
  {
  }

  /** The digits before the decimal point of a normal decimal. */
  function WholeDigits(n: Decimal): (r: string)
    ensures AllDigits(r) && |r| >= 1
  {
    if n.scale == 0 then NatToString(n.magnitude)
    else NatToString(SplitDigits(n.magnitude, n.scale).0)
  }

  /** The digits after the decimal point of a normal decimal: `0` for a whole number. */
  function FracDigits(n: Decimal): (r: string)
    ensures AllDigits(r) && |r| >= 1
    ensures n.scale > 0 ==> |r| == n.scale
  {
    if n.scale == 0 then "0"
    else
      var f := SplitDigits(n.magnitude, n.scale).1;
      NatToStringLength(f, n.scale);
      PadLeft(NatToString(f), n.scale)
  }

  /** Whole and fractional digits together spell the magnitude. */
  lemma DigitsSpellMagnitude(n: Decimal)
    ensures DigitsValue(WholeDigits(n)) * Pow10(n.scale) + DigitsValue(FracDigits(n)) == n.magnitude
  {
    var split := SplitDigits(n.magnitude, n.scale);
    assert DigitsValue(WholeDigits(n)) == split.0;
    assert DigitsValue(FracDigits(n)) == split.1;
  }

  /** `body` after a minus sign when `negative`. */
  function Signed(negative: bool, body: string): string {
    (if negative then "-" else "") + body
  }

  /**
   * Python's `str(x)` of a float holding exactly this value, in positional
   * notation: the shortest fraction, but at least one digit after the point.
   */
  function Render(d: Decimal): string {
    var n := Norm(d);
    Signed(n.negative, WholeDigits(n) + "." + FracDigits(n))
  }

  /** Index of the first `c` in `s`, or `|s|` when there is none. */
  function FirstIndex(s: string, c: char): (r: nat)
    ensures r <= |s| && (r < |s| ==> s[r] == c)
    ensures forall j :: 0 <= j < r ==> s[j] != c
  {
    if s == [] || s[0] == c then 0 else 1 + FirstIndex(s[1..], c)
  }

  /**
   * Python's `float(t)` on the plain positional forms: optional surrounding
   * whitespace, an optional sign, digits with at most one decimal point and
   * at least one digit. Anything else is the `ValueError` case.
   */
  function Parse(t: string): Option<Decimal> {
    var u := Strip(t);
    var negative := |u| > 0 && u[0] == '-';
    ParseUnsigned(negative, if |u| > 0 && (u[0] == '-' || u[0] == '+') then u[1..] else u)
  }

  /** The part of `float` after the sign: digits, at most one point, digits. */
  function ParseUnsigned(negative: bool, body: string): Option<Decimal> {
    var i := FirstIndex(body, '.');
    var whole := body[..i];
    var frac := if i < |body| then body[i + 1..] else "";
    if AllDigits(whole) && AllDigits(frac) && |whole| + |frac| > 0 then
      DigitsValueAppend(whole, frac);
      Some(Decimal(negative, DigitsValue(whole + frac), |frac|))
    else
      None
  }

  lemma FirstIndexAt(s: string, c: char, k: nat)
    requires k < |s| && s[k] == c
    requires forall j :: 0 <= j < k ==> s[j] != c
    ensures FirstIndex(s, c) == k
  {
    var r := FirstIndex(s, c);
  }

  lemma ParseUnsignedPositional(negative: bool, whole: string, frac: string)
    requires AllDigits(whole) && AllDigits(frac) && |whole| >= 1 && |frac| >= 1
    ensures AllDigits(whole + frac)
    ensures ParseUnsigned(negative, whole + "." + frac)
            == Some(Decimal(negative, DigitsValue(whole + frac), |frac|))
  {
    DigitsValueAppend(whole, frac);
    var body := whole + "." + frac;
    assert forall j :: 0 <= j < |whole| ==> body[j] == whole[j];
    FirstIndexAt(body, '.', |whole|);
    assert body[..|whole|] == whole;
    assert body[|whole| + 1..] == frac;
  }

  /** `float` drops surrounding whitespace and reads an optional minus sign. */
  lemma ParseSigned(negative: bool, body: string)
    requires |body| > 0 && IsDigit(body[0]) && IsDigit(body[|body| - 1])
    ensures Parse(Signed(negative, body)) == ParseUnsigned(negative, body)
  {
    var s := Signed(negative, body);
    assert IsDigit(s[|s| - 1]);
    assert Trimmed(s);
    StripTrimmed(s);
    assert (|s| > 0 && s[0] == '-') == negative;
    assert (if |s| > 0 && (s[0] == '-' || s[0] == '+') then s[1..] else s) == body;
  }

  /** `float` reads a signed whole-point-fraction text as the decimal it spells. */
  lemma ParsePositional(negative: bool, whole: string, frac: string)
    requires AllDigits(whole) && AllDigits(frac) && |whole| >= 1 && |frac| >= 1
    ensures AllDigits(whole + frac)
    ensures Parse(Signed(negative, whole + "." + frac))
            == Some(Decimal(negative, DigitsValue(whole + frac), |frac|))
  {
    var body := whole + "." + frac;
    assert body[0] == whole[0];
    ParseSigned(negative, body);
    ParseUnsignedPositional(negative, whole, frac);
  }

  /** Reading back the rendered text gives the same number (up to trailing zeros). */
  lemma RenderRoundTrip(d: Decimal)
    ensures Parse(Render(d)).Some?
    ensures Norm(Parse(Render(d)).value) == Norm(d)
  {
    var n := Norm(d);
    var whole, frac := WholeDigits(n), FracDigits(n);
    ParsePositional(n.negative, whole, frac);
    DigitsValueAppend(whole, frac);
    var e := Decimal(n.negative, DigitsValue(whole + frac), |frac|);
    if n.scale == 0 {
      assert DigitsValue(frac) == 0;
      assert e == Decimal(n.negative, n.magnitude * 10, 1);
      NormTrailingZero(n.negative, n.magnitude);
    } else {
      DigitsSpellMagnitude(n);
      assert e == n;
      NormNormal(n);
    }
  }

  /** A signed positional text denotes a positive number when unsigned and some digit is non-zero. */
  lemma PositionalPositive(negative: bool, whole: string, frac: string)
    requires AllDigits(whole) && AllDigits(frac) && |whole| >= 1
    ensures DenotesPositive(Signed(negative, whole + "." + frac))
            <==> !negative && (DigitsValue(whole) != 0 || DigitsValue(frac) != 0)
  {
    var s := Signed(negative, whole + "." + frac);
    NonzeroDigits(whole);
    NonzeroDigits(frac);
    HasNonzeroDigitAppend(whole, ".");
    HasNonzeroDigitAppend(whole + ".", frac);
    if negative {
      assert s[0] == '-';
    } else {
      assert s == whole + "." + frac;
      assert s[0] == whole[0];
    }
  }

  /** Dropping trailing zeros keeps the sign test. */
  lemma NormPositive(d: Decimal)
    ensures Positive(Norm(d)) == Positive(d)
  {
    var n := Norm(d);
    var p := Pow10(d.scale - n.scale);
    assert n.magnitude * p == d.magnitude;
    if n.magnitude > 0 {
      assert n.magnitude * p >= n.magnitude * 1;
    }
  }

  /** The sign test `amount > 0` agrees with what the rendered text shows. */
  lemma RenderPositive(d: Decimal)
    ensures Positive(d) <==> DenotesPositive(Render(d))
  {
    var n := Norm(d);
    var whole, frac := WholeDigits(n), FracDigits(n);
    PositionalPositive(n.negative, whole, frac);
    NormPositive(d);
    if n.scale == 0 {
      assert DigitsValue(whole) == n.magnitude;
      assert DigitsValue(frac) == 0;
    } else {
      DigitsSpellMagnitude(n);
    }
  }
}
