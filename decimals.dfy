/** Exact decimal numbers and the recogniser of plain decimal text that
    stands in for the string parsing done by `pd.to_numeric`. */
module Decimals {
  import opened Wrappers
  import opened Text

  /** The number `mantissa / 10^scale`. */
  datatype Decimal = Decimal(mantissa: int, scale: nat)

  function Pow10(n: nat): (r: nat)
    ensures r >= 1
  {
    if n == 0 then 1 else 10 * Pow10(n - 1)
  }

  /** The decimal denotes a whole number. */
  predicate IsWhole(d: Decimal) {
    d.mantissa % Pow10(d.scale) == 0
  }

  /** The whole number a whole decimal denotes. */
  function WholeValue(d: Decimal): (n: int)
    requires IsWhole(d)
    ensures n * Pow10(d.scale) == d.mantissa
  {
    d.mantissa / Pow10(d.scale)
  }

  /** A decimal without fractional digits is the whole number it holds. */
  lemma WholeOfScaleZero(d: Decimal)
    requires d.scale == 0
    ensures IsWhole(d) && WholeValue(d) == d.mantissa
  {
    assert Pow10(0) == 1;
  }

  /** Digits without a fractional part denote their own value. */
  lemma IntegerParts(negative: bool, digits: string)
    requires AllDigits(digits)
    ensures FromParts(negative, digits, "").scale == 0
    ensures FromParts(negative, digits, "").mantissa == if negative then -(DigitsValue(digits) as int) else DigitsValue(digits)
  {
    assert digits + "" == digits;
  }

  /** The position of the first `c` in `s`, or `|s|`. */
  function IndexOfChar(s: string, c: char): (k: nat)
    ensures k <= |s| && (k < |s| ==> s[k] == c)
    ensures forall i :: 0 <= i < k ==> s[i] != c
  {
    if s == [] then 0 else if s[0] == c then 0 else 1 + IndexOfChar(s[1..], c)
  }

  /** Digits, optionally a point and more digits; at least one digit. */
  function ParseUnsigned(s: string): (r: Option<Decimal>)
    ensures r.Some? ==> r.value.mantissa >= 0
    ensures r.Some? ==> forall i :: 0 <= i < |s| ==> IsDigit(s[i]) || s[i] == '.'
    ensures r.Some? ==> forall i, j :: 0 <= i < j < |s| && s[i] == '.' ==> s[j] != '.'
  {
    var k := IndexOfChar(s, '.');
    var whole := s[..k];
    var frac := if k < |s| then s[k + 1..] else "";
    if AllDigits(whole) && AllDigits(frac) && |whole| + |frac| > 0 then
      assert forall i :: k < i < |s| ==> s[i] == frac[i - k - 1];
      Some(Decimal(DigitsValue(whole + frac), |frac|))
    else
      None
  }

  /** Plain decimal text: an optional `+` or `-`, digits, optionally a point
      and more digits, at least one digit in all. */
  function ParseDecimal(s: string): Option<Decimal> {
    if |s| > 0 && (s[0] == '-' || s[0] == '+') then
      match ParseUnsigned(s[1..])
      case Some(d) => Some(if s[0] == '-' then Decimal(-d.mantissa, d.scale) else d)
      case None => None
    else
      ParseUnsigned(s)
  }

  /** Recognised text holds only digits, at most one point and a leading
      sign; only a leading `-` gives a negative number. */
  lemma ParseDecimalChars(s: string)
    requires ParseDecimal(s).Some?
    ensures forall i :: 0 <= i < |s| ==> IsDigit(s[i]) || s[i] == '.' || (i == 0 && (s[i] == '-' || s[i] == '+'))
    ensures forall i, j :: 0 <= i < j < |s| && s[i] == '.' ==> s[j] != '.'
    ensures ParseDecimal(s).value.mantissa < 0 ==> |s| > 0 && s[0] == '-'
  {
    if |s| > 0 && (s[0] == '-' || s[0] == '+') {
      var t := s[1..];
      assert forall i :: 1 <= i < |s| ==> s[i] == t[i - 1];
    }
  }

  /** The text "-" when `negative`, otherwise the empty text. */
  function SignText(negative: bool): string {
    if negative then "-" else ""
  }

  /** The number written with digits `whole`, a point and digits `frac`,
      negated when `negative`. */
  function FromParts(negative: bool, whole: string, frac: string): Decimal
    requires AllDigits(whole) && AllDigits(frac)
  {
    var m: int := DigitsValue(whole + frac);
    Decimal(if negative then -m else m, |frac|)
  }

  /** Text of the form `[-]digits.digits` is recognised, with its digits as
      the mantissa and the number of digits after the point as the scale. */
  lemma ParsePointed(negative: bool, whole: string, frac: string)
    requires AllDigits(whole) && AllDigits(frac) && |whole| + |frac| > 0
    ensures ParseDecimal(SignText(negative) + whole + "." + frac) == Some(FromParts(negative, whole, frac))
  {
    if negative {
      ParseNegativePointed(whole, frac);
    } else {
      assert SignText(negative) + whole == whole;
      ParsePositivePointed(whole, frac);
    }
  }

  /** `ParsePointed` with a leading `-`. */
  lemma ParseNegativePointed(whole: string, frac: string)
    requires AllDigits(whole) && AllDigits(frac) && |whole| + |frac| > 0
    ensures ParseDecimal("-" + whole + "." + frac) == Some(FromParts(true, whole, frac))
  {
    var s := "-" + whole + "." + frac;
    var d := FromParts(false, whole, frac);
    assert |s| > 0 && s[0] == '-' && ParseUnsigned(s[1..]) == Some(d) by {
      ParseUnsignedPointed(whole, frac);
      SignedTail(whole, frac);
    }
    assert FromParts(true, whole, frac) == Decimal(-d.mantissa, d.scale) by {
      NegatedParts(whole, frac);
    }
    ParseNegated(s, d);
  }

  /** Text starting with `-` is the negation of what follows it. */
  lemma ParseNegated(s: string, d: Decimal)
    requires |s| > 0 && s[0] == '-' && ParseUnsigned(s[1..]) == Some(d)
    ensures ParseDecimal(s) == Some(Decimal(-d.mantissa, d.scale))
  {
  }

  /** The negative number with given digits is the negation of the positive one. */
  lemma NegatedParts(whole: string, frac: string)
    requires AllDigits(whole) && AllDigits(frac)
    ensures FromParts(true, whole, frac) == Decimal(-FromParts(false, whole, frac).mantissa, FromParts(false, whole, frac).scale)
  {
  }

  /** What follows the sign of `-whole.frac`. */
  lemma SignedTail(whole: string, frac: string)
    ensures ("-" + whole + "." + frac)[0] == '-'
    ensures ("-" + whole + "." + frac)[1..] == whole + "." + frac
  {
  }

  /** `ParsePointed` without a sign. */
  lemma ParsePositivePointed(whole: string, frac: string)
    requires AllDigits(whole) && AllDigits(frac) && |whole| + |frac| > 0
    ensures ParseDecimal(whole + "." + frac) == Some(FromParts(false, whole, frac))
  {
    var u := whole + "." + frac;
    ParseUnsignedPointed(whole, frac);
    assert u[0] == '.' || IsDigit(u[0]) by {
      if |whole| > 0 { assert u[0] == whole[0]; }
    }
  }

  /** The unsigned part of `ParsePointed`. */
  lemma ParseUnsignedPointed(whole: string, frac: string)
    requires AllDigits(whole) && AllDigits(frac) && |whole| + |frac| > 0
    ensures ParseUnsigned(whole + "." + frac) == Some(FromParts(false, whole, frac))
  {
    var u := whole + "." + frac;
    assert forall i :: 0 <= i < |whole| ==> u[i] == whole[i];
    assert u[|whole|] == '.';
    assert IndexOfChar(u, '.') == |whole|;
    assert u[..|whole|] == whole;
    assert u[|whole| + 1..] == frac;
  }

  /** Text of the form `[-]digits` is recognised as a whole number. */
  lemma ParseInteger(negative: bool, digits: string)
    requires AllDigits(digits) && |digits| > 0
    ensures ParseDecimal(SignText(negative) + digits) == Some(FromParts(negative, digits, ""))
  {
    assert IndexOfChar(digits, '.') == |digits|;
    assert digits[..|digits|] == digits;
    assert digits + "" == digits;
    if negative {
      var s := SignText(negative) + digits;
      assert s[1..] == digits;
    } else {
      assert SignText(negative) + digits == digits;
    }
  }

  lemma {:induction false} DigitsValueAppend(a: string, b: string)
    requires AllDigits(a) && AllDigits(b)
    ensures AllDigits(a + b)
    ensures DigitsValue(a + b) == DigitsValue(a) * Pow10(|b|) + DigitsValue(b)
    decreases |b|
  {
    if b != [] {
      var n := |b| - 1;
      assert (a + b)[..|a + b| - 1] == a + b[..n];
      assert (a + b)[|a + b| - 1] == b[n];
      DigitsValueAppend(a, b[..n]);
      Distribute(DigitsValue(a), Pow10(n), DigitsValue(b[..n]), DigitOf(b[n]));
    } else {
      assert a + b == a;
    }
  }

  lemma {:induction false} DigitsValueBound(b: string)
    requires AllDigits(b)
    ensures DigitsValue(b) < Pow10(|b|)
    ensures (exists i :: 0 <= i < |b| && b[i] != '0') ==> DigitsValue(b) > 0
    decreases |b|
  {
    if b != [] {
      var n := |b| - 1;
      DigitsValueBound(b[..n]);
      if exists i :: 0 <= i < |b| && b[i] != '0' {
        var i :| 0 <= i < |b| && b[i] != '0';
        if i < n { assert b[..n][i] == b[i]; }
      }
    }
  }

  lemma Distribute(x: int, p: int, y: int, d: int)
    ensures 10 * (x * p + y) + d == x * (10 * p) + (10 * y + d)
  {
  }

  lemma MulAtLeast(k: int, p: int)
    requires k >= 1 && p > 0
    ensures k * p >= p
  {
  }

  lemma ModOfMultiplePlus(w: int, p: int, x: int)
    requires p > 0 && 0 <= x < p
    ensures (w * p + x) % p == x
  {
    var n := w * p + x;
    var q := n / p;
    var r := n % p;
    assert q * p + r == n;
    assert (q - w) * p == x - r by {
      assert q * p - w * p == (q - w) * p;
    }
    if q > w {
      MulAtLeast(q - w, p);
    } else if q < w {
      MulAtLeast(w - q, p);
    }
  }

  /** Digits after the point that are not all zero make a number that is
      not whole. */
  lemma FractionDigitsNotWhole(whole: string, frac: string)
    requires AllDigits(whole) && AllDigits(frac)
    requires exists i :: 0 <= i < |frac| && frac[i] != '0'
    ensures !IsWhole(FromParts(false, whole, frac))
  {
    DigitsValueAppend(whole, frac);
    DigitsValueBound(frac);
    ModOfMultiplePlus(DigitsValue(whole), Pow10(|frac|), DigitsValue(frac));
  }
}
