/**
  java.math.BigDecimal as far as the price column and its @Digits constraint
  need it: an unscaled integer and a scale, never a floating-point number.
*/
module Decimals {

  /** The number unscaled × 10^(-scale), e.g. 29.99 is Decimal(2999, 2) and 29.990 is Decimal(29990, 3). */
  datatype Decimal = Decimal(unscaled: int, scale: int)

  function Abs(x: int): nat
  {
    if x < 0 then -x else x
  }

  function Pow10(n: nat): (r: nat)
    ensures r >= 1
  {
    if n == 0 then 1 else 10 * Pow10(n - 1)
  }

  /** BigInteger/BigDecimal precision: the number of decimal digits of n, 1 for zero. */
  function Precision(n: nat): (r: nat)
    ensures r >= 1
  {
    if n < 10 then 1 else 1 + Precision(n / 10)
  }

  /**
    precision() - scale(), as the Digits validator counts the integer digits
    of a BigDecimal: on the representation as given, trailing zeros included.
  */
  function IntegerDigits(d: Decimal): int
  {
    Precision(Abs(d.unscaled)) - d.scale
  }

  /** The scale, 0 when negative, as the Digits validator counts fraction digits. */
  function FractionDigits(d: Decimal): nat
  {
    if d.scale < 0 then 0 else d.scale
  }

  /** @Digits(integer, fraction): at most that many integer and fraction digits. */
  predicate HasDigits(d: Decimal, integer: nat, fraction: nat)
  {
    IntegerDigits(d) <= integer && FractionDigits(d) <= fraction
  }

  /** A positive number has at most k digits exactly when it is below 10^k. */
  lemma {:induction false} PrecisionBound(m: nat, k: nat)
    requires m >= 1
    ensures Precision(m) <= k <==> m < Pow10(k)
    decreases m
  {
    if k > 0 {
      assert Pow10(k) == 10 * Pow10(k - 1);
      if m >= 10 {
        PrecisionBound(m / 10, k - 1);
        assert m == 10 * (m / 10) + m % 10;
      }
    }
  }

  /**
    The digit rule in closed form: a non-zero number passes exactly when its
    scale is at most `fraction` and its unscaled magnitude is below
    10^(integer + scale).
  */
  lemma DigitsBound(d: Decimal, integer: nat, fraction: nat)
    requires d.unscaled != 0
    ensures HasDigits(d, integer, fraction)
        <==> d.scale <= fraction && integer + d.scale >= 0 && Abs(d.unscaled) < Pow10(integer + d.scale)
  {
    if integer + d.scale >= 0 {
      PrecisionBound(Abs(d.unscaled), integer + d.scale);
    }
  }

  lemma {:induction false} Pow10Monotone(a: nat, b: nat)
    requires a <= b
    ensures Pow10(a) <= Pow10(b)
    decreases b
  {
    if a < b {
      Pow10Monotone(a, b - 1);
    }
  }

  /** A number that passes has an unscaled magnitude below 10^(integer + fraction), and, unless zero, a scale of at most `fraction`. */
  lemma DigitsMagnitude(d: Decimal, integer: nat, fraction: nat)
    requires HasDigits(d, integer, fraction)
    ensures Abs(d.unscaled) < Pow10(integer + fraction)
    ensures d.unscaled != 0 ==> d.scale <= fraction
  {
    if d.unscaled != 0 {
      DigitsBound(d, integer, fraction);
      Pow10Monotone(integer + d.scale, integer + fraction);
    }
  }

  /** The digit rule counts signs not at all: negating a number never changes its digits. */
  lemma HasDigitsIgnoresSign(d: Decimal, integer: nat, fraction: nat)
    ensures HasDigits(Decimal(-d.unscaled, d.scale), integer, fraction) == HasDigits(d, integer, fraction)
  {
    assert Abs(-d.unscaled) == Abs(d.unscaled);
  }

  lemma PrecisionTimesTen(m: nat)
    requires m >= 1
    ensures Precision(10 * m) == Precision(m) + 1
  {
    assert (10 * m) / 10 == m;
  }

  /**
    A trailing zero in the representation counts: the same value written
    with one more zero keeps its integer digits and gains a fraction digit,
    so 29.990 fails a limit of two fraction digits that 29.99 meets.
  */
  lemma TrailingZeroCounts(d: Decimal)
    requires d.unscaled != 0 && d.scale >= 0
    ensures IntegerDigits(Decimal(d.unscaled * 10, d.scale + 1)) == IntegerDigits(d)
    ensures FractionDigits(Decimal(d.unscaled * 10, d.scale + 1)) == FractionDigits(d) + 1
  {
    assert Abs(d.unscaled * 10) == 10 * Abs(d.unscaled);
    PrecisionTimesTen(Abs(d.unscaled));
  }

  /** A zero counts one integer digit less its scale: 0E+10 has eleven integer digits, 0.00 none that exceed zero. */
  lemma ZeroDigits(scale: int)
    ensures IntegerDigits(Decimal(0, scale)) == 1 - scale
    ensures FractionDigits(Decimal(0, scale)) == if scale < 0 then 0 else scale
  {
  }

  /**
    For an amount written with two decimals (cents), four integer digits and
    two fraction digits admit exactly the amounts of absolute value below 10000.
  */
  lemma TwoDecimalDigits(n: int)
    ensures HasDigits(Decimal(n, 2), 4, 2) <==> Abs(n) < 1000000
  {
    if n != 0 {
      DigitsBound(Decimal(n, 2), 4, 2);
      assert Pow10(6) == 1000000;
    }
  }
}
