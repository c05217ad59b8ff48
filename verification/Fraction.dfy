/**
 Comparing an exact fraction of counts with a binary64 bound in [0, 1], without rounding either
 side (binary64: section 3.4 of IEEE 754-2019).
 */
module Fraction {
  import opened Arithmetic
  import opened Bytes
  import opened Records

  datatype Ordering = Less | Equal | Greater

  const MANTISSA: nat := 0x10_0000_0000_0000  // 2^52
  const ONE_BITS: nat := 0x3ff0_0000_0000_0000
  const NEGATIVE_ZERO: nat := 0x8000_0000_0000_0000
  const U128: nat := 0x1_0000_0000_0000_0000_0000_0000_0000_0000

  function Pow2(n: nat): (p: nat)
    ensures p > 0
    decreases n
  {
    if n == 0 then 1 else 2 * Pow2(n - 1)
  }

  function Cmp(a: int, b: int): Ordering { if a < b then Less else if a > b then Greater else Equal }

  /** Bit patterns a ratio bound may have: 0 to 1, either zero included. */
  predicate UnitBound(bits: nat) { bits <= ONE_BITS || bits == NEGATIVE_ZERO }

  function ExponentBits(bits: nat): nat { bits / MANTISSA % 0x800 }

  /** The number a bound stands for, as a multiple of 2^-1074. */
  function Scaled(bits: nat): nat
    requires UnitBound(bits)
  {
    if bits == NEGATIVE_ZERO then 0
    else if ExponentBits(bits) == 0 then bits % MANTISSA
    else (MANTISSA + bits % MANTISSA) * Pow2(ExponentBits(bits) - 1)
  }

  ghost function Value(bits: nat): real
    requires UnitBound(bits)
  {
    Scaled(bits) as real / Pow2(1074) as real
  }

  /** The ratio of the counts; no rows at all count as ratio zero. */
  ghost function Ratio(numerator: nat, denominator: nat): real {
    if denominator == 0 then 0.0 else numerator as real / denominator as real
  }

  ghost function ExactOrder(numerator: nat, denominator: nat, bits: nat): Ordering
    requires UnitBound(bits)
  {
    var ratio, bound := Ratio(numerator, denominator), Value(bits);
    if ratio < bound then Less else if ratio > bound then Greater else Equal
  }

  // ----- the comparison as computed ------------------------------------------------------------------

  /** `u64::trailing_zeros`. */
  function TrailingZeros(n: nat): nat
    requires n > 0
  {
    if n % 2 == 1 then 0 else 1 + TrailingZeros(n / 2)
  }

  /** `0.0.total_cmp`: positive zero stands above negative zero. */
  function ZeroTotalCmp(bits: nat): Ordering { if bits == NEGATIVE_ZERO then Greater else if bits == 0 then Equal
                                              else Less }

  /** `u128::checked_mul`. */
  function CheckedMul(a: nat, b: nat): Option<nat> { if a * b < U128 then Some(a * b) else None }

  function CompareFractionToBound(numerator: u64, denominator: u64, bits: nat): Ordering
    requires UnitBound(bits)
  {
    if denominator == 0 then ZeroTotalCmp(bits)
    else if bits == 0 || bits == NEGATIVE_ZERO then Cmp(numerator, 0)
    else if bits == ONE_BITS then Cmp(numerator, denominator)
    else if ExponentBits(bits) == 0 then if numerator == 0 then Less else Greater
    else
      UnitExponent(bits);
      var boundNumerator, shift := MANTISSA + bits % MANTISSA, 1075 - ExponentBits(bits);
      var cancelled := Smaller(TrailingZeros(boundNumerator), shift);
      CompareReduced(numerator, denominator, boundNumerator / Pow2(cancelled), shift - cancelled)
  }

  function CompareReduced(numerator: u64, denominator: u64, boundNumerator: nat, shift: nat): Ordering {
    if shift >= 128 then if numerator == 0 then Less else Greater
    else
      match CheckedMul(numerator, Pow2(shift))
      case None => Greater
      case Some(left) => Cmp(left, denominator * boundNumerator)
  }

  // ----- why every branch is exact -------------------------------------------------------------------

  lemma UnitExponent(bits: nat)
    requires bits < ONE_BITS
    ensures ExponentBits(bits) == bits / MANTISSA <= 1022
  {
  }

  lemma {:induction false} Pow2Sum(a: nat, b: nat)
    ensures Pow2(a + b) == Pow2(a) * Pow2(b)
    decreases b
  {
    if b > 0 {
      Pow2Sum(a, b - 1);
      assert Pow2(a + b) == 2 * Pow2(a + b - 1);
      assert Pow2(a) * Pow2(b) == 2 * (Pow2(a) * Pow2(b - 1));
    }
  }

  lemma {:induction false} Pow2Monotone(a: nat, b: nat)
    requires a <= b
    ensures Pow2(a) <= Pow2(b)
    decreases b
  {
    if a < b {
      Pow2Monotone(a, b - 1);
    }
  }

  lemma Pow2At16(n: nat)
    requires n == 16
    ensures Pow2(n) == 0x1_0000
  {
    assert Pow2(4) == 16;
    Pow2Sum(4, 4);
    Pow2Sum(8, 8);
  }

  lemma Pow2At64(n: nat)
    requires n == 64
    ensures Pow2(n) == U64
  {
    Pow2At16(16);
    Pow2Sum(16, 16);
    Pow2Sum(32, 32);
  }

  lemma Pow2At128(n: nat)
    requires n == 128
    ensures Pow2(n) == U128
  {
    Pow2At64(64);
    Pow2Sum(64, 64);
  }

  lemma Pow2At52(n: nat)
    requires n == 52
    ensures Pow2(n) == MANTISSA
  {
    Pow2At16(16);
    assert Pow2(4) == 16;
    Pow2Sum(16, 16);
    Pow2Sum(32, 16);
    Pow2Sum(48, 4);
  }

  lemma AtLeast128(n: nat)
    requires n >= 128
    ensures Pow2(n) >= U128
  {
    Pow2At128(128);
    Pow2Monotone(128, n);
  }

  lemma MultiplyMonotone(a: nat, b: nat, c: nat, d: nat)
    requires a <= c && b <= d
    ensures a * b <= c * d
  {
    assert a * b <= c * b <= c * d;
  }

  /** Cancelling trailing zeros divides exactly. */
  lemma {:induction false} Cancels(n: nat, c: nat)
    requires n > 0 && c <= TrailingZeros(n)
    ensures n == n / Pow2(c) * Pow2(c) && 0 < n / Pow2(c) <= n
    decreases c
  {
    if c == 0 {
      assert Pow2(0) == 1;
    } else {
      Cancels(n / 2, c - 1);
      HalveThenDivide(n, c);
    }
  }

  lemma HalveThenDivide(n: nat, c: nat)
    requires c > 0 && n % 2 == 0 && n > 0 && n / 2 == n / 2 / Pow2(c - 1) * Pow2(c - 1) &&
             0 < n / 2 / Pow2(c - 1) <= n / 2
    ensures n == n / Pow2(c) * Pow2(c) && 0 < n / Pow2(c) <= n
  {
    var q, p := n / 2 / Pow2(c - 1), Pow2(c - 1);
    assert n == 2 * (q * p) == q * Pow2(c);
    ExactQuotient(n, q, Pow2(c));
  }

  lemma ExactQuotient(n: nat, q: nat, d: nat)
    requires d > 0 && n == q * d
    ensures n / d == q
  {
    Multiple(q - n / d, d);
    assert (q - n / d) * d == n % d;
  }

  /** Comparing two fractions with positive denominators by cross multiplication. */
  lemma CrossMultiply(a: int, b: int, c: int, d: int)
    requires b > 0 && d > 0
    ensures a as real / b as real < c as real / d as real <==> a * d < c * b
    ensures a as real / b as real > c as real / d as real <==> a * d > c * b
  {
    var x, y := a as real / b as real, c as real / d as real;
    var bd := b as real * d as real;
    assert x * bd == (a * d) as real;
    assert y * bd == (c * b) as real;
    assert bd > 0.0;
    if x < y { assert x * bd < y * bd; }
    if x > y { assert x * bd > y * bd; }
  }

  /** The exact order in integers. */
  lemma ExactInIntegers(numerator: nat, denominator: nat, bits: nat)
    requires UnitBound(bits)
    ensures ExactOrder(numerator, denominator, bits) ==
            if denominator == 0 then Cmp(0, Scaled(bits)) else Cmp(numerator * Pow2(1074), Scaled(bits) * denominator)
  {
    CrossOrder(numerator, denominator, Scaled(bits), Pow2(1074));
  }

  lemma CrossOrder(numerator: nat, denominator: nat, scaled: nat, p: nat)
    requires p > 0
    ensures var ratio, bound := Ratio(numerator, denominator), scaled as real / p as real;
            (if ratio < bound then Less else if ratio > bound then Greater else Equal) ==
            if denominator == 0 then Cmp(0, scaled) else Cmp(numerator * p, scaled * denominator)
  {
    if denominator == 0 {
      CrossMultiply(0, 1, scaled, p);
    } else {
      CrossMultiply(numerator, denominator, scaled, p);
    }
  }

  lemma ScaleBoth(a: int, b: int, p: nat)
    requires p > 0
    ensures Cmp(a * p, b * p) == Cmp(a, b)
  {
    if a < b {
      ScaleLess(a, b, p);
    } else if b < a {
      ScaleLess(b, a, p);
    }
  }

  lemma ScaleLess(a: int, b: int, p: nat)
    requires p > 0 && a < b
    ensures a * p < b * p
  {
    assert (b - a) * p > 0;
    assert b * p == a * p + (b - a) * p;
  }

  /** A bound b / 2^shift compared on a common scale of 2^(shift + rest). */
  lemma OnCommonScale(numerator: nat, denominator: nat, boundNumerator: nat, shift: nat, rest: nat)
    ensures Cmp(numerator * Pow2(shift + rest), boundNumerator * Pow2(rest) * denominator)
            == Cmp(numerator * Pow2(shift), denominator * boundNumerator)
  {
    var p := Pow2(rest);
    Pow2Sum(shift, rest);
    Regroup(numerator, Pow2(shift), p);
    assert boundNumerator * p * denominator == denominator * boundNumerator * p;
    ScaleBoth(numerator * Pow2(shift), denominator * boundNumerator, p);
  }

  /** The reduced comparison: an oversized left side can only be larger. */
  lemma ReducedIsExact(numerator: u64, denominator: u64, boundNumerator: nat, shift: nat)
    requires denominator > 0 && 0 < boundNumerator < 2 * MANTISSA
    ensures CompareReduced(numerator, denominator, boundNumerator, shift) ==
            Cmp(numerator * Pow2(shift), denominator * boundNumerator)
  {
    RightFits(denominator, boundNumerator);
    MultiplyMonotone(1, 1, denominator, boundNumerator);
    if numerator > 0 {
      MultiplyMonotone(1, Pow2(shift), numerator, Pow2(shift));
    }
    if shift >= 128 {
      AtLeast128(shift);
    }
  }

  /** `u128::from(denominator) * u128::from(bound_numerator)` cannot overflow. */
  lemma RightFits(denominator: u64, boundNumerator: nat)
    requires boundNumerator < 2 * MANTISSA
    ensures denominator * boundNumerator < U128
  {
    MultiplyMonotone(denominator, boundNumerator, U64, 2 * MANTISSA);
  }

  /** A subnormal bound lies below every positive ratio of 64-bit counts. */
  lemma SubnormalIsExact(numerator: u64, denominator: u64, scaled: nat, exponent: nat)
    requires denominator > 0 && 0 < scaled < MANTISSA && exponent >= 128
    ensures Cmp(numerator * Pow2(exponent), scaled * denominator) == if numerator == 0 then Less else Greater
  {
    RightFits(denominator, scaled);
    MultiplyMonotone(1, 1, scaled, denominator);
    AtLeast128(exponent);
    if numerator > 0 {
      MultiplyMonotone(1, Pow2(exponent), numerator, Pow2(exponent));
    }
  }

  /** The reduced numerator and shift stand for the same bound. */
  lemma ScaledReduced(n: nat, shift: nat, rest: nat, c: nat)
    requires n > 0 && c <= TrailingZeros(n)
    ensures n * Pow2(rest) == n / Pow2(c) * Pow2(c + rest) && 0 < n / Pow2(c) <= n
  {
    Cancels(n, c);
    Pow2Sum(c, rest);
    Regroup(n / Pow2(c), Pow2(c), Pow2(rest));
  }

  lemma NormalIsExact(numerator: u64, denominator: u64, n: nat, shift: nat, rest: nat)
    requires denominator > 0 && 0 < n < 2 * MANTISSA
    ensures var c := Smaller(TrailingZeros(n), shift);
            CompareReduced(numerator, denominator, n / Pow2(c), shift - c) ==
              Cmp(numerator * Pow2(shift + rest), n * Pow2(rest) * denominator)
  {
    var c := Smaller(TrailingZeros(n), shift);
    ScaledReduced(n, shift, rest, c);
    OnCommonScale(numerator, denominator, n / Pow2(c), shift - c, c + rest);
    ReducedIsExact(numerator, denominator, n / Pow2(c), shift - c);
  }

  lemma OneIsExact(numerator: u64, denominator: u64, rest: nat)
    requires denominator > 0
    ensures Cmp(numerator * Pow2(52 + rest), MANTISSA * Pow2(rest) * denominator) == Cmp(numerator, denominator)
  {
    Pow2At52(52);
    Pow2Sum(52, rest);
    ScaleBoth(numerator, denominator, Pow2(52 + rest));
  }

  lemma OneScaled(rest: nat)
    requires rest == 1022
    ensures Scaled(ONE_BITS) == MANTISSA * Pow2(rest)
  {
    assert ExponentBits(ONE_BITS) == 1023 && ONE_BITS % MANTISSA == 0;
  }

  lemma InteriorIsExact(numerator: u64, denominator: u64, bits: nat, scale: nat)
    requires denominator > 0 && 0 < bits < ONE_BITS && scale == Pow2(1074)
    ensures CompareFractionToBound(numerator, denominator, bits) == Cmp(numerator * scale, Scaled(bits) * denominator)
  {
    UnitExponent(bits);
    if ExponentBits(bits) == 0 {
      SubnormalIsExact(numerator, denominator, bits % MANTISSA, 1074);
    } else {
      NormalIsExact(numerator, denominator, MANTISSA + bits % MANTISSA, 1075 - ExponentBits(bits),
                    ExponentBits(bits) - 1);
    }
  }

  /** The comparison is exact on every input but one: no rows at all against negative zero. */
  lemma ComparisonIsExact(numerator: u64, denominator: u64, bits: nat)
    requires UnitBound(bits)
    ensures CompareFractionToBound(numerator, denominator, bits) == ExactOrder(numerator, denominator, bits)
            <==> !(denominator == 0 && bits == NEGATIVE_ZERO)
  {
    ExactInIntegers(numerator, denominator, bits);
    if denominator == 0 {
      PositiveIsPositive(bits);
    } else if bits == 0 || bits == NEGATIVE_ZERO {
      assert Scaled(bits) == 0;
      ScaleBoth(numerator, 0, Pow2(1074));
    } else if bits == ONE_BITS {
      OneScaled(1022);
      OneIsExact(numerator, denominator, 1022);
    } else {
      InteriorIsExact(numerator, denominator, bits, Pow2(1074));
    }
  }

  lemma PositiveIsPositive(bits: nat)
    requires UnitBound(bits)
    ensures Scaled(bits) == 0 <==> bits == 0 || bits == NEGATIVE_ZERO
  {
    if 0 < bits <= ONE_BITS && ExponentBits(bits) == 0 {
      assert bits / MANTISSA < 0x800;
    }
  }

  /** With rows, the answer is the order of the quotient of the counts and the bound, as real numbers. */
  lemma ComparisonMeans(numerator: u64, denominator: u64, bits: nat)
    requires UnitBound(bits) && denominator > 0
    ensures var ratio, answer := numerator as real / denominator as real,
                                 CompareFractionToBound(numerator, denominator, bits);
            && (answer == Less <==> ratio < Value(bits)) && (answer == Equal <==> ratio == Value(bits))
            && (answer == Greater <==> ratio > Value(bits))
  {
    ComparisonIsExact(numerator, denominator, bits);
  }

  /** The excluded input: a ratio of zero is reported above a bound of zero. */
  lemma NegativeZeroCounterexample()
    ensures CompareFractionToBound(0, 0, NEGATIVE_ZERO) == Greater && ExactOrder(0, 0, NEGATIVE_ZERO) == Equal
  {
    ExactInIntegers(0, 0, NEGATIVE_ZERO);
  }

  // ----- the number behind a pattern ---------------------------------------------------------------------

  lemma Quotient(a: int, b: int, c: int)
    requires b > 0 && c > 0
    ensures (a * b) as real / (b * c) as real == a as real / c as real
  {
    var x := a as real / c as real;
    assert x * (b * c) as real == (a * b) as real;
  }

  /** Exponent e and fraction f stand for (2^52 + f) / 2^(1075 - e); the smallest exponent has no leading one. */
  lemma PatternValue(e: nat, f: nat)
    requires e <= 1022 && f < 0x10_0000_0000_0000
    ensures var bits := e * 0x10_0000_0000_0000 + f;
            && UnitBound(bits)
            && (e == 0 ==> Value(bits) == f as real / Pow2(1074) as real)
            && (e > 0 ==> Value(bits) == (0x10_0000_0000_0000 + f) as real / Pow2(1075 - e) as real)
  {
    var bits := e * MANTISSA + f;
    assert bits / MANTISSA == e && bits % MANTISSA == f && ExponentBits(bits) == e;
    if e > 0 {
      Pow2Sum(e - 1, 1075 - e);
      Quotient(MANTISSA + f, Pow2(e - 1), Pow2(1075 - e));
    }
  }

  /** The bound one, on the scale of all bounds. */
  lemma OneIsScale(rest: nat, scale: nat)
    requires rest == 1022 && scale == 52 + rest
    ensures Scaled(0x3ff0_0000_0000_0000) == Pow2(scale)
  {
    OneScaled(rest);
    Pow2At52(52);
    Pow2Sum(52, rest);
  }

  lemma ValueIs(bits: nat, scale: nat)
    requires UnitBound(bits) && scale == 1074
    ensures Value(bits) == Scaled(bits) as real / Pow2(scale) as real
  {
  }

  lemma Pow2Means(n: nat)
    ensures Pow2(0) == 1 && Pow2(n + 1) == 2 * Pow2(n)
  {
  }
}
