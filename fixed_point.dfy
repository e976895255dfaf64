/**
  The 17.14 fixed-point arithmetic of threads/float.h. A real number v is held in an
  `int` as v * 2^14: 17 bits before the binary point, 14 after, one sign bit. Every
  macro is a single integer expression evaluated with C's operators, so each is a
  function over `int` here; a requires clause states the C ranges in which the
  macro's expression does not overflow (signed overflow being undefined in C).
 */
module FixedPoint {
  import opened CInt

  /** FRACTION, `1 << Q` with Q = 14 bits after the binary point: the scale factor
      2^14. The P = 17 bits before the binary point appear as the bound 2^17 = 0x2_0000
      of the integers INT_TO_FP can convert (IntToFpFitsInt32). */
  const FRACTION: int := 0x4000
  /** `(FRACTION) / 2`, the half unit that FP_TO_INT_ROUND adds before truncating. */
  const HALF: int := FRACTION / 2

  /** The real number a fixed-point value stands for. */
  ghost function Value(x: int): real {
    x as real / FRACTION as real
  }

  /** INT_TO_FP(n): `n * FRACTION`. The result has no fraction bits and its integer part
      is `n`; the product must fit an `int`, which IntToFpFitsInt32 shows is exactly the
      17-bit range of n. */
  function IntToFp(n: int): (x: int)
    requires IsInt32(n) && IsInt32(n * FRACTION)
    ensures x % FRACTION == 0 && x / FRACTION == n
    ensures Value(x) == n as real
  {
    n * FRACTION
  }

  /** FP_TO_INT_ZERO(x): `x / FRACTION` with C's division, so the fraction is
      discarded toward zero. */
  function FpToIntZero(x: int): (n: int)
    requires IsInt32(x)
    ensures IsTruncQuotient(x, FRACTION, n)
    ensures -0x2_0000 <= n < 0x2_0000
  {
    CDiv(x, FRACTION)
  }

  /** FP_TO_INT_ROUND's intermediate `x + FRACTION/2` (for x >= 0) or
      `x - FRACTION/2` (for x < 0) fits an `int`. */
  predicate RoundFits(x: int) {
    if x >= 0 then IsInt32(x + HALF) else IsInt32(x - HALF)
  }

  /** FP_TO_INT_ROUND(x): moves x half a unit away from zero, then truncates toward
      zero. The result is the nearest integer, a tie going away from zero: the scaled
      result `n * FRACTION` is within HALF of x, and lands exactly HALF away only on
      the side away from zero. */
  function FpToIntRound(x: int): (n: int)
    requires IsInt32(x) && RoundFits(x)
    ensures x >= 0 ==> x - HALF < n * FRACTION <= x + HALF
    ensures x < 0 ==> x - HALF <= n * FRACTION < x + HALF
  {
    if x >= 0 then CDiv(x + HALF, FRACTION) else CDiv(x - HALF, FRACTION)
  }

  /** ADD_FP(x, y): `x + y`, the sum of the two represented numbers. */
  function AddFp(x: int, y: int): (r: int)
    requires IsInt32(x) && IsInt32(y) && IsInt32(x + y)
    ensures Value(r) == Value(x) + Value(y)
  {
    x + y
  }

  /** SUB_FP(x, y): `x - y`, the difference of the two represented numbers. */
  function SubFp(x: int, y: int): (r: int)
    requires IsInt32(x) && IsInt32(y) && IsInt32(x - y)
    ensures Value(r) == Value(x) - Value(y)
  {
    x - y
  }

  /** ADD_INT(x, n): `x + n * FRACTION`, adds the integer n to the represented number. */
  function AddInt(x: int, n: int): (r: int)
    requires IsInt32(x) && IsInt32(n) && IsInt32(n * FRACTION) && IsInt32(x + n * FRACTION)
    ensures Value(r) == Value(x) + n as real
  {
    x + n * FRACTION
  }

  /** SUB_INT(x, n): `x - n * FRACTION`, subtracts the integer n from the represented number. */
  function SubInt(x: int, n: int): (r: int)
    requires IsInt32(x) && IsInt32(n) && IsInt32(n * FRACTION) && IsInt32(x - n * FRACTION)
    ensures Value(r) == Value(x) - n as real
  {
    x - n * FRACTION
  }

  /** MULT_FP(x, y): `((int64_t) x) * y / FRACTION`. The product of the two scaled
      values carries 28 fraction bits; dividing by FRACTION brings it back to 14,
      truncating toward zero. */
  function MultFp(x: int, y: int): (r: int)
    requires IsInt32(x) && IsInt32(y)
    ensures IsInt64(x * y)
    ensures IsTruncQuotient(x * y, FRACTION, r)
  {
    MultFpProductFitsInt64(x, y);
    CDiv(x * y, FRACTION)
  }

  /** MULT_INT(x, n): `x * n`, multiplies the represented number by the integer n. */
  function MultInt(x: int, n: int): (r: int)
    requires IsInt32(x) && IsInt32(n) && IsInt32(x * n)
    ensures Value(r) == Value(x) * n as real
  {
    x * n
  }

  /** DIV_FP(x, y): `((int64_t) x) * FRACTION / y`. Scaling the dividend up first
      keeps 14 fraction bits in the quotient, which is truncated toward zero; the
      scaled dividend, at most 2^45 in magnitude, cannot overflow its 64 bits. */
  function DivFp(x: int, y: int): (r: int)
    requires IsInt32(x) && IsInt32(y) && y != 0
    ensures IsInt64(x * FRACTION)
    ensures IsTruncQuotient(x * FRACTION, y, r)
  {
    CDiv(x * FRACTION, y)
  }

  /** DIV_INT(x, n): `x / n`, divides the represented number by the integer n,
      truncating toward zero. */
  function DivInt(x: int, n: int): (r: int)
    requires IsInt32(x) && IsInt32(n) && n != 0 && !(x == INT32_MIN && n == -1)
    ensures IsTruncQuotient(x, n, r)
  {
    CDiv(x, n)
  }

  // ---------------------------------------------------------------------------
  // Range, round-trip and consistency properties of the macros

  /** INT_TO_FP(n) fits an `int` exactly when n fits in the 17 integer bits
      (with the sign): -2^17 <= n < 2^17. */
  lemma IntToFpFitsInt32(n: int)
    requires IsInt32(n)
    ensures IsInt32(n * FRACTION) <==> -0x2_0000 <= n < 0x2_0000
  {
  }

  /** Truncating back to an integer undoes INT_TO_FP. */
  lemma {:induction false} ZeroRoundTrip(n: int)
    requires -0x2_0000 <= n < 0x2_0000
    ensures FpToIntZero(IntToFp(n)) == n
  {
    IntToFpFitsInt32(n);
    var x := IntToFp(n);
    assert IsTruncQuotient(x, FRACTION, n);
    TruncQuotientUnique(x, FRACTION, FpToIntZero(x), n);
  }

  /** Rounding back to an integer undoes INT_TO_FP as well, for every n whose
      FP_TO_INT_ROUND intermediate fits an `int` (RoundTripOverflowsAtMinimum). */
  lemma {:induction false} RoundRoundTrip(n: int)
    requires -0x2_0000 < n < 0x2_0000
    ensures RoundFits(IntToFp(n)) && FpToIntRound(IntToFp(n)) == n
  {
    IntToFpFitsInt32(n);
    var x := IntToFp(n);
    assert RoundFits(x);
    var m := FpToIntRound(x);
    assert (m - n) * FRACTION == m * FRACTION - x;
  }

  /** The one integer whose fixed-point form is an `int` but cannot be rounded back:
      for n = -2^17, INT_TO_FP(n) is INT32_MIN and `x - FRACTION/2` overflows. */
  lemma RoundTripOverflowsAtMinimum()
    ensures IntToFp(-0x2_0000) == INT32_MIN
    ensures !RoundFits(IntToFp(-0x2_0000))
  {
  }

  /** FP_TO_INT_ROUND gives a nearest integer: no integer k is closer to x. */
  lemma {:induction false} RoundIsNearest(x: int, k: int)
    requires IsInt32(x) && RoundFits(x)
    ensures Abs(x - FpToIntRound(x) * FRACTION) <= Abs(x - k * FRACTION)
  {
    var n := FpToIntRound(x);
    assert (k - n) * FRACTION == k * FRACTION - n * FRACTION;
    if k != n {
      assert Abs(k * FRACTION - n * FRACTION) >= FRACTION;
    }
  }

  /** A value exactly half-way between the integers m and m + 1 rounds away from
      zero: up to m + 1 when it is positive, down to m when it is negative. */
  lemma {:induction false} RoundHalvesAwayFromZero(x: int, m: int)
    requires IsInt32(x) && RoundFits(x)
    requires x == m * FRACTION + HALF
    ensures FpToIntRound(x) == if x >= 0 then m + 1 else m
  {
    var n := FpToIntRound(x);
    assert (n - m) * FRACTION == n * FRACTION - m * FRACTION;
  }

  /** Rounding is symmetric about zero. */
  lemma {:induction false} RoundNegate(x: int)
    requires IsInt32(x) && IsInt32(-x) && RoundFits(x) && RoundFits(-x)
    ensures FpToIntRound(-x) == -FpToIntRound(x)
  {
    var n, m := FpToIntRound(x), FpToIntRound(-x);
    assert (n + m) * FRACTION == n * FRACTION + m * FRACTION;
  }

  /** ADD_INT(x, n) is ADD_FP(x, INT_TO_FP(n)). */
  lemma AddIntIsAddFp(x: int, n: int)
    requires IsInt32(x) && IsInt32(n) && IsInt32(n * FRACTION) && IsInt32(x + n * FRACTION)
    ensures AddInt(x, n) == AddFp(x, IntToFp(n))
  {
  }

  /** SUB_INT(x, n) is SUB_FP(x, INT_TO_FP(n)). */
  lemma SubIntIsSubFp(x: int, n: int)
    requires IsInt32(x) && IsInt32(n) && IsInt32(n * FRACTION) && IsInt32(x - n * FRACTION)
    ensures SubInt(x, n) == SubFp(x, IntToFp(n))
  {
  }

  /** MULT_FP forms the product of two `int`s in 64 bits, where it cannot overflow:
      |x * y| <= 2^62. */
  lemma {:induction false} MultFpProductFitsInt64(x: int, y: int)
    requires IsInt32(x) && IsInt32(y)
    ensures IsInt64(x * y)
  {
    AbsMul(x, y);
    MulLe(Abs(x), 0x8000_0000, Abs(y));
    MulLe(Abs(y), 0x8000_0000, 0x8000_0000);
  }

  /** Multiplying by the fixed-point form of an integer is MULT_INT, exactly:
      the 64-bit product keeps every bit before the division by FRACTION. */
  lemma {:induction false} MultFpByIntIsMultInt(x: int, n: int)
    requires IsInt32(x) && IsInt32(n) && IsInt32(n * FRACTION) && IsInt32(x * n)
    ensures MultFp(x, IntToFp(n)) == MultInt(x, n)
  {
    var y := IntToFp(n);
    assert x * y == (x * n) * FRACTION;
    assert IsTruncQuotient(x * y, FRACTION, x * n);
    TruncQuotientUnique(x * y, FRACTION, MultFp(x, y), x * n);
  }

  /** Scaling dividend and divisor by FRACTION keeps the truncated quotient. */
  lemma ScaledQuotient(a: int, b: int, q: int)
    requires b != 0 && IsTruncQuotient(a, b, q)
    ensures IsTruncQuotient(a * FRACTION, b * FRACTION, q)
  {
    var rem := a - q * b;
    var qb := q * b;
    assert q * (b * FRACTION) == qb * FRACTION;
    assert a * FRACTION - q * (b * FRACTION) == rem * FRACTION;
  }

  /** Dividing by the fixed-point form of a nonzero integer is DIV_INT: both
      truncate toward zero, and scaling dividend and divisor by FRACTION scales the
      remainder too. */
  lemma {:induction false} DivFpByIntIsDivInt(x: int, n: int)
    requires IsInt32(x) && IsInt32(n) && n != 0 && IsInt32(n * FRACTION)
    requires !(x == INT32_MIN && n == -1)
    ensures DivFp(x, IntToFp(n)) == DivInt(x, n)
  {
    var q := DivInt(x, n);
    ScaledQuotient(x, n, q);
    TruncQuotientUnique(x * FRACTION, n * FRACTION, DivFp(x, IntToFp(n)), q);
  }
}
