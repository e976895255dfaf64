/**
  Integer semantics of the C dialect the kernel is compiled with (32-bit x86, GCC):
  the ranges of `int`, `int64_t` and `uint32_t`, the conversion of an `int` into a
  `uint32_t` register, and C's `/`, which truncates toward zero where Dafny's `/`
  on `int` is Euclidean.
 */
module CInt {

  const INT32_MIN: int := -0x8000_0000
  const INT32_MAX: int := 0x7FFF_FFFF
  const INT64_MIN: int := -0x8000_0000_0000_0000
  const INT64_MAX: int := 0x7FFF_FFFF_FFFF_FFFF
  const UINT32_MODULUS: int := 0x1_0000_0000

  /** The values of an `int` (32-bit two's complement). */
  type Int32 = x: int | -0x8000_0000 <= x <= 0x7FFF_FFFF

  /** The values of a `uint32_t`. */
  type Uint32 = x: int | 0 <= x < 0x1_0000_0000

  /** The value is representable as a C `int` (32-bit two's complement). */
  predicate IsInt32(x: int) {
    INT32_MIN <= x <= INT32_MAX
  }

  /** The value is representable as an `int64_t`. */
  predicate IsInt64(x: int) {
    INT64_MIN <= x <= INT64_MAX
  }

  function Abs(x: int): (r: nat)
    ensures r == x || r == -x
  {
    if x < 0 then -x else x
  }

  /** What C99 promises of `q == a / b`: the remainder `a - q * b` is smaller than
      the divisor in magnitude and carries the sign of the dividend (or is zero). */
  ghost predicate IsTruncQuotient(a: int, b: int, q: int) {
    var rem := a - q * b;
    Abs(rem) < Abs(b) && (a >= 0 ==> rem >= 0) && (a <= 0 ==> rem <= 0)
  }

  /** C's integer division `a / b`, truncating toward zero. */
  function CDiv(a: int, b: int): (q: int)
    requires b != 0
    ensures IsTruncQuotient(a, b, q)
  {
    if a >= 0 && b > 0 then
      NonNegativeOperands(a, b);
      a / b
    else if a >= 0 then
      NegatedDivisor(a, -b);
      -(a / -b)
    else if b > 0 then
      NegatedDividend(-a, b);
      -(-a / b)
    else
      NegatedBoth(-a, -b);
      -a / -b
  }

  lemma NonNegativeOperands(a: int, b: int)
    requires a >= 0 && b > 0
    ensures IsTruncQuotient(a, b, a / b)
  {
    var q, m := a / b, a % b;
    assert a == q * b + m && 0 <= m < b;
  }

  lemma NegatedDivisor(a: nat, c: int)
    requires c > 0
    ensures IsTruncQuotient(a, -c, -(a / c))
  {
    var q, m := a / c, a % c;
    assert a == q * c + m && 0 <= m < c;
    assert -q * -c == q * c;
  }

  lemma NegatedDividend(n: int, b: int)
    requires n >= 0 && b > 0
    ensures IsTruncQuotient(-n, b, -(n / b))
  {
    var q, m := n / b, n % b;
    assert n == q * b + m && 0 <= m < b;
    assert -q * b == -(q * b);
  }

  lemma NegatedBoth(n: int, c: int)
    requires n >= 0 && c > 0
    ensures IsTruncQuotient(-n, -c, n / c)
  {
    var q, m := n / c, n % c;
    assert n == q * c + m && 0 <= m < c;
    assert q * -c == -(q * c);
  }

  lemma MulAtLeast(x: nat, y: nat)
    requires x >= 1
    ensures x * y >= y
  {
    var k: nat := x - 1;
    assert x * y == k * y + y;
  }

  /** Multiplication by a natural number is monotone. */
  lemma MulLe(a: nat, c: nat, b: nat)
    requires a <= c
    ensures a * b <= c * b
  {
    var k: nat := c - a;
    assert c * b == a * b + k * b;
  }

  lemma AbsMul(d: int, b: int)
    ensures Abs(d * b) == Abs(d) * Abs(b)
  {
    if d < 0 && b < 0 {
      assert d * b == (-d) * (-b);
    } else if d < 0 {
      assert d * b == -((-d) * b);
    } else if b < 0 {
      assert d * b == -(d * (-b));
    }
  }

  /** Any multiple of `b` other than zero is at least as large as `b` in magnitude. */
  lemma MultipleBound(d: int, b: int)
    ensures d == 0 || Abs(d * b) >= Abs(b)
  {
    if d != 0 {
      AbsMul(d, b);
      MulAtLeast(Abs(d), Abs(b));
    }
  }

  /** The truncated quotient is unique: C's `/` is determined by the two remainder rules. */
  lemma TruncQuotientUnique(a: int, b: int, q1: int, q2: int)
    requires b != 0
    requires IsTruncQuotient(a, b, q1) && IsTruncQuotient(a, b, q2)
    ensures q1 == q2
  {
    var r1, r2 := a - q1 * b, a - q2 * b;
    assert r1 - r2 == (q2 - q1) * b;
    MultipleBound(q2 - q1, b);
  }

  /** The `uint32_t` bit pattern of an integer: the value congruent to `x` modulo 2^32,
      which is what storing an `int` into a 32-bit register yields. */
  function ToUint32(x: int): (r: Uint32)
    ensures (x - r) % UINT32_MODULUS == 0
  {
    x % UINT32_MODULUS
  }

  /** Non-negative `int`s keep their value as `uint32_t`; negative ones wrap to x + 2^32. */
  lemma ToUint32OfInt32(x: int)
    requires IsInt32(x)
    ensures x >= 0 ==> ToUint32(x) == x
    ensures x < 0 ==> ToUint32(x) == x + UINT32_MODULUS
  {
  }
}
