/** The JavaScript number operations the swiper uses, over mathematical reals.
    Finite doubles are idealised as reals: no rounding error, no NaN, no -0. */
module JsMath {

  /** True when `x` has no fractional part. */
  predicate IsInteger(x: real) {
    x.Floor as real == x
  }

  lemma IntegerSum(a: real, b: real)
    requires IsInteger(a) && IsInteger(b)
    ensures IsInteger(a + b) && IsInteger(a - b) && IsInteger(-a)
  {
    var k, l := a.Floor, b.Floor;
    assert a + b == (k + l) as real;
    IntegerOfInt(k + l);
    assert a - b == (k - l) as real;
    IntegerOfInt(k - l);
    assert -a == (-k) as real;
    IntegerOfInt(-k);
  }

  lemma IntegerOfInt(k: int)
    ensures IsInteger(k as real)
  {
  }

  /** An integral real strictly between -1 and 1 is 0. */
  lemma SmallInteger(x: real)
    requires IsInteger(x) && -1.0 < x < 1.0
    ensures x == 0.0
  {
  }

  /** Truncation toward zero, the integer part the `%` operator removes. */
  function Trunc(x: real): (t: int)
    ensures 0.0 <= x ==> t as real <= x < t as real + 1.0
    ensures x < 0.0 ==> t as real - 1.0 < x <= t as real
  {
    if x >= 0.0 then x.Floor else -((-x).Floor)
  }

  /** The `%` operator on finite numbers (Number::remainder of ECMA-262):
      the remainder of truncating division, whose sign follows the dividend. */
  function Rem(n: real, d: real): (r: real)
    requires d != 0.0
    ensures d > 0.0 ==> -d < r < d
    ensures d > 0.0 && 0.0 <= n ==> 0.0 <= r
    ensures d > 0.0 && n < 0.0 ==> r <= 0.0
  {
    var r := n - (Trunc(n / d) as real) * d;
    RemBounds(n, d, r);
    r
  }

  /** For a positive divisor the remainder lies strictly within one divisor of zero,
      has the sign of the dividend, differs from it by a whole number of divisors,
      and is the dividend itself when that already lies in [0, d). */
  lemma RemFacts(n: real, d: real)
    requires d > 0.0
    ensures -d < Rem(n, d) < d
    ensures 0.0 <= n ==> 0.0 <= Rem(n, d)
    ensures n < 0.0 ==> Rem(n, d) <= 0.0
    ensures IsInteger((Rem(n, d) - n) / d)
    ensures 0.0 <= n < d ==> Rem(n, d) == n
  {
    RemMultiple(n, d);
    if 0.0 <= n < d {
      QuotientBelowOne(n, d);
      assert Trunc(n / d) == 0;
    }
  }

  /** The remainder of a positive divisor is the fractional part of the quotient
      times the divisor, so it lies within one divisor of 0 with the dividend's sign. */
  lemma RemBounds(n: real, d: real, r: real)
    requires d != 0.0 && r == n - (Trunc(n / d) as real) * d
    ensures d > 0.0 ==> -d < r < d
    ensures d > 0.0 && 0.0 <= n ==> 0.0 <= r
    ensures d > 0.0 && n < 0.0 ==> r <= 0.0
  {
    var q := n / d;
    var f := q - Trunc(q) as real;
    RemIsFraction(n, d, r);
    TruncFraction(q);
    if d > 0.0 {
      SignOfQuotient(n, d);
      FractionTimes(r, f, d);
    }
  }

  lemma TruncFraction(q: real)
    ensures -1.0 < q - Trunc(q) as real < 1.0
    ensures 0.0 <= q ==> 0.0 <= q - Trunc(q) as real
    ensures q < 0.0 ==> q - Trunc(q) as real <= 0.0
  {
  }

  lemma RemIsFraction(n: real, d: real, r: real)
    requires d != 0.0 && r == n - (Trunc(n / d) as real) * d
    ensures r == (n / d - Trunc(n / d) as real) * d
  {
    var q := n / d;
    var t := Trunc(q) as real;
    assert n == q * d;
    assert q * d - t * d == (q - t) * d;
  }

  lemma SignOfQuotient(n: real, d: real)
    requires d > 0.0
    ensures 0.0 <= n <==> 0.0 <= n / d
  {
  }

  lemma FractionTimes(r: real, f: real, d: real)
    requires r == f * d
    requires -1.0 < f < 1.0 && d > 0.0
    ensures -d < r < d
    ensures 0.0 <= f ==> 0.0 <= r
    ensures f <= 0.0 ==> r <= 0.0
  {
  }

  lemma RemMultiple(n: real, d: real)
    requires d > 0.0
    ensures IsInteger((Rem(n, d) - n) / d)
  {
    var t := Trunc(n / d);
    assert Rem(n, d) - n == -(t as real) * d;
    assert (Rem(n, d) - n) / d == -(t as real);
    IntegerOfInt(-t);
  }

  lemma QuotientBelowOne(n: real, d: real)
    requires 0.0 <= n < d
    ensures n / d < 1.0
  {
    if n / d >= 1.0 {
      assert n == (n / d) * d;
      MulUnitBelow(n / d, d);
    }
  }

  lemma MulUnitBelow(q: real, d: real)
    requires 1.0 <= q && d > 0.0
    ensures d <= q * d
  {
  }

  lemma IntCastMul(a: int, b: int)
    ensures (a * b) as real == a as real * b as real
  {
  }

  lemma DivSum(a: real, b: real, m: real)
    requires m != 0.0
    ensures (a + b) / m == a / m + b / m
  {
  }

  lemma MulMonotone(k: real, m: real)
    requires m > 0.0
    ensures k >= 1.0 ==> k * m >= m
    ensures k <= -1.0 ==> k * m <= -m
  {
  }

  /** `Math.round` (ECMA-262, section 21.3.2.28): the integer closest to `x`,
      ties going toward +infinity. */
  function Round(x: real): (r: int)
    ensures r as real - 0.5 <= x < r as real + 0.5
  {
    (x + 0.5).Floor
  }

  /** The bracket of `Round` determines it: only one integer lies that close to `x`. */
  lemma RoundUnique(x: real, k: int)
    requires k as real - 0.5 <= x < k as real + 0.5
    ensures Round(x) == k
  {
  }

  /** Ties round up, so -0.5 rounds to 0 and 2.5 to 3; integers are fixed points. */
  lemma RoundTies(k: int)
    ensures Round(k as real) == k
    ensures Round(k as real + 0.5) == k + 1
    ensures Round(k as real - 0.5) == k
    ensures Round(-0.5) == 0
  {
    RoundUnique(k as real, k);
    RoundUnique(k as real + 0.5, k + 1);
    RoundUnique(k as real - 0.5, k);
    RoundUnique(-0.5, 0);
  }

  /** Shifting the argument by a whole number shifts the result by the same amount. */
  lemma RoundShift(x: real, k: int)
    ensures Round(x + k as real) == Round(x) + k
  {
    RoundUnique(x + k as real, Round(x) + k);
  }

  /** `Round` is monotone. */
  lemma RoundMonotone(x: real, y: real)
    requires x <= y
    ensures Round(x) <= Round(y)
  {
  }

  /** The smaller of two numbers, as `Math.min`. */
  function Min(a: real, b: real): (m: real)
    ensures m <= a && m <= b
    ensures m == a || m == b
  {
    if a <= b then a else b
  }
}
