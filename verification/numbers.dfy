/**
 * Exact stand-ins for the floating-point operations of the calculator:
 * `math.ceil`, Python's `round` (half to even), and `pow` with a whole exponent.
 */
module Numbers {

  /** `math.ceil`: the least integer not below `x`. */
  function Ceil(x: real): (c: int)
    ensures x <= c as real < x + 1.0
  {
    -((-x).Floor)
  }

  /** Every integer not below `x` is at least `Ceil(x)`. */
  lemma CeilLeast(x: real, k: int)
    requires x <= k as real
    ensures Ceil(x) <= k
  {
  }

  lemma CeilMonotone(x: real, y: real)
    requires x <= y
    ensures Ceil(x) <= Ceil(y)
  {
    CeilLeast(x, Ceil(y));
  }

  /** Python's `round(x)` on a float: the nearest integer, ties going to the even one. */
  function RoundHalfEven(x: real): (r: int)
    ensures x - 0.5 <= r as real <= x + 0.5
    ensures (r as real == x - 0.5 || r as real == x + 0.5) ==> r % 2 == 0
  {
    var f := x.Floor;
    var d := x - f as real;
    if d < 0.5 then f
    else if d > 0.5 then f + 1
    else if f % 2 == 0 then f
    else f + 1
  }

  /** Rounding never moves below an integer that `x` is not below. */
  lemma RoundHalfEvenAtLeast(x: real, k: int)
    requires k as real <= x
    ensures k <= RoundHalfEven(x)
  {
  }

  /** `b ** n` for a whole exponent. */
  function Pow(b: real, n: nat): real {
    if n == 0 then 1.0 else b * Pow(b, n - 1)
  }

  lemma {:induction false} PowAtLeastOne(b: real, n: nat)
    requires b >= 1.0
    ensures Pow(b, n) >= 1.0
  {
    if n > 0 {
      PowAtLeastOne(b, n - 1);
      assert b * Pow(b, n - 1) >= Pow(b, n - 1);
    }
  }

  lemma {:induction false} PowAboveOne(b: real, n: nat)
    requires b > 1.0 && n > 0
    ensures Pow(b, n) > 1.0
  {
    PowAtLeastOne(b, n - 1);
    assert b * Pow(b, n - 1) > Pow(b, n - 1);
  }

  /** Bernoulli's inequality: `(1 + i) ** n >= 1 + n * i` for `i >= 0`. */
  lemma {:induction false} Bernoulli(i: real, n: nat)
    requires i >= 0.0
    ensures Pow(1.0 + i, n) >= 1.0 + n as real * i
  {
    if n > 0 {
      Bernoulli(i, n - 1);
      var p := Pow(1.0 + i, n - 1);
      PowAtLeastOne(1.0 + i, n - 1);
      assert Pow(1.0 + i, n) == p + i * p;
      assert i * p >= i;
      assert (n - 1) as real * i + i == n as real * i;
    }
  }

  /** Multiplying by a non-negative number keeps the order. */
  lemma MulMonotone(a: real, x: real, y: real)
    requires a >= 0.0 && x <= y
    ensures a * x <= a * y
  {
    assert a * y - a * x == a * (y - x);
  }

  /** A product with a positive factor has the sign of the other factor. */
  lemma MulPositiveSign(a: real, x: real)
    requires a > 0.0
    ensures a * x <= 0.0 <==> x <= 0.0
    ensures a * x >= 0.0 <==> x >= 0.0
  {
    if x > 0.0 { MulMonotone(a, 0.0, x); assert a * x != 0.0; }
    if x < 0.0 { MulMonotone(a, x, 0.0); assert a * x != 0.0; }
  }

  /** Dividing by a positive number keeps the order. */
  lemma DivMonotone(x: real, y: real, t: real)
    requires t > 0.0 && x <= y
    ensures x / t <= y / t
  {
    assert t * (y / t - x / t) == y - x;
    MulPositiveSign(t, y / t - x / t);
  }

  /** `(1 + i) ** n - 1 <= n * i * (1 + i) ** n` for `i >= 0`. */
  lemma {:induction false} GrowthBound(i: real, n: nat)
    requires i >= 0.0
    ensures Pow(1.0 + i, n) - 1.0 <= n as real * i * Pow(1.0 + i, n)
  {
    if n > 0 {
      GrowthBound(i, n - 1);
      var p := Pow(1.0 + i, n - 1);
      PowAtLeastOne(1.0 + i, n - 1);
      assert Pow(1.0 + i, n) == p + i * p;
      var a := n as real * i;
      assert a >= 0.0;
      MulMonotone(i, 0.0, p);
      MulMonotone(a, p, p + i * p);
      assert (n - 1) as real * i * p + i * p == a * p;
      assert n as real * i * Pow(1.0 + i, n) == a * (p + i * p);
    }
  }

  /** The monthly rate `(rate / 12) / 100` of an annual percentage. */
  function MonthlyRate(annualPercent: real): (i: real)
    ensures i * 1200.0 == annualPercent
  {
    (annualPercent / 12.0) / 100.0
  }
}
