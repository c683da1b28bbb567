/** The real-number facts the double-valued solvers rely on. Doubles are
    modelled as reals; `Math.Sqrt` is a function passed in by the caller and
    `Math.PI` is the number the literal 3.141592653589793 denotes. */
module RealMath {

  /** `Math.Abs` on doubles. */
  function Abs(x: real): (r: real)
    ensures r >= 0.0 && (r == x || r == -x)
  {
    if x < 0.0 then -x else x
  }

  /** The tolerance 1e-10 used by the quadratic and linear solvers. */
  const Tolerance: real := 0.0000000001

  /** `double.Epsilon`, the least positive double, 2^-1074. */
  const DoubleEpsilon: real := 1.0 / TwoToThe(1074)

  function TwoToThe(n: nat): (p: real)
    ensures p >= 1.0
  {
    if n == 0 then 1.0 else 2.0 * TwoToThe(n - 1)
  }

  lemma DoubleEpsilonPositive()
    ensures 0.0 < DoubleEpsilon < 0.001
  {
    var p := TwoToThe(1074);
    TwoToTheGrows(1074);
    assert DoubleEpsilon == 1.0 / p;
  }

  lemma {:induction false} TwoToTheGrows(n: nat)
    ensures TwoToThe(n) >= n as real + 1.0
  {
    if n > 0 {
      TwoToTheGrows(n - 1);
    }
  }

  /** `Math.PI`. */
  const Pi: real := 3.141592653589793

  /** A square-root function: on every nonnegative input it returns the
      nonnegative number whose square is that input. */
  ghost predicate IsSqrt(sqrt: real -> real) {
    forall d: real | d >= 0.0 :: sqrt(d) >= 0.0 && sqrt(d) * sqrt(d) == d
  }

  /** The quadratic formula: with s the square root of the discriminant,
      (−b ± s)/2a are zeros of a·x² + b·x + c. */
  lemma QuadraticFormula(a: real, b: real, c: real, s: real, x: real)
    requires a != 0.0 && s * s == b * b - 4.0 * a * c
    requires x == (-b + s) / (2.0 * a)
    ensures a * x * x + b * x + c == 0.0
  {
    var t := 2.0 * a * x + b;
    assert t == s;
    assert t * t == s * s;
    calc {
      4.0 * a * (a * x * x + b * x + c);
      t * t - (b * b - 4.0 * a * c);
      0.0;
    }
  }

  lemma Distribute(q: real, k: real, m: real)
    ensures q * m - m * k == (q - k) * m
  {
  }

  lemma Slice(t: real, m: real)
    requires 0.0 <= t < 1.0 && m > 0.0
    ensures 0.0 <= t * m < m
  {
  }

  /** p = φ·n with 0 ≤ φ < 1 and n > 0 lies in [0, n). */
  lemma Below(p: real, phi: real, n: real)
    requires p == phi * n && 0.0 <= phi < 1.0 && n > 0.0
    ensures 0.0 <= p < n
  {
    Slice(phi, n);
  }

  /** A product with a positive factor is zero only when the other is. */
  lemma ZeroProduct(p: real, phi: real, n: real)
    requires p == phi * n && n > 0.0
    ensures p == 0.0 <==> phi == 0.0
  {
  }

  lemma Reciprocal(f: real)
    requires 0.0 < f < 1.0
    ensures 1.0 / f > 1.0
  {
  }
}
