/** Greatest common divisors over unbounded integers, as
    `BigInteger.GreatestCommonDivisor` computes them, with the facts the
    rational normalisation relies on: the gcd is a common divisor, every
    common divisor divides it (through Bezout's identity), and a divisor
    coprime to one factor of a product divides the other. */
module Divisibility {

  function Abs(n: int): nat { if n < 0 then -n else n }

  /** Euclid's algorithm; Gcd(0, 0) == 0 and Gcd(0, d) == d. */
  function Gcd(a: nat, b: nat): nat
    decreases b
  {
    if b == 0 then a else Gcd(b, a % b)
  }

  lemma {:induction false} GcdPositive(a: nat, b: nat)
    requires a > 0 || b > 0
    ensures Gcd(a, b) > 0
    decreases b
  {
    if b != 0 {
      GcdPositive(b, a % b);
    }
  }

  /** Bezout's identity: the gcd is an integer combination of its arguments. */
  lemma {:induction false} Bezout(a: nat, b: nat) returns (x: int, y: int)
    ensures x * a + y * b == Gcd(a, b)
    decreases b
  {
    if b == 0 {
      x, y := 1, 0;
    } else {
      var x', y' := Bezout(b, a % b);
      // a % b == a - (a / b) * b
      x, y := y', x' - y' * (a / b);
      calc {
        x * a + y * b;
        y' * a + x' * b - y' * (a / b) * b;
        x' * b + y' * (a - (a / b) * b);
        x' * b + y' * (a % b);
      }
    }
  }

  /** The gcd divides both arguments. */
  lemma {:induction false} GcdDivides(a: nat, b: nat)
    requires a > 0 || b > 0
    ensures Gcd(a, b) > 0 && a % Gcd(a, b) == 0 && b % Gcd(a, b) == 0
    decreases b
  {
    GcdPositive(a, b);
    if b != 0 {
      GcdDivides(b, a % b);
      var g := Gcd(a, b);
      var qb := ExactQuotient(b, g);
      var qr := ExactQuotient(a % b, g);
      var p := a / b;
      assert a == p * b + a % b;
      Combine(a, p, b, a % b, g, qb, qr);
      MultipleMod(a, p * qb + qr, g);
    }
  }

  lemma ExactQuotient(n: int, k: int) returns (q: int)
    requires k > 0 && n % k == 0
    ensures n == q * k && q == n / k
  {
    q := n / k;
  }

  lemma Combine(a: int, p: int, b: int, m: int, g: int, qb: int, qm: int)
    requires a == p * b + m && b == qb * g && m == qm * g
    ensures a == (p * qb + qm) * g
  {
  }

  lemma MulMono(t: int, k: int)
    requires k > 0 && t >= 1
    ensures t * k >= k
  {
    assert (t - 1) * k >= 0;
  }

  /** A multiple of k leaves no remainder on division by k. */
  lemma MultipleMod(n: int, q: int, k: int)
    requires k > 0 && n == q * k
    ensures n % k == 0
  {
    var r, d := n % k, n / k;
    assert n == d * k + r;
    assert (q - d) * k == r;
    if q - d >= 1 {
      MulMono(q - d, k);
    } else if q - d <= -1 {
      MulMono(d - q, k);
    }
  }

  /** Every common divisor of a and b divides their gcd. */
  lemma CommonDivisorDividesGcd(a: nat, b: nat, k: nat)
    requires k > 0 && a % k == 0 && b % k == 0
    ensures Gcd(a, b) % k == 0
  {
    var x, y := Bezout(a, b);
    CombinationMod(Gcd(a, b), x, a, y, b, k);
  }

  /** A divisor of a and b divides every integer combination of them. */
  lemma CombinationMod(g: int, x: int, a: int, y: int, b: int, k: int)
    requires k > 0 && a % k == 0 && b % k == 0 && g == x * a + y * b
    ensures g % k == 0
  {
    var qa := ExactQuotient(a, k);
    var qb := ExactQuotient(b, k);
    Combine(g, x, a, y * b, k, qa, y * qb);
    MultipleMod(g, x * qa + y * qb, k);
  }

  /** Euclid's lemma: m divides a * c and shares no factor with a, so it divides c. */
  lemma CoprimeDividesFactor(m: nat, a: int, c: int)
    requires m > 0 && Gcd(Abs(a), m) == 1 && (a * c) % m == 0
    ensures c % m == 0
  {
    var x, y := Bezout(Abs(a), m);
    var q := ExactQuotient(a * c, m);
    var s := if a < 0 then -1 else 1;
    assert Abs(a) == s * a;
    calc {
      c;
      (x * Abs(a) + y * m) * c;
      x * s * (a * c) + y * m * c;
      x * s * (q * m) + y * m * c;
      (x * s * q + y * c) * m;
    }
    MultipleMod(c, x * s * q + y * c, m);
  }

  lemma Regroup(a: int, a': int, q: int, h: int, g: int)
    requires a == a' * g && a' == q * h
    ensures a == q * (h * g)
  {
  }

  /** A positive g that is a multiple of h * g forces h == 1. */
  lemma UnitFactor(g: int, h: int, t: int)
    requires g > 0 && h > 0 && g == t * (h * g)
    ensures h == 1
  {
    assert g * (t * h - 1) == 0;
    assert t * h == 1;
    if h >= 2 {
      MulMono(t, h);
    }
  }

  /** Dividing both arguments by their gcd leaves coprime numbers. */
  lemma ReducedCoprime(a: nat, b: nat)
    requires b > 0
    ensures Gcd(a, b) > 0
    ensures Gcd(a / Gcd(a, b), b / Gcd(a, b)) == 1
  {
    GcdDivides(a, b);
    var g := Gcd(a, b);
    var a' := ExactQuotient(a, g);
    var b' := ExactQuotient(b, g);
    assert b' > 0;
    GcdDivides(a', b');
    var h := Gcd(a', b');
    var qa := ExactQuotient(a', h);
    var qb := ExactQuotient(b', h);
    Regroup(a, a', qa, h, g);
    Regroup(b, b', qb, h, g);
    MultipleMod(a, qa, h * g);
    MultipleMod(b, qb, h * g);
    CommonDivisorDividesGcd(a, b, h * g);
    var t := ExactQuotient(g, h * g);
    UnitFactor(g, h, t);
  }
}
