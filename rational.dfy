/** `Rational`: an exact fraction of two big integers, always stored with a
    positive denominator and in lowest terms. */
module Rationals {
  import opened Wrappers
  import opened Divisibility
  import Text

  datatype Rational = Rational(num: int, den: int)

  /** The representation every constructor call produces. */
  predicate Normal(r: Rational) {
    r.den > 0 && Gcd(Abs(r.num), r.den) == 1
  }

  /** A rational as the engine holds it after construction. */
  type Rat = r: Rational | Normal(r) witness Rational(0, 1)

  /** The number a fraction stands for; `ToDouble` without rounding. */
  function ToDouble(r: Rational): real
    requires r.den != 0
  {
    r.num as real / r.den as real
  }

  /** `BigInteger` division, which truncates toward zero. */
  function TDiv(a: int, b: int): int
    requires b != 0
  {
    var q := Abs(a) / Abs(b);
    if (a < 0) == (b < 0) then q else -q
  }

  /** `BigInteger` remainder, which takes the sign of the dividend. */
  function TRem(a: int, b: int): int
    requires b != 0
  {
    a - b * TDiv(a, b)
  }

  lemma TDivExact(a: int, k: int)
    requires k > 0 && a % k == 0
    ensures TDiv(a, k) == a / k && a == (a / k) * k
  {
    var q := ExactQuotient(a, k);
    if a < 0 {
      MultipleMod(-a, -q, k);
      var q' := ExactQuotient(-a, k);
      assert q' * k == (-q) * k;
    }
  }

  lemma SignedDivides(a: int, k: int)
    requires k > 0 && Abs(a) % k == 0
    ensures a % k == 0
  {
    var q := ExactQuotient(Abs(a), k);
    MultipleMod(a, if a < 0 then -q else q, k);
  }

  lemma AbsQuotient(a: int, k: int)
    requires k > 0 && Abs(a) % k == 0
    ensures a % k == 0 && Abs(a / k) == Abs(a) / k
  {
    SignedDivides(a, k);
    var q := ExactQuotient(a, k);
    var q' := ExactQuotient(Abs(a), k);
    if a < 0 {
      assert (-q) * k == q' * k;
    } else {
      assert q * k == q' * k;
    }
  }

  /** Body of the constructor for a nonzero denominator: move the sign to the
      numerator and divide both parts by their gcd. */
  function Normalize(n: int, d: int): (r: Rat)
    requires d != 0
    ensures r.num * d == n * r.den
    ensures n == 0 ==> r == Rational(0, 1)
  {
    var n1 := if d < 0 then -n else n;
    var d1 := if d < 0 then -d else d;
    GcdPositive(Abs(n1), d1);
    var g := Gcd(Abs(n1), d1);
    var r := Rational(TDiv(n1, g), TDiv(d1, g));
    NormalizeFacts(n, d, n1, d1, g);
    r
  }

  lemma NormalizeFacts(n: int, d: int, n1: int, d1: int, g: int)
    requires d != 0 && n1 == (if d < 0 then -n else n) && d1 == (if d < 0 then -d else d)
    requires g == Gcd(Abs(n1), d1)
    ensures g > 0
    ensures Normal(Rational(TDiv(n1, g), TDiv(d1, g)))
    ensures TDiv(n1, g) * d == n * TDiv(d1, g)
    ensures n == 0 ==> TDiv(n1, g) == 0 && TDiv(d1, g) == 1
  {
    ReducedCoprime(Abs(n1), d1);
    GcdDivides(Abs(n1), d1);
    SignedDivides(n1, g);
    TDivExact(n1, g);
    TDivExact(d1, g);
    ReducedNormal(n1, d1, g);
    CrossEqual(n, d, n1, d1, g, n1 / g, d1 / g);
    if n == 0 {
      ZeroReduces(d1, g);
    }
  }

  lemma ZeroReduces(d1: int, g: int)
    requires d1 > 0 && g == Gcd(0, d1)
    ensures g == d1
    ensures 0 / g == 0 && d1 / g == 1
  {
    assert g == d1;
  }

  lemma ReducedNormal(n1: int, d1: int, g: int)
    requires d1 > 0 && g > 0
    requires Abs(n1) % g == 0 && d1 % g == 0
    requires Gcd(Abs(n1) / g, d1 / g) == 1
    ensures Normal(Rational(n1 / g, d1 / g))
  {
    AbsQuotient(n1, g);
    var q := ExactQuotient(d1, g);
    assert q > 0;
  }

  lemma CrossEqual(n: int, d: int, n1: int, d1: int, g: int, qn: int, qd: int)
    requires d != 0 && n1 == (if d < 0 then -n else n) && d1 == (if d < 0 then -d else d)
    requires n1 == qn * g && d1 == qd * g
    ensures qn * d == n * qd
  {
    if d < 0 {
      assert qn * d == -(qn * d1);
      assert n * qd == -(n1 * qd);
    }
  }

  /** `new Rational(numerator, denominator)`. */
  function New(n: int, d: int): (r: Result<Rat>)
    ensures r.Throw? <==> d == 0
    ensures r.Throw? ==> r.error == DivideByZero
    ensures r.Ok? ==> r.value.num * d == n * r.value.den
  {
    if d == 0 then Throw(DivideByZero) else Ok(Normalize(n, d))
  }

  /** `new Rational(integer)`. */
  function FromInt(n: int): (r: Rat)
    ensures r == Rational(n, 1)
  {
    var r := Normalize(n, 1);
    Unique(r, Rational(n, 1));
    r
  }

  const Zero: Rat := Rational(0, 1)
  const One: Rat := Rational(1, 1)

  lemma MutualMultiples(x: int, y: int)
    requires x > 0 && y > 0 && x % y == 0 && y % x == 0
    ensures x == y
  {
    var p := ExactQuotient(x, y);
    var q := ExactQuotient(y, x);
    assert x == (q * p) * x;
    UnitFactor(x, p, q);
    assert x == p * y;
  }

  /** Lowest terms are unique: two normal fractions of equal value are the
      same fraction. */
  lemma Unique(a: Rational, b: Rational)
    requires Normal(a) && Normal(b) && a.num * b.den == b.num * a.den
    ensures a == b
  {
    MultipleMod(a.num * b.den, b.num, a.den);
    CoprimeDividesFactor(a.den, a.num, b.den);
    MultipleMod(b.num * a.den, a.num, b.den);
    CoprimeDividesFactor(b.den, b.num, a.den);
    MutualMultiples(a.den, b.den);
  }

  lemma CrossImpliesValue(a: int, b: int, n: int, d: int)
    requires b != 0 && d != 0 && a * d == n * b
    ensures a as real / b as real == n as real / d as real
  {
    assert (a as real) * (d as real) == (n as real) * (b as real);
  }

  lemma NormalizeValue(n: int, d: int)
    requires d != 0
    ensures ToDouble(Normalize(n, d)) == n as real / d as real
  {
    var r := Normalize(n, d);
    CrossImpliesValue(r.num, r.den, n, d);
  }

  /** Unary minus: zero is returned as it is, otherwise only the numerator
      changes sign. */
  function Neg(a: Rat): (r: Rat)
    ensures r.num == -a.num && r.den == a.den
    ensures ToDouble(r) == -ToDouble(a)
  {
    if a.num == 0 then a
    else
      NegatedNormal(a);
      Normalize(-a.num, a.den)
  }

  /** A fraction in lowest terms stays in lowest terms when negated. */
  lemma NegatedNormal(a: Rat)
    ensures Normalize(-a.num, a.den) == Rational(-a.num, a.den)
  {
    var r := Normalize(-a.num, a.den);
    assert Abs(-a.num) == Abs(a.num);
    assert Normal(Rational(-a.num, a.den));
    assert r.num * a.den == -a.num * r.den;
    Unique(r, Rational(-a.num, a.den));
  }

  function Add(a: Rat, b: Rat): (r: Rat)
    ensures ToDouble(r) == ToDouble(a) + ToDouble(b)
  {
    var r := Normalize(a.num * b.den + b.num * a.den, a.den * b.den);
    NormalizeValue(a.num * b.den + b.num * a.den, a.den * b.den);
    SumValue(a.num, a.den, b.num, b.den);
    r
  }

  lemma SumValue(an: int, ad: int, bn: int, bd: int)
    requires ad > 0 && bd > 0
    ensures (an * bd + bn * ad) as real / (ad * bd) as real
            == an as real / ad as real + bn as real / bd as real
  {
  }

  lemma DifferenceValue(an: int, ad: int, bn: int, bd: int)
    requires ad > 0 && bd > 0
    ensures (an * bd - bn * ad) as real / (ad * bd) as real
            == an as real / ad as real - bn as real / bd as real
  {
  }

  function Sub(a: Rat, b: Rat): (r: Rat)
    ensures ToDouble(r) == ToDouble(a) - ToDouble(b)
  {
    var r := Normalize(a.num * b.den - b.num * a.den, a.den * b.den);
    NormalizeValue(a.num * b.den - b.num * a.den, a.den * b.den);
    DifferenceValue(a.num, a.den, b.num, b.den);
    r
  }

  function Mul(a: Rat, b: Rat): (r: Rat)
    ensures ToDouble(r) == ToDouble(a) * ToDouble(b)
  {
    var r := Normalize(a.num * b.num, a.den * b.den);
    NormalizeValue(a.num * b.num, a.den * b.den);
    ProductValue(a.num, a.den, b.num, b.den);
    r
  }

  lemma ProductValue(an: int, ad: int, bn: int, bd: int)
    requires ad > 0 && bd > 0
    ensures (an * bn) as real / (ad * bd) as real
            == (an as real / ad as real) * (bn as real / bd as real)
  {
  }

  /** Division throws when the divisor's numerator is zero. */
  function Div(a: Rat, b: Rat): (r: Result<Rat>)
    ensures r.Throw? <==> b.num == 0
    ensures r.Throw? ==> r.error == DivideByZero
    ensures r.Ok? ==> ToDouble(r.value) * ToDouble(b) == ToDouble(a)
  {
    if b.num == 0 then Throw(DivideByZero)
    else
      var r := Normalize(a.num * b.den, a.den * b.num);
      NormalizeValue(a.num * b.den, a.den * b.num);
      QuotientValue(a.num, a.den, b.num, b.den);
      Ok(r)
  }

  lemma QuotientValue(an: int, ad: int, bn: int, bd: int)
    requires ad > 0 && bd > 0 && bn != 0
    ensures (an * bd) as real / (ad * bn) as real * (bn as real / bd as real)
            == an as real / ad as real
  {
  }

  /** Subtraction agrees with adding the negation: both land on the same
      lowest-terms fraction. */
  lemma SubIsAddNeg(a: Rat, b: Rat)
    ensures Sub(a, b) == Add(a, Neg(b))
  {
    var x, y := Sub(a, b), Add(a, Neg(b));
    assert ToDouble(x) == ToDouble(y);
    ValueDeterminesRat(x, y);
  }

  /** A constructed rational is determined by the number it stands for. */
  lemma ValueDeterminesRat(x: Rat, y: Rat)
    requires ToDouble(x) == ToDouble(y)
    ensures x == y
  {
    ComparisonsMatchValues(x, y);
    Unique(x, y);
  }

  /** Zero has the single representation 0/1. */
  lemma ZeroIsCanonical(r: Rat)
    requires r.num == 0
    ensures r == Zero
  {
    assert Gcd(0, r.den) == Gcd(r.den, 0);
  }

  /** `Rational.FromDecimal`: a decimal is its 96-bit mantissa over 10^scale. */
  function Pow10(k: nat): (p: nat)
    ensures p > 0
  {
    if k == 0 then 1 else 10 * Pow10(k - 1)
  }

  function FromDecimal(mantissa: int, scale: nat): (r: Rat)
    ensures ToDouble(r) == mantissa as real / Pow10(scale) as real
  {
    NormalizeValue(mantissa, Pow10(scale));
    Normalize(mantissa, Pow10(scale))
  }

  /** `Equals`: componentwise comparison of the stored parts. */
  predicate Equals(a: Rational, b: Rational) {
    a.num == b.num && a.den == b.den
  }

  /** `operator ==`: cross-multiplication. */
  predicate Eq(a: Rational, b: Rational) {
    a.num * b.den == b.num * a.den
  }

  predicate Lt(a: Rational, b: Rational) { a.num * b.den < b.num * a.den }
  predicate Le(a: Rational, b: Rational) { a.num * b.den <= b.num * a.den }
  predicate Gt(a: Rational, b: Rational) { a.num * b.den > b.num * a.den }
  predicate Ge(a: Rational, b: Rational) { a.num * b.den >= b.num * a.den }

  /** On constructed values, cross-multiplied == and componentwise Equals agree. */
  lemma EqualsAgreesWithEq(a: Rat, b: Rat)
    ensures Eq(a, b) <==> Equals(a, b)
  {
    if Eq(a, b) {
      Unique(a, b);
    }
  }

  lemma ScaleCompare(x: int, y: int, d: int)
    requires d > 0
    ensures x < y <==> x as real / d as real < y as real / d as real
    ensures x == y <==> x as real / d as real == y as real / d as real
  {
    if x as real / d as real == y as real / d as real {
      assert x as real == (x as real / d as real) * d as real;
    }
  }

  /** n/d is (n·k)/(d·k). */
  lemma Widened(n: int, d: int, k: int)
    requires d > 0 && k > 0
    ensures n as real / d as real == (n * k) as real / (d * k) as real
  {
  }

  /** The comparison operators order rationals by the numbers they stand for. */
  lemma ComparisonsMatchValues(a: Rat, b: Rat)
    ensures Eq(a, b) <==> ToDouble(a) == ToDouble(b)
    ensures Lt(a, b) <==> ToDouble(a) < ToDouble(b)
    ensures Le(a, b) <==> ToDouble(a) <= ToDouble(b)
    ensures Gt(a, b) <==> ToDouble(a) > ToDouble(b)
    ensures Ge(a, b) <==> ToDouble(a) >= ToDouble(b)
  {
    Widened(a.num, a.den, b.den);
    Widened(b.num, b.den, a.den);
    assert b.den * a.den == a.den * b.den;
    ScaleCompare(a.num * b.den, b.num * a.den, a.den * b.den);
    ScaleCompare(b.num * a.den, a.num * b.den, a.den * b.den);
  }

  /** `Rational.Floor`: truncate, then step down once for a negative
      non-integer. */
  function Floor(r: Rat): (f: Rat)
    ensures f.den == 1
    ensures f.num as real <= ToDouble(r) < f.num as real + 1.0
  {
    var q := TDiv(r.num, r.den);
    var floored := if r.num < 0 && TRem(r.num, r.den) != 0 then q - 1 else q;
    FloorBounds(r.num, r.den);
    FromInt(floored)
  }

  lemma FloorBounds(n: int, d: int)
    requires d > 0
    ensures var q := TDiv(n, d);
            var fl := if n < 0 && TRem(n, d) != 0 then q - 1 else q;
            fl as real <= n as real / d as real < fl as real + 1.0
  {
    var q := TDiv(n, d);
    if n >= 0 {
      assert q == n / d;
      assert q * d <= n < q * d + d;
    } else {
      var m := -n;
      assert q == -(m / d);
      assert (m / d) * d <= m < (m / d) * d + d;
      if TRem(n, d) == 0 {
        assert n == q * d;
      } else {
        assert q * d > n;
        assert (q - 1) * d < n;
      }
    }
    var fl := if n < 0 && TRem(n, d) != 0 then q - 1 else q;
    assert fl * d <= n < fl * d + d;
    IntBoundsToReal(fl, n, d);
  }

  lemma PositiveFactor(u: real, c: real)
    requires c > 0.0 && u * c >= 0.0
    ensures u >= 0.0
  {
  }

  lemma IntBoundsToReal(fl: int, n: int, d: int)
    requires d > 0 && fl * d <= n < fl * d + d
    ensures fl as real <= n as real / d as real < fl as real + 1.0
  {
    var x := n as real / d as real;
    var dr := d as real;
    assert x * dr == n as real;
    assert (x - fl as real) * dr == (n - fl * d) as real;
    PositiveFactor(x - fl as real, dr);
    assert (fl as real + 1.0 - x) * dr == (fl * d + d - n) as real;
    PositiveFactor(fl as real + 1.0 - x, dr);
  }

  /** `ToString`: "n" for an integer, otherwise "n/d". */
  function ToString(r: Rational): (s: string)
    ensures r.den == 1 ==> s == Text.IntText(r.num)
    ensures r.den != 1 ==> s == Text.IntText(r.num) + "/" + Text.IntText(r.den)
    ensures r.den != 1 ==> '/' in s
  {
    if r.den == 1 then Text.IntText(r.num)
    else
      var s := Text.IntText(r.num) + "/" + Text.IntText(r.den);
      assert s[|Text.IntText(r.num)|] == '/';
      s
  }
}
