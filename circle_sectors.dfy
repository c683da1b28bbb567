/** CircleSectors.cs: an angle as an exact fraction of the full turn, found
    by a continued-fraction search for the best rational approximation with
    a bounded denominator, and rendered as a count of sectors. Doubles are
    modelled as reals, so the search is exact: `Math.Floor`, the casts to
    `BigInteger` and the divisions do not round. */
module CircleSectors {
  import opened Wrappers
  import opened Rationals
  import opened Divisibility
  import RealMath
  import Text

  /** A `double` argument: a number, NaN or an infinity. */
  datatype Angle = Radians(value: real) | NotANumber | Unbounded(positive: bool)

  /** `CircleSectors`: its `Fraction` of a full turn. */
  datatype Sectors = Sectors(fraction: Rat)

  /** What the constructor establishes: 0 ≤ Fraction < 1. */
  predicate Valid(s: Sectors) {
    0.0 <= ToDouble(s.fraction) < 1.0
  }

  lemma SignOfRat(r: Rat)
    ensures r.num < 0 <==> ToDouble(r) < 0.0
    ensures r.num == 0 <==> ToDouble(r) == 0.0
  {
    var d := r.den as real;
    assert ToDouble(r) * d == r.num as real;
  }

  /** The private constructor: the fraction minus its floor, plus one if
      that were negative. */
  function Make(f: Rat): (s: Sectors)
    ensures Valid(s)
    ensures ToDouble(s.fraction) == ToDouble(f) - Floor(f).num as real
  {
    var fl := Floor(f);
    var fr := Sub(f, fl);
    SignOfRat(fr);
    if Lt(fr, Zero) then Sectors(Add(fr, One)) else Sectors(fr)
  }

  /** The integer part of a real, truncated toward zero. */
  function Trunc(x: real): int {
    if x >= 0.0 then x.Floor else -((-x).Floor)
  }

  /** The `%` of two doubles: the remainder of the truncated quotient,
      with the sign of the dividend. */
  function FMod(a: real, m: real): real
    requires m > 0.0
  {
    a - m * Trunc(a / m) as real
  }

  /** The remainder has the sign of the dividend and a smaller magnitude
      than the divisor. */
  lemma FModRange(a: real, m: real)
    requires m > 0.0
    ensures a >= 0.0 ==> 0.0 <= FMod(a, m) < m
    ensures a < 0.0 ==> -m < FMod(a, m) <= 0.0
  {
    var q := a / m;
    assert a == q * m;
    if a >= 0.0 {
      assert q >= 0.0;
      var k := q.Floor;
      assert Trunc(q) == k;
      var t := q - k as real;
      RealMath.Slice(t, m);
      assert FMod(a, m) == a - m * k as real;
      RealMath.Distribute(q, k as real, m);
      assert FMod(a, m) == t * m;
      assert 0.0 <= t * m;
      assert t * m < m;
    } else {
      assert q < 0.0;
      var k := (-q).Floor;
      assert Trunc(q) == -k;
      var t := -q - k as real;
      RealMath.Slice(t, m);
      assert FMod(a, m) == a + m * k as real;
      RealMath.Distribute(-q, k as real, m);
      assert (-q) * m == -a;
      assert FMod(a, m) == -(t * m);
      assert 0.0 <= t * m < m;
    }
  }




  /** The state of the continued-fraction loop: the fractional remainder,
      the last two convergents p0/q0 and p1/q1, and the best one so far
      with its error. */
  datatype Search = Search(f: real, p0: int, q0: int, p1: int, q1: int, pBest: int, qBest: int, bestError: real)

  predicate Inv(s: Search) {
    0.0 <= s.f < 1.0 && 1 <= s.q0 && 0 <= s.q1 <= s.q0 && 1 <= s.qBest
  }

  /** The state before the loop, for a value that is neither 0 nor 1. */
  function Start(value: real): (s: Search)
    requires value >= 0.0
    ensures Inv(s) && s.qBest == 1
    ensures s.bestError == RealMath.Abs(value - s.pBest as real / s.qBest as real)
  {
    var a0 := value.Floor;
    Search(value - a0 as real, a0, 1, 1, 0, a0, 1, RealMath.Abs(value - a0 as real / 1.0))
  }

  /** 1/f ≥ 1 for 0 < f < 1, so every partial quotient is at least one. */
  lemma QuotientAtLeastOne(f: real)
    requires 0.0 < f < 1.0
    ensures (1.0 / f).Floor >= 1
  {
    RealMath.Reciprocal(f);
  }


  /** A loop iteration that goes on: the state after it. */
  function Step(value: real, s: Search): (t: Search)
    requires Inv(s) && s.f > 0.0
    ensures Inv(t)
    ensures t.q0 > s.q1 && t.q1 == s.q0
  {
    var reciprocal := 1.0 / s.f;
    var a := reciprocal.Floor;
    QuotientAtLeastOne(s.f);
    assert a * s.q0 >= s.q0;
    var pNew := a * s.p0 + s.p1;
    var qNew := a * s.q0 + s.q1;
    var error := RealMath.Abs(value - pNew as real / qNew as real);
    if error < s.bestError then Search(reciprocal - a as real, pNew, qNew, s.p0, s.q0, pNew, qNew, error)
    else Search(reciprocal - a as real, pNew, qNew, s.p0, s.q0, s.pBest, s.qBest, s.bestError)
  }

  /** The loop stops on a denominator above the bound, a remainder below
      10⁻¹², or a next denominator above the bound. */
  predicate Stops(max: int, s: Search)
    requires Inv(s)
  {
    s.q0 > max || RealMath.Abs(s.f) < 0.000000000001 || Step(0.0, s).q0 > max
  }

  /** The loop as a function of its state. */
  function Run(value: real, max: int, s: Search): (r: Search)
    requires Inv(s)
    ensures Inv(r)
    ensures r.qBest == s.qBest || r.qBest <= max
    ensures r.bestError <= s.bestError
    decreases if s.q0 <= max then 2 * max - s.q0 - s.q1 + 1 else 0
  {
    if Stops(max, s) then s
    else
      var t := Step(value, s);
      assert t.q0 == Step(0.0, s).q0;
      Run(value, max, t)
  }

  /** The convergents the loop computes and weighs, in order. */
  function Convergents(value: real, max: int, s: Search): seq<(int, int)>
    requires Inv(s)
    decreases if s.q0 <= max then 2 * max - s.q0 - s.q1 + 1 else 0
  {
    if Stops(max, s) then []
    else
      var t := Step(value, s);
      assert t.q0 == Step(0.0, s).q0;
      [(t.p0, t.q0)] + Convergents(value, max, t)
  }

  /** The kept convergent is the first one of least error among the
      starting one and all those weighed: its error is what `bestError`
      holds, and no weighed convergent is strictly closer. */
  lemma {:induction false} BestIsClosest(value: real, max: int, s: Search)
    requires Inv(s)
    requires s.bestError == RealMath.Abs(value - s.pBest as real / s.qBest as real)
    ensures var r := Run(value, max, s);
            r.bestError == RealMath.Abs(value - r.pBest as real / r.qBest as real)
    ensures forall c | c in Convergents(value, max, s) ::
              c.1 != 0 && Run(value, max, s).bestError <= RealMath.Abs(value - c.0 as real / c.1 as real)
    decreases if s.q0 <= max then 2 * max - s.q0 - s.q1 + 1 else 0
  {
    if !Stops(max, s) {
      var t := Step(value, s);
      assert t.q0 == Step(0.0, s).q0;
      BestIsClosest(value, max, t);
      assert Convergents(value, max, s) == [(t.p0, t.q0)] + Convergents(value, max, t);
      assert t.bestError <= RealMath.Abs(value - t.p0 as real / t.q0 as real);
    }
  }

  /** `BestRationalApproximation(x, maxDenominator)`: 0 and 1 (in absolute
      value) are answered at once; otherwise the loop's best convergent,
      made a rational, negated for a negative input. */
  function Best(x: real, max: int): (r: Rat)
    ensures RealMath.Abs(x) == 0.0 ==> r == Zero
    ensures RealMath.Abs(x) == 1.0 ==> r == One
  {
    var absX := RealMath.Abs(x);
    if absX == 0.0 then Zero
    else if absX == 1.0 then One
    else
      var s := Run(absX, max, Start(absX));
      var result := Normalize(s.pBest, s.qBest);
      if x < 0.0 then Neg(result) else result
  }

  /** The reduced fraction's denominator divides the one it came from. */
  lemma ReducedDenominator(n: int, d: int)
    requires d > 0
    ensures Normalize(n, d).den <= d
  {
    GcdPositive(Abs(n), d);
    var g := Gcd(Abs(n), d);
    assert Normalize(n, d).den == TDiv(d, g);
    assert TDiv(d, g) == d / g;
    DivisionShrinks(d, g);
  }

  lemma DivisionShrinks(d: int, g: int)
    requires d > 0 && g >= 1
    ensures d / g <= d
  {
    var q := d / g;
    assert d == q * g + d % g;
    assert q >= 0;
    AtLeastOnce(q, g);
  }

  lemma AtLeastOnce(q: int, g: int)
    requires q >= 0 && g >= 1
    ensures q * g >= q
  {
  }

  /** With a bound of at least one the denominator stays within it. */
  lemma DenominatorBounded(x: real, max: int)
    requires max >= 1
    ensures Best(x, max).den <= max
  {
    var absX := RealMath.Abs(x);
    if absX != 0.0 && absX != 1.0 {
      var s := Run(absX, max, Start(absX));
      ReducedDenominator(s.pBest, s.qBest);
    }
  }

  /** A negative input gives the negated result, except at −1, which the
      early exit answers with 1 before the sign is looked at. */
  lemma Symmetric(x: real, max: int)
    requires x > 0.0
    ensures x != 1.0 ==> Best(-x, max) == Neg(Best(x, max))
    ensures Best(-1.0, max) == One && Best(1.0, max) == One
  {
  }

  /** A stopped loop leaves its state as it is. */
  lemma RunStopped(value: real, max: int, s: Search)
    requires Inv(s) && Stops(max, s)
    ensures Run(value, max, s) == s
  {
  }

  /** A loop that goes on runs on from the state after one iteration. */
  lemma RunGoesOn(value: real, max: int, s: Search)
    requires Inv(s) && !Stops(max, s)
    ensures Run(value, max, s) == Run(value, max, Step(value, s))
  {
  }

  /** One iteration, field by field, for the partial quotient a. */
  lemma StepFields(value: real, s: Search, a: int, pNew: int, qNew: int, error: real)
    requires Inv(s) && s.f > 0.0 && a == (1.0 / s.f).Floor
    requires pNew == a * s.p0 + s.p1 && qNew == a * s.q0 + s.q1
    requires error == RealMath.Abs(value - pNew as real / qNew as real)
    ensures var t := Step(value, s);
            && t.f == 1.0 / s.f - a as real
            && t.p0 == pNew && t.q0 == qNew && t.q0 == Step(0.0, s).q0
            && t.p1 == s.p0 && t.q1 == s.q0
            && (error < s.bestError ==> t.pBest == pNew && t.qBest == qNew && t.bestError == error)
            && (error >= s.bestError ==> t.pBest == s.pBest && t.qBest == s.qBest && t.bestError == s.bestError)
  {
  }

  /** The loop of `BestRationalApproximation`, on the variables of the
      source. */
  method BestRationalApproximation(x: real, maxDenominator: int) returns (r: Rat)
    ensures r == Best(x, maxDenominator)
  {
    var absX := RealMath.Abs(x);
    if absX == 0.0 {
      return Zero;
    }
    if absX == 1.0 {
      return One;
    }
    var value := absX;
    var a0 := value.Floor;
    var f := value - a0 as real;
    var p0, q0 := a0, 1;
    var p1, q1 := 1, 0;
    var pBest, qBest := p0, q0;
    var bestError := RealMath.Abs(value - pBest as real / qBest as real);
    ghost var start := Search(f, p0, q0, p1, q1, pBest, qBest, bestError);
    assert start == Start(value);
    while q0 <= maxDenominator
      invariant Inv(Search(f, p0, q0, p1, q1, pBest, qBest, bestError))
      invariant Run(value, maxDenominator, Search(f, p0, q0, p1, q1, pBest, qBest, bestError)) == Run(value, maxDenominator, start)
      decreases 2 * maxDenominator - q0 - q1 + 1
    {
      ghost var s := Search(f, p0, q0, p1, q1, pBest, qBest, bestError);
      if RealMath.Abs(f) < 0.000000000001 {
        RunStopped(value, maxDenominator, s);
        break;
      }
      var reciprocal := 1.0 / f;
      var a := reciprocal.Floor;
      var pNew := a * p0 + p1;
      var qNew := a * q0 + q1;
      if qNew > maxDenominator {
        RunStopped(value, maxDenominator, s);
        break;
      }
      RunGoesOn(value, maxDenominator, s);
      ghost var t := Step(value, s);
      var approx := pNew as real / qNew as real;
      var error := RealMath.Abs(value - approx);
      StepFields(value, s, a, pNew, qNew, error);
      if error < bestError {
        bestError := error;
        pBest := pNew;
        qBest := qNew;
      }
      p1 := p0;
      q1 := q0;
      p0 := pNew;
      q0 := qNew;
      f := reciprocal - a as real;
      assert Search(f, p0, q0, p1, q1, pBest, qBest, bestError) == t;
    }
    RunStopped(value, maxDenominator, Search(f, p0, q0, p1, q1, pBest, qBest, bestError));
    // new Rational(pBest, qBest), with qBest >= 1
    var result := Normalize(pBest, qBest);
    r := if x < 0.0 then Neg(result) else result;
  }

  /** `FromRadians(radians, maxDenominator)`: NaN and the infinities throw;
      otherwise the angle is brought into [0, 2π) with two `%`, divided by
      2π and approximated. */
  function FromRadians(angle: Angle, max: int): (r: Result<Sectors>)
    ensures r.Throw? <==> !angle.Radians?
    ensures r.Throw? ==> r.error == Argument
    ensures r.Ok? ==> Valid(r.value)
  {
    if !angle.Radians? then Throw(Argument)
    else
      var twoPi := 2.0 * RealMath.Pi;
      var normalized := FMod(FMod(angle.value, twoPi) + twoPi, twoPi);
      Ok(Make(Best(normalized / twoPi, max)))
  }

  /** The turn fraction that `FromRadians` approximates lies in [0, 1). */
  lemma TurnFraction(radians: real)
    ensures var twoPi := 2.0 * RealMath.Pi;
            0.0 <= FMod(FMod(radians, twoPi) + twoPi, twoPi) / twoPi < 1.0
  {
    var twoPi := 2.0 * RealMath.Pi;
    var m := FMod(radians, twoPi);
    FModRange(radians, twoPi);
    FModRange(m + twoPi, twoPi);
  }

  /** `InSectors(totalSectors)`. */
  function InSectors(s: Sectors, total: int): (r: Result<string>)
    ensures r.Throw? <==> total <= 0
    ensures r.Throw? ==> r.error == ArgumentOutOfRange
  {
    if total <= 0 then Throw(ArgumentOutOfRange)
    else
      var passed := Mul(s.fraction, FromInt(total));
      var whole := Floor(passed);
      var frac := Sub(passed, whole);
      if frac.num == 0 then
        if whole.num == 0 then Ok("0 секторов")
        else if Eq(whole, FromInt(total)) then Ok("полный круг")
        else Ok("ровно " + ToString(whole) + " секторов из " + Text.IntText(total))
      else Ok(ToString(passed) + " секторов из " + Text.IntText(total))
  }

  /** The quantities `InSectors` computes, for a valid fraction φ and
      N > 0: φ·N lies in [0, N), its fractional part is zero exactly when
      it is a whole number, and it is zero exactly when φ is. */
  lemma PassedFacts(s: Sectors, total: int)
    requires Valid(s) && total > 0
    ensures var passed := Mul(s.fraction, FromInt(total));
            var whole := Floor(passed);
            && 0.0 <= ToDouble(passed) < total as real
            && (Sub(passed, whole).num == 0 <==> passed.den == 1)
            && (Sub(passed, whole).num == 0 ==> passed == whole)
            && (passed.num == 0 <==> s.fraction.num == 0)
  {
    var n := FromInt(total);
    var passed := Mul(s.fraction, n);
    assert ToDouble(n) == total as real;
    RealMath.Below(ToDouble(passed), ToDouble(s.fraction), total as real);
    RealMath.ZeroProduct(ToDouble(passed), ToDouble(s.fraction), total as real);
    SignOfRat(s.fraction);
    SignOfRat(passed);
    Integral(passed);
  }

  /** A rational's fractional part is zero exactly when it is a whole
      number, and then it is its own floor. */
  lemma Integral(p: Rat)
    ensures Sub(p, Floor(p)).num == 0 <==> p.den == 1
    ensures Sub(p, Floor(p)).num == 0 ==> p == Floor(p)
  {
    var whole := Floor(p);
    var frac := Sub(p, whole);
    SignOfRat(frac);
    assert ToDouble(whole) == whole.num as real;
    if frac.num == 0 {
      IntegerRat(p, whole);
    }
    if p.den == 1 {
      assert ToDouble(p) == p.num as real;
    }
  }


  /** What `InSectors` says for a valid fraction φ and N > 0 sectors:
      "0 секторов" when φ = 0; "ровно k секторов из N" when φ·N is a whole
      k > 0; otherwise φ·N itself. φ < 1, so "полный круг" never comes. */
  lemma InSectorsCases(s: Sectors, total: int)
    requires Valid(s) && total > 0
    ensures var passed := Mul(s.fraction, FromInt(total));
            var r := InSectors(s, total);
            && r.Ok?
            && r.value != "полный круг"
            && (r.value == "0 секторов" <==> s.fraction.num == 0)
            && (passed.den == 1 && passed.num != 0 ==>
                  r.value == "ровно " + Text.IntText(passed.num) + " секторов из " + Text.IntText(total))
            && (passed.den != 1 ==> r.value == ToString(passed) + " секторов из " + Text.IntText(total))
  {
    var passed := Mul(s.fraction, FromInt(total));
    var whole := Floor(passed);
    PassedFacts(s, total);
    if Sub(passed, whole).num == 0 {
      assert passed == whole;
      assert whole.num as real == ToDouble(passed);
      assert !Eq(whole, FromInt(total));
    } else {
      var r := ToString(passed) + " секторов из " + Text.IntText(total);
      assert |r| > |"0 секторов"|;
    }
  }

  /** A rational with the value of an integer is that integer. */
  lemma IntegerRat(r: Rat, w: Rat)
    requires w.den == 1 && ToDouble(r) == w.num as real
    ensures r == w
  {
    assert ToDouble(w) == ToDouble(r);
    ValueDeterminesRat(r, w);
  }

  /** `ToString()`: "0 круга" for zero, "n/d полного круга" otherwise. */
  function Describe(s: Sectors): string {
    if s.fraction.num == 0 then "0 круга"
    else if s.fraction.den == 1 then Text.IntText(s.fraction.num) + " полных кругов"
    else ToString(s.fraction) + " полного круга"
  }

  /** A valid fraction is never a whole number of turns other than zero,
      so the "полных кругов" branch is never taken. */
  lemma TextCases(s: Sectors)
    requires Valid(s)
    ensures s.fraction.num == 0 ==> Describe(s) == "0 круга"
    ensures s.fraction.num != 0 ==> s.fraction.den != 1 && Describe(s) == ToString(s.fraction) + " полного круга"
  {
    SignOfRat(s.fraction);
    if s.fraction.den == 1 {
      assert ToDouble(s.fraction) == s.fraction.num as real;
    }
  }
}
