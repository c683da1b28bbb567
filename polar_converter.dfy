/** PolarConverter.cs: the polar reading of an indexed infinity ∞_F at
    x = p. The radius is always ∞; the angle comes from the numerator F
    evaluated at p, with no tolerance: exactly 0 gives the A4 form
    0_F / 0_G → ∞_{F/G}, a value that cannot be had (an exception, NaN or
    ±∞) asks for a symbolic limit, and any other value points up (π/2) or
    down (3π/2), rendered as a part of a turn and in sectors. */
module PolarConverter {
  import opened Wrappers
  import opened Expressions
  import opened Evaluation
  import opened Rationals
  import opened Divisibility
  import CircleSectors
  import RealMath
  import Text

  /** `EvaluateNumeratorExactly(inf)`: the numerator with the point
      substituted, compiled and run; a finite double is kept, NaN, ±∞ and
      every exception give null. */
  function EvaluateNumeratorExactly(run: Evaluator, inf: Inf): (r: Option<real>)
    ensures r.Some? <==> run(inf.numerator, inf.variable, inf.point).Finite?
    ensures r.Some? ==> r.value == run(inf.numerator, inf.variable, inf.point).value
  {
    match run(inf.numerator, inf.variable, inf.point)
    case Finite(w) => Some(w)
    case _ => None
  }

  /** Every answer starts with the radius and the angle's name. */
  const Head: string := "r = ∞, θ = "

  /** The answer for a numerator that is exactly zero (axiom A4). */
  const IndexText: string := Head + "индекс" + " F/G (0_F / 0_G → ∞_{F/G} по A4 RICIS-III)"

  /** The answer for a numerator that cannot be evaluated at the point. */
  const LimitText: string := Head + "требует" + " символического предела (Numerator не вычислим точно в точке сингулярности)"

  const Upward: string := "положительная ∞ (сверху)"
  const Downward: string := "отрицательная ∞ (снизу)"

  /** π/2 above zero, 3π/2 otherwise. */
  function Direction(w: real): real {
    if w > 0.0 then RealMath.Pi / 2.0 else 3.0 * RealMath.Pi / 2.0
  }

  /** The text for a numerator with a definite, nonzero value w: the turn
      the angle makes, the sectors it passes and the sign. Only
      `InSectors` can throw here, for a sector count below one. */
  function Directed(w: real, total: int, max: int): (r: Result<string>)
    ensures r.Throw? <==> total <= 0
    ensures r.Throw? ==> r.error == ArgumentOutOfRange
  {
    var sectors := CircleSectors.FromRadians(CircleSectors.Radians(Direction(w)), max).value;
    var sectorInfo :- CircleSectors.InSectors(sectors, total);
    var sign := if w > 0.0 then Upward else Downward;
    Ok(Head + CircleSectors.Describe(sectors) + " → " + sectorInfo + " (" + sign + ")")
  }

  /** `ToPolarSector(inf, totalSectors, maxDenominator)`; `None` is a null
      argument. */
  function ToPolarSector(run: Evaluator, inf: Option<Inf>, total: int, max: int): (r: Result<string>)
    ensures inf.None? ==> r == Throw(ArgumentNull)
    ensures inf.Some? ==>
              var o := run(inf.value.numerator, inf.value.variable, inf.value.point);
              && (o == Finite(0.0) ==> r == Ok(IndexText))
              && (!o.Finite? ==> r == Ok(LimitText))
              && (o.Finite? && o.value != 0.0 ==> r == Directed(o.value, total, max))
  {
    if inf.None? then Throw(ArgumentNull)
    else
      var numeratorValue := EvaluateNumeratorExactly(run, inf.value);
      if numeratorValue == Some(0.0) then Ok(IndexText)
      else if numeratorValue.None? then Ok(LimitText)
      else Directed(numeratorValue.value, total, max)
  }

  /** The three readings are told apart by their text, and the call throws
      exactly for a null argument or for a definite direction with fewer
      than one sector. */
  lemma Classification(run: Evaluator, inf: Inf, total: int, max: int)
    ensures var o := run(inf.numerator, inf.variable, inf.point);
            var r := ToPolarSector(run, Some(inf), total, max);
            && (r.Throw? <==> o.Finite? && o.value != 0.0 && total <= 0)
            && (r.Throw? ==> r.error == ArgumentOutOfRange)
            && (r == Ok(IndexText) <==> o == Finite(0.0))
            && (r == Ok(LimitText) <==> !o.Finite?)
  {
    var o := run(inf.numerator, inf.variable, inf.point);
    Initials();
    if o.Finite? && o.value != 0.0 && total > 0 {
      DirectedIsNeither(o.value, total, max);
    }
  }

  /** A directed answer names a part of a turn where the other two answers
      name F/G or a limit. */
  lemma DirectedIsNeither(w: real, total: int, max: int)
    requires total > 0
    ensures Directed(w, total, max).Ok?
    ensures Directed(w, total, max).value != IndexText
    ensures Directed(w, total, max).value != LimitText
  {
    var sectors := CircleSectors.FromRadians(CircleSectors.Radians(Direction(w)), max).value;
    var turn := CircleSectors.Describe(sectors);
    TurnStartsWithNumber(sectors);
    var r := Directed(w, total, max).value;
    assert r[|Head|] == turn[0];
    Initials();
  }

  /** The two fixed answers differ right after the head. */
  lemma Initials()
    ensures IndexText[|Head|] == 'и' && LimitText[|Head|] == 'т'
  {
  }

  const NoSingularities: string := "Monolith: нет сингулярностей"

  /** The line for the singularity numbered n (from 1): its variable, its
      point (`:R` format) and the single answer. */
  function Line(n: nat, inf: Inf, answer: string): string {
    "[" + Text.NatText(n) + "] " + inf.variable + " = " + Text.RealText(inf.point) + ": " + answer
  }

  /** The answers for the singularities, one each, in order. */
  function Answers(run: Evaluator, parts: seq<Inf>, total: int, max: int): (r: seq<Result<string>>)
    ensures |r| == |parts|
    ensures forall i | 0 <= i < |parts| :: r[i] == ToPolarSector(run, Some(parts[i]), total, max)
  {
    seq(|parts|, i requires 0 <= i < |parts| => ToPolarSector(run, Some(parts[i]), total, max))
  }

  /** The lines for `parts` and their answers, numbered from `first + 1`
      on, in order; the first exception among the answers leaves the
      call. */
  function Numbered(answers: seq<Result<string>>, parts: seq<Inf>, first: nat): (r: Result<seq<string>>)
    requires |answers| == |parts|
    ensures r.Ok? ==> |r.value| == |parts|
    decreases |parts|
  {
    if parts == [] then Ok([])
    else
      var answer :- answers[0];
      var rest :- Numbered(answers[1..], parts[1..], first + 1);
      Ok([Line(first + 1, parts[0], answer)] + rest)
  }

  /** The loop of the monolith overload: one line per singularity. */
  function Lines(run: Evaluator, parts: seq<Inf>, total: int, max: int, first: nat): (r: Result<seq<string>>)
    ensures r.Throw? ==> r.error == ArgumentOutOfRange
    ensures r.Ok? ==> |r.value| == |parts|
  {
    var answers := Answers(run, parts, total, max);
    forall i | 0 <= i < |parts| ensures answers[i].Throw? ==> answers[i].error == ArgumentOutOfRange {
      Classification(run, parts[i], total, max);
    }
    NumberedError(answers, parts, first, ArgumentOutOfRange);
    Numbered(answers, parts, first)
  }

  /** The error that leaves the loop is one an answer raised. */
  lemma {:induction false} NumberedError(answers: seq<Result<string>>, parts: seq<Inf>, first: nat, e: Exn)
    requires |answers| == |parts|
    requires forall i | 0 <= i < |answers| :: answers[i].Throw? ==> answers[i].error == e
    ensures Numbered(answers, parts, first).Throw? ==> Numbered(answers, parts, first).error == e
    decreases |parts|
  {
    if parts != [] {
      assert answers[0].Throw? ==> answers[0].error == e;
      forall i | 0 <= i < |answers[1..]|
        ensures answers[1..][i].Throw? ==> answers[1..][i].error == e
      {
        assert answers[1..][i] == answers[i + 1];
      }
      NumberedError(answers[1..], parts[1..], first + 1, e);
    }
  }

  /** The lines fail exactly when one singularity's answer does, and
      otherwise line i is the answer for singularity i, numbered
      first + i + 1. */
  lemma LinesInOrder(run: Evaluator, parts: seq<Inf>, total: int, max: int, first: nat)
    ensures var r := Lines(run, parts, total, max, first);
            && (r.Throw? <==> exists i | 0 <= i < |parts| :: ToPolarSector(run, Some(parts[i]), total, max).Throw?)
            && (r.Ok? ==> forall i | 0 <= i < |parts| ::
                  && ToPolarSector(run, Some(parts[i]), total, max).Ok?
                  && r.value[i] == Line(first + i + 1, parts[i], ToPolarSector(run, Some(parts[i]), total, max).value))
  {
    var answers := Answers(run, parts, total, max);
    NumberedFail(answers, parts, first);
    if Numbered(answers, parts, first).Ok? {
      forall i | 0 <= i < |parts|
        ensures answers[i].Ok? && Numbered(answers, parts, first).value[i] == Line(first + i + 1, parts[i], answers[i].value)
      {
        NumberedLine(answers, parts, first, i);
      }
    }
  }

  lemma {:induction false} NumberedFail(answers: seq<Result<string>>, parts: seq<Inf>, first: nat)
    requires |answers| == |parts|
    ensures Numbered(answers, parts, first).Throw? <==> exists i | 0 <= i < |answers| :: answers[i].Throw?
    decreases |parts|
  {
    if parts != [] {
      NumberedFail(answers[1..], parts[1..], first + 1);
      if answers[0].Ok? {
        forall i | 0 <= i < |answers[1..]|
          ensures answers[1..][i] == answers[i + 1]
        {
        }
        if exists i | 0 <= i < |answers| :: answers[i].Throw? {
          var i :| 0 <= i < |answers| && answers[i].Throw?;
          assert i > 0 && answers[i] == answers[1..][i - 1];
        }
      }
    }
  }

  /** Line i of a successful call is the line for singularity i. */
  lemma {:induction false} NumberedLine(answers: seq<Result<string>>, parts: seq<Inf>, first: nat, i: nat)
    requires |answers| == |parts| && Numbered(answers, parts, first).Ok? && i < |parts|
    ensures answers[i].Ok?
    ensures Numbered(answers, parts, first).value[i] == Line(first + i + 1, parts[i], answers[i].value)
    decreases i
  {
    var rest := Numbered(answers[1..], parts[1..], first + 1);
    var head := Line(first + 1, parts[0], answers[0].value);
    var all := Numbered(answers, parts, first).value;
    assert all == [head] + rest.value;
    if i > 0 {
      NumberedLine(answers[1..], parts[1..], first + 1, i - 1);
      ConsAt(head, rest.value, i);
      assert answers[1..][i - 1] == answers[i] && parts[1..][i - 1] == parts[i];
      assert (first + 1) + (i - 1) + 1 == first + i + 1;
      assert all[i] == rest.value[i - 1];
    } else {
      assert all[0] == head;
    }
  }

  lemma ConsAt(x: string, rest: seq<string>, i: int)
    requires 0 < i <= |rest|
    ensures ([x] + rest)[i] == rest[i - 1]
  {
  }

  /** `string.Join(separator, lines)`. */
  function Join(separator: string, lines: seq<string>): (r: string)
    ensures |lines| == 1 ==> r == lines[0]
    decreases |lines|
  {
    if lines == [] then ""
    else if |lines| == 1 then lines[0]
    else lines[0] + separator + Join(separator, lines[1..])
  }

  /** `ToPolarSector(monolith, totalSectors, maxDenominator)`; `None` is a
      null monolith or a null list of singularities. */
  function MonolithToPolarSector(run: Evaluator, singularities: Option<seq<Inf>>, total: int, max: int): (r: Result<string>)
    ensures singularities.None? || singularities.value == [] ==> r == Ok(NoSingularities)
    ensures r.Throw? ==> r.error == ArgumentOutOfRange
  {
    if singularities.None? || singularities.value == [] then Ok(NoSingularities)
    else
      var lines :- Lines(run, singularities.value, total, max, 0);
      Ok("Monolith — точные полярные сектора RICIS (из " + Text.IntText(total) + "):\n" + Join("\n", lines))
  }

  /** A monolith answers for each of its singularities, in order and
      numbered from 1, under a header naming the sector count; it throws
      only when one of them does, that is for a definite direction and
      fewer than one sector. */
  lemma MonolithAnswers(run: Evaluator, parts: seq<Inf>, total: int, max: int)
    requires parts != []
    ensures var r := MonolithToPolarSector(run, Some(parts), total, max);
            var lines := Lines(run, parts, total, max, 0);
            && (r.Throw? <==> total <= 0 && exists i | 0 <= i < |parts| :: Definite(run(parts[i].numerator, parts[i].variable, parts[i].point)))
            && (r.Ok? ==>
                  && |lines.value| == |parts|
                  && (forall i | 0 <= i < |parts| :: lines.value[i] == Line(i + 1, parts[i], ToPolarSector(run, Some(parts[i]), total, max).value))
                  && r.value == "Monolith — точные полярные сектора RICIS (из " + Text.IntText(total) + "):\n" + Join("\n", lines.value))
  {
    LinesInOrder(run, parts, total, max, 0);
    forall i | 0 <= i < |parts|
      ensures ToPolarSector(run, Some(parts[i]), total, max).Throw?
          <==> total <= 0 && Definite(run(parts[i].numerator, parts[i].variable, parts[i].point))
    {
      Classification(run, parts[i], total, max);
    }
  }

  /** A numerator with a value other than 0. */
  predicate Definite(o: Outcome) {
    o.Finite? && o.value != 0.0
  }

  /** A part of a turn is written starting with a number. */
  lemma TurnStartsWithNumber(s: CircleSectors.Sectors)
    ensures var t := CircleSectors.Describe(s);
            |t| > 0 && (t[0] == '-' || '0' <= t[0] <= '9')
  {
    var n := Text.IntText(s.fraction.num);
    if n[0] != '-' {
      assert n == Text.NatText(s.fraction.num);
      assert Text.AllDigits(n);
    }
    if s.fraction.num != 0 && s.fraction.den != 1 {
      assert ToString(s.fraction) == n + "/" + Text.IntText(s.fraction.den);
    }
  }

  /** π/2 is a quarter of a turn and 3π/2 three quarters. */
  lemma TurnOfDirection(w: real)
    ensures var twoPi := 2.0 * RealMath.Pi;
            var a := Direction(w);
            CircleSectors.FMod(CircleSectors.FMod(a, twoPi) + twoPi, twoPi) / twoPi == if w > 0.0 then 0.25 else 0.75
  {
  }

  /** With denominators up to at least 4 allowed, the search finds 1/4
      and 3/4 exactly. */
  lemma QuarterFound(max: int)
    requires max >= 4
    ensures CircleSectors.Best(0.25, max) == Rational(1, 4)
  {
    var s := CircleSectors.Start(0.25);
    assert s == CircleSectors.Search(0.25, 0, 1, 1, 0, 0, 1, 0.25);
    var t := CircleSectors.Step(0.25, s);
    assert t == CircleSectors.Search(0.0, 1, 4, 0, 1, 1, 4, 0.0);
    CircleSectors.RunGoesOn(0.25, max, s);
    CircleSectors.RunStopped(0.25, max, t);
  }

  lemma ThreeQuartersFound(max: int)
    requires max >= 4
    ensures CircleSectors.Best(0.75, max) == Rational(3, 4)
  {
    var s := CircleSectors.Start(0.75);
    assert s == CircleSectors.Search(0.75, 0, 1, 1, 0, 0, 1, 0.75);
    var t := CircleSectors.Step(0.75, s);
    assert t == CircleSectors.Search(1.0 / 3.0, 1, 1, 0, 1, 1, 1, 0.25);
    var u := CircleSectors.Step(0.75, t);
    assert u == CircleSectors.Search(0.0, 3, 4, 1, 1, 3, 4, 0.0);
    CircleSectors.RunGoesOn(0.75, max, s);
    CircleSectors.RunGoesOn(0.75, max, t);
    CircleSectors.RunStopped(0.75, max, u);
  }

  /** 1/4 and 3/4 are already reduced and already lie in [0, 1). */
  lemma QuartersKept()
    ensures CircleSectors.Make(Rational(1, 4)) == CircleSectors.Sectors(Rational(1, 4))
    ensures CircleSectors.Make(Rational(3, 4)) == CircleSectors.Sectors(Rational(3, 4))
  {
    assert Floor(Rational(1, 4)) == Rational(0, 1);
    assert Floor(Rational(3, 4)) == Rational(0, 1);
    assert Gcd(1, 4) == 1 && Gcd(3, 4) == 1;
    assert Sub(Rational(1, 4), Rational(0, 1)) == Normalize(1, 4) == Rational(1, 4);
    assert Sub(Rational(3, 4), Rational(0, 1)) == Normalize(3, 4) == Rational(3, 4);
  }

  /** A positive numerator points a quarter of a turn round, a negative
      one three quarters, once denominators up to 4 are allowed. */
  lemma DirectionSectors(w: real, max: int)
    requires max >= 4
    ensures CircleSectors.FromRadians(CircleSectors.Radians(Direction(w)), max)
         == Ok(CircleSectors.Sectors(if w > 0.0 then Rational(1, 4) else Rational(3, 4)))
  {
    TurnOfDirection(w);
    QuartersKept();
    var twoPi := 2.0 * RealMath.Pi;
    var turn := CircleSectors.FMod(CircleSectors.FMod(Direction(w), twoPi) + twoPi, twoPi) / twoPi;
    assert CircleSectors.FromRadians(CircleSectors.Radians(Direction(w)), max)
        == Ok(CircleSectors.Make(CircleSectors.Best(turn, max)));
    if w > 0.0 {
      QuarterFound(max);
    } else {
      ThreeQuartersFound(max);
    }
  }

  /** With the defaults (8 sectors, denominators up to 100) the answers
      for a definite numerator read in full: "r = ∞, θ = 1/4 полного круга
      → ровно 2 секторов из 8 (положительная ∞ (сверху))" above zero and
      the 3/4, 6-sector, downward one below. */
  lemma DefaultAnswers(w: real)
    requires w != 0.0
    ensures w > 0.0 ==>
              Directed(w, 8, 100) == Ok(Head + ("1/4" + " полного круга") + " → " + ("ровно " + "2" + " секторов из " + "8") + " (" + Upward + ")")
    ensures w < 0.0 ==>
              Directed(w, 8, 100) == Ok(Head + ("3/4" + " полного круга") + " → " + ("ровно " + "6" + " секторов из " + "8") + " (" + Downward + ")")
  {
    DirectionSectors(w, 100);
    var k, n := if w > 0.0 then 1 else 3, if w > 0.0 then 2 else 6;
    var sectors := CircleSectors.Sectors(Rational(k, 4));
    var sign := if w > 0.0 then Upward else Downward;
    assert Directed(w, 8, 100) == Ok(Head + CircleSectors.Describe(sectors) + " → " + CircleSectors.InSectors(sectors, 8).value + " (" + sign + ")");
    QuarterText(k, n);
    Digits();
  }

  lemma Digits()
    ensures [Text.Digit(1)] == "1" && [Text.Digit(2)] == "2" && [Text.Digit(3)] == "3" && [Text.Digit(6)] == "6"
    ensures "1" + "/4" == "1/4" && "3" + "/4" == "3/4"
  {
  }

  /** k/4 of a turn is 2k of 8 sectors, for k = 1 and k = 3. */
  lemma QuarterText(k: int, sectors: int)
    requires (k == 1 && sectors == 2) || (k == 3 && sectors == 6)
    ensures CircleSectors.Describe(CircleSectors.Sectors(Rational(k, 4))) == [Text.Digit(k)] + "/4" + " полного круга"
    ensures CircleSectors.InSectors(CircleSectors.Sectors(Rational(k, 4)), 8) == Ok("ровно " + [Text.Digit(sectors)] + " секторов из " + "8")
  {
    QuarterTurn(k);
    QuarterPassed(k, sectors);
    WholeSectors(CircleSectors.Sectors(Rational(k, 4)), sectors);
    assert Text.IntText(8) == "8";
    assert Text.IntText(sectors) == [Text.Digit(sectors)];
  }

  lemma QuarterTurn(k: int)
    requires k == 1 || k == 3
    ensures CircleSectors.Describe(CircleSectors.Sectors(Rational(k, 4))) == [Text.Digit(k)] + "/4" + " полного круга"
  {
    assert Text.IntText(k) == [Text.Digit(k)] && Text.IntText(4) == "4";
    assert ToString(Rational(k, 4)) == [Text.Digit(k)] + "/4";
  }

  lemma QuarterPassed(k: int, sectors: int)
    requires (k == 1 && sectors == 2) || (k == 3 && sectors == 6)
    ensures Mul(Rational(k, 4), FromInt(8)) == Rational(sectors, 1)
  {
    assert Mul(Rational(k, 4), FromInt(8)) == Normalize(8 * k, 4);
    if k == 1 {
      assert Gcd(8, 4) == 4;
    } else {
      assert Gcd(24, 4) == 4;
    }
  }

  /** A turn that passes a whole number k of the N sectors, 0 < k < N,
      says so. */
  lemma WholeSectors(s: CircleSectors.Sectors, k: int)
    requires 0 < k < 8 && Mul(s.fraction, FromInt(8)) == Rational(k, 1)
    ensures CircleSectors.InSectors(s, 8) == Ok("ровно " + Text.IntText(k) + " секторов из " + Text.IntText(8))
  {
    var passed := Rational(k, 1);
    assert Floor(passed) == passed;
    assert Sub(passed, passed) == Normalize(0, 1);
    assert !Eq(passed, FromInt(8));
  }
}
