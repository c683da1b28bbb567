/** `PolynomialZeroSolver.FindRoots`: the exact rational roots of a
    polynomial tree, found by testing every rational-root candidate with the
    exact evaluator. */
module PolynomialZeroSolver {
  import opened Wrappers
  import opened Expressions
  import opened Rationals
  import opened Ordering
  import opened PolynomialCoefficientCollector
  import ExactEvaluator
  import opened RationalRootTheorem
  import opened Roots

  /** `Coefficients.All(c => c.Value.IsZero)`. */
  predicate AllZero(coeffs: map<int, Rat>) {
    forall k | k in coeffs :: coeffs[k].num == 0
  }

  /** A candidate is confirmed when exact evaluation at it succeeds with
      result zero. */
  predicate Confirmed(expr: Expr, param: string, candidate: Rat) {
    var (ok, result) := ExactEvaluator.TryEvaluateSpec(expr, param, candidate);
    ok && result.num == 0
  }

  /** The roots the candidate loop collects, in candidate order. */
  function Confirm(expr: Expr, param: string, candidates: seq<Rat>): seq<Root> {
    if candidates == [] then []
    else
      var last := candidates[|candidates| - 1];
      Confirm(expr, param, candidates[..|candidates| - 1])
      + (if Confirmed(expr, param, last) then [FromRational(param, last)] else [])
  }

  /** `FindRoots`: collect the coefficients (which may throw), give up on a
      non-polynomial, empty, all-zero or constant map, otherwise test the
      rational-root candidates (which may throw on a map without degree 0). */
  function FindRootsSpec(expr: Expr, param: string): Result<seq<Root>>
    requires Plain(expr)
  {
    var collected :- Collect(param, expr);
    SolveCollected(expr, param, collected.0, collected.1)
  }

  /** What `FindRoots` does once the collector has run. */
  function SolveCollected(expr: Expr, param: string, isPolynomial: bool, coeffs: map<int, Rat>): Result<seq<Root>> {
    if !isPolynomial || coeffs == map[] || AllZero(coeffs) then Ok([])
    else if Maximum(coeffs.Keys) == 0 then Ok([])
    else
      var candidates :- PossibleRoots(coeffs);
      Ok(Confirm(expr, param, candidates))
  }

  // ---------------------------------------------------------------------
  // The candidate loop.
  // ---------------------------------------------------------------------

  /** Every collected root is an exact root of `param` at a confirmed
      candidate. */
  lemma {:induction false} ConfirmSound(expr: Expr, param: string, candidates: seq<Rat>)
    ensures forall k | 0 <= k < |Confirm(expr, param, candidates)| ::
              exists i | 0 <= i < |candidates| ::
                Confirm(expr, param, candidates)[k] == FromRational(param, candidates[i]) && Confirmed(expr, param, candidates[i])
  {
    if candidates != [] {
      var init := candidates[..|candidates| - 1];
      var last := candidates[|candidates| - 1];
      ConfirmSound(expr, param, init);
      assert Confirm(expr, param, candidates)
          == Confirm(expr, param, init) + (if Confirmed(expr, param, last) then [FromRational(param, last)] else []);
      forall k | 0 <= k < |Confirm(expr, param, candidates)|
        ensures exists i | 0 <= i < |candidates| ::
                  Confirm(expr, param, candidates)[k] == FromRational(param, candidates[i]) && Confirmed(expr, param, candidates[i])
      {
        if k < |Confirm(expr, param, init)| {
          var i :| 0 <= i < |init| && Confirm(expr, param, init)[k] == FromRational(param, init[i]) && Confirmed(expr, param, init[i]);
          assert init[i] == candidates[i];
          assert Confirm(expr, param, candidates)[k] == Confirm(expr, param, init)[k];
        } else {
          assert Confirm(expr, param, candidates)[k] == FromRational(param, candidates[|candidates| - 1]);
        }
      }
    } else {
      assert Confirm(expr, param, candidates) == [];
    }
  }

  /** Every confirmed candidate is collected. */
  lemma {:induction false} ConfirmComplete(expr: Expr, param: string, candidates: seq<Rat>, i: int)
    requires 0 <= i < |candidates| && Confirmed(expr, param, candidates[i])
    ensures FromRational(param, candidates[i]) in Confirm(expr, param, candidates)
    decreases |candidates|
  {
    var init := candidates[..|candidates| - 1];
    if i < |init| {
      assert init[i] == candidates[i];
      ConfirmComplete(expr, param, init, i);
    }
  }

  /** Candidates in ascending order give roots in ascending order. */
  lemma {:induction false} ConfirmAscending(expr: Expr, param: string, candidates: seq<Rat>)
    requires AscendingBy(candidates, DoubleOf)
    ensures forall k, l | 0 <= k < l < |Confirm(expr, param, candidates)| ::
              Confirm(expr, param, candidates)[k].doubleValue < Confirm(expr, param, candidates)[l].doubleValue
  {
    if candidates != [] {
      var init, last := candidates[..|candidates| - 1], candidates[|candidates| - 1];
      ConfirmAscending(expr, param, init);
      ConfirmSound(expr, param, init);
      var before := Confirm(expr, param, init);
      forall k | 0 <= k < |before|
        ensures before[k].doubleValue < DoubleOf(last)
      {
        var i :| 0 <= i < |init| && before[k] == FromRational(param, init[i]) && Confirmed(expr, param, init[i]);
        assert init[i] == candidates[i];
      }
    }
  }

  // ---------------------------------------------------------------------
  // What `FindRoots` promises.
  // ---------------------------------------------------------------------

  /** A confirmed candidate is an exact zero of the tree: the exact
      evaluator gives 0 there, and for a tree without method calls the tree
      denotes 0 at that point. */
  lemma ConfirmedIsZero(expr: Expr, param: string, c: Rat)
    requires Confirmed(expr, param, c)
    ensures ExactEvaluator.Eval(expr, param, c) == Some(Zero)
    ensures ExactEvaluator.NoCall(expr) && ExactEvaluator.InLongRange(expr) ==> Denote(expr, param, Rationals.ToDouble(c)).Some? && Denote(expr, param, Rationals.ToDouble(c)).value == 0.0
  {
    ZeroIsCanonical(ExactEvaluator.Eval(expr, param, c).value);
    if ExactEvaluator.NoCall(expr) && ExactEvaluator.InLongRange(expr) {
      ExactEvaluator.EvalSound(expr, param, c);
    }
  }

  /** A non-empty result is the confirmed candidates of a polynomial map
      that has a constant term. */
  lemma ResultShape(expr: Expr, param: string) returns (coeffs: map<int, Rat>)
    requires Plain(expr) && FindRootsSpec(expr, param).Ok? && FindRootsSpec(expr, param).value != []
    ensures Collect(param, expr) == Ok((true, coeffs)) && 0 in coeffs && PossibleRoots(coeffs).Ok?
    ensures FindRootsSpec(expr, param).value == Confirm(expr, param, PossibleRoots(coeffs).value)
  {
    coeffs := Collect(param, expr).value.1;
  }

  /** Every reported root belongs to `param`, carries its exact rational,
      and is an exact zero of the tree. */
  lemma RootsAreZeros(expr: Expr, param: string, r: Root)
    requires Plain(expr) && FindRootsSpec(expr, param).Ok? && r in FindRootsSpec(expr, param).value
    ensures r.parameter == param && r.rationalValue.Some?
    ensures r.doubleValue == Rationals.ToDouble(r.rationalValue.value)
    ensures ExactEvaluator.Eval(expr, param, r.rationalValue.value) == Some(Zero)
    ensures ExactEvaluator.NoCall(expr) && ExactEvaluator.InLongRange(expr) ==> Denote(expr, param, r.doubleValue).Some? && Denote(expr, param, r.doubleValue).value == 0.0
  {
    var coeffs := ResultShape(expr, param);
    var candidates := PossibleRoots(coeffs).value;
    var roots := Confirm(expr, param, candidates);
    ConfirmSound(expr, param, candidates);
    var k :| 0 <= k < |roots| && roots[k] == r;
    var i :| 0 <= i < |candidates| && r == FromRational(param, candidates[i]) && Confirmed(expr, param, candidates[i]);
    ConfirmedIsZero(expr, param, candidates[i]);
  }

  /** An exact root of `param` is collected exactly when its rational is a
      confirmed candidate. */
  lemma ConfirmMembers(expr: Expr, param: string, candidates: seq<Rat>, c: Rat)
    ensures FromRational(param, c) in Confirm(expr, param, candidates)
            <==> c in candidates && Confirmed(expr, param, c)
  {
    var roots := Confirm(expr, param, candidates);
    if FromRational(param, c) in roots {
      ConfirmSound(expr, param, candidates);
      var k :| 0 <= k < |roots| && roots[k] == FromRational(param, c);
      var i :| 0 <= i < |candidates| && roots[k] == FromRational(param, candidates[i]) && Confirmed(expr, param, candidates[i]);
    }
    if c in candidates && Confirmed(expr, param, c) {
      var i :| 0 <= i < |candidates| && candidates[i] == c;
      ConfirmComplete(expr, param, candidates, i);
    }
  }

  /** The roots are exactly the confirmed rational-root candidates: nothing
      outside the candidate list is ever reported. */
  lemma RootsAreConfirmedCandidates(expr: Expr, param: string, coeffs: map<int, Rat>, c: Rat)
    requires Plain(expr) && Collect(param, expr) == Ok((true, coeffs))
    requires FindRootsSpec(expr, param).Ok? && FindRootsSpec(expr, param).value != []
    ensures 0 in coeffs && PossibleRoots(coeffs).Ok?
    ensures FromRational(param, c) in FindRootsSpec(expr, param).value
            <==> c in PossibleRoots(coeffs).value && Confirmed(expr, param, c)
  {
    var shape := ResultShape(expr, param);
    assert shape == coeffs;
    ConfirmMembers(expr, param, PossibleRoots(coeffs).value, c);
  }

  /** Roots come in strictly ascending order of value, so no two are equal
      as roots. */
  lemma RootsAscending(expr: Expr, param: string)
    requires Plain(expr) && FindRootsSpec(expr, param).Ok?
    ensures forall k, l | 0 <= k < l < |FindRootsSpec(expr, param).value| ::
              FindRootsSpec(expr, param).value[k].doubleValue < FindRootsSpec(expr, param).value[l].doubleValue
              && !Roots.Equals(FindRootsSpec(expr, param).value[k], FindRootsSpec(expr, param).value[l])
  {
    var roots := FindRootsSpec(expr, param).value;
    if roots != [] {
      var (_, coeffs) := Collect(param, expr).value;
      CandidatesAscending(coeffs);
      ConfirmAscending(expr, param, PossibleRoots(coeffs).value);
    }
  }

  /** Non-polynomial, empty, all-zero and constant maps give no roots. */
  lemma NoRootsWithoutDegree(expr: Expr, param: string, isPolynomial: bool, coeffs: map<int, Rat>)
    requires Plain(expr) && Collect(param, expr) == Ok((isPolynomial, coeffs))
    requires !isPolynomial || coeffs == map[] || AllZero(coeffs) || coeffs.Keys == {0}
    ensures FindRootsSpec(expr, param) == Ok([])
  {
    if isPolynomial && coeffs != map[] && !AllZero(coeffs) {
      assert Maximum(coeffs.Keys) in {0};
    }
  }

  /** A polynomial map of positive degree without a degree-0 entry makes
      `GetPossibleRoots` throw. */
  lemma NoConstantTermThrows(expr: Expr, param: string, coeffs: map<int, Rat>)
    requires Plain(expr) && Collect(param, expr) == Ok((true, coeffs))
    requires coeffs != map[] && !AllZero(coeffs) && 0 !in coeffs
    ensures FindRootsSpec(expr, param) == Throw(KeyNotFound)
  {
    var m := Maximum(coeffs.Keys);
    assert m in coeffs;
  }

  /** So the bare parameter x, whose root is 0, makes `FindRoots` throw. */
  lemma BareParameterThrows(x: string)
    ensures FindRootsSpec(Param(x), x) == Throw(KeyNotFound)
  {
    XAlone(x);
    assert Collect(x, Param(x)) == Ok((true, map[1 := One]));
    NoConstantTermThrows(Param(x), x, map[1 := One]);
  }

  // ---------------------------------------------------------------------
  // The method.
  // ---------------------------------------------------------------------

  /** `FindRoots`: run the collector, check the guards, then test the
      candidates one by one, appending each confirmed one. */
  method FindRoots(expr: Expr, param: string) returns (roots: seq<Root>, thrown: Option<Exn>)
    requires Plain(expr)
    ensures FindRootsSpec(expr, param).Throw? <==> thrown.Some?
    ensures thrown.Some? ==> thrown.value == FindRootsSpec(expr, param).error
    ensures FindRootsSpec(expr, param).Ok? ==> roots == FindRootsSpec(expr, param).value
  {
    roots := [];
    ghost var spec := VisitSpec(param, expr, Initial);
    var collector := new Collector(param);
    thrown := collector.Visit(expr);
    if thrown.Some? {
      return;
    }
    assert spec.Ok? && collector.Snapshot() == spec.value;
    var coeffs := collector.coefficients;
    assert FindRootsSpec(expr, param) == SolveCollected(expr, param, collector.isPolynomial, coeffs);
    if !collector.isPolynomial || |coeffs| == 0 || AllZero(coeffs) {
      return;
    }
    var degree := Maximum(coeffs.Keys);
    if degree == 0 {
      return;
    }
    var possibleRationals := GetPossibleRoots(coeffs);
    if possibleRationals.Throw? {
      thrown := Some(possibleRationals.error);
      return;
    }
    roots := ConfirmCandidates(expr, param, possibleRationals.value);
  }

  /** The candidate loop of `FindRoots`: evaluate the tree exactly at each
      candidate and keep those where it is zero. */
  method ConfirmCandidates(expr: Expr, param: string, candidates: seq<Rat>) returns (roots: seq<Root>)
    ensures roots == Confirm(expr, param, candidates)
  {
    roots := [];
    var k := 0;
    while k < |candidates|
      invariant 0 <= k <= |candidates|
      invariant roots == Confirm(expr, param, candidates[..k])
    {
      var candidate := candidates[k];
      var ok, result := ExactEvaluator.TryEvaluate(expr, param, candidate);
      if ok && result.num == 0 {
        roots := roots + [FromRational(param, candidate)];
      }
      assert candidates[..k + 1][..k] == candidates[..k];
      k := k + 1;
    }
    assert candidates[..k] == candidates;
  }
}
