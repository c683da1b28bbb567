/** ZeroSolver/UniversalZeroSolver.cs together with the solving half of
    ZeroSolver/ExponentialZeroSolver.cs, which call each other. The cascade
    tries the exact polynomial solver first and returns its roots alone when
    there are any; otherwise it concatenates the trigonometric roots and the
    exponential roots, in that order. `Distinct()` removes equal roots. The
    exponential solver solves the inner equation g = 0 of exp(g) − 1 = 0
    with the cascade again; g is a strict part of the tree, so the recursion
    ends. The log solver is not part of the cascade. */
module UniversalZeroSolver {
  import opened Wrappers
  import opened Expressions
  import opened Rationals
  import opened Roots
  import PolynomialZeroSolver
  import PolynomialCoefficientCollector
  import TrigonometricZeroSolver
  import ExponentialZeroSolver
  import ExactEvaluator
  import ZeroSolverUtils

  /** Some element of `s` equals `r` as a root. */
  predicate Listed(s: seq<Root>, r: Root) {
    exists i | 0 <= i < |s| :: Roots.Equals(s[i], r)
  }

  /** No two elements of `s` are equal as roots. */
  predicate NoTwoEqual(s: seq<Root>) {
    forall i, j | 0 <= i < j < |s| :: !Roots.Equals(s[i], s[j])
  }

  /** `Enumerable.Distinct` under `Root.Equals`: the first root of each
      class of equal roots, in the original order. */
  function Distinct(s: seq<Root>): seq<Root>
    decreases |s|
  {
    if s == [] then []
    else
      var kept := Distinct(s[..|s| - 1]);
      if Listed(kept, s[|s| - 1]) then kept else kept + [s[|s| - 1]]
  }

  /** `Distinct` keeps one root of every class and nothing else: no two
      kept roots are equal, every kept root comes from `s`, and every root
      of `s` has an equal kept root. */
  lemma {:induction false} DistinctMeaning(s: seq<Root>)
    ensures NoTwoEqual(Distinct(s))
    ensures forall r | r in Distinct(s) :: r in s
    ensures forall r | r in s :: Listed(Distinct(s), r)
    decreases |s|
  {
    if s != [] {
      var init := s[..|s| - 1];
      var last := s[|s| - 1];
      DistinctMeaning(init);
      var kept := Distinct(init);
      forall r | r in s
        ensures Listed(Distinct(s), r)
      {
        if r == last {
          if !Listed(kept, last) {
            assert Distinct(s)[|kept|] == last;
          }
        } else {
          assert r in init;
          var i :| 0 <= i < |kept| && Roots.Equals(kept[i], r);
          assert Distinct(s)[i] == kept[i];
        }
      }
    }
  }

  /** On a list without equal roots `Distinct` changes nothing. */
  lemma {:induction false} DistinctOfDistinct(s: seq<Root>)
    requires NoTwoEqual(s)
    ensures Distinct(s) == s
    decreases |s|
  {
    if s != [] {
      var init := s[..|s| - 1];
      assert NoTwoEqual(init);
      DistinctOfDistinct(init);
      assert init + [s[|s| - 1]] == s;
    }
  }

  /** The first root of a list is always kept, in first place. */
  lemma {:induction false} DistinctKeepsHead(s: seq<Root>)
    requires s != []
    ensures Distinct(s) != [] && Distinct(s)[0] == s[0]
    decreases |s|
  {
    if |s| > 1 {
      DistinctKeepsHead(s[..|s| - 1]);
      assert s[..|s| - 1][0] == s[0];
    } else {
      assert s[..0] == [];
    }
  }

  /** `FindExactRoots(expr, param)`. */
  function FindExactRoots(e: Expr, x: string): Result<seq<Root>>
    requires Plain(e)
    decreases Size(e), 1
  {
    var poly :- PolynomialZeroSolver.FindRootsSpec(e, x);
    if |poly| > 0 then Ok(Distinct(poly))
    else
      var trig :- TrigonometricZeroSolver.FindRoots(e, x);
      var exp :- ExponentialFindRoots(e, x);
      Ok(Distinct(trig + exp))
  }

  /** `ExponentialZeroSolver.FindRoots(expr, parameter)`: nothing without an
      inner equation, otherwise the cascade's roots of it, in order. */
  function ExponentialFindRoots(e: Expr, x: string): Result<seq<Root>>
    requires Plain(e)
    decreases Size(e), 0
  {
    var inner := ExponentialZeroSolver.Inner(e);
    if inner.None? then Ok([]) else FindExactRoots(inner.value, x)
  }

  /** `ExponentialZeroSolver.Solve(expr)`: the shared adapter around
      `FindRoots`. */
  function ExponentialSolve(e: Expr): Result<Option<(string, real)>>
    requires Plain(e)
  {
    ZeroSolverUtils.FindFirstRootFromFindRoots((g, p) requires Plain(g) => ExponentialFindRoots(g, p), e)
  }

  /** No two roots of the cascade are equal. */
  lemma ResultDistinct(e: Expr, x: string)
    requires Plain(e) && FindExactRoots(e, x).Ok?
    ensures NoTwoEqual(FindExactRoots(e, x).value)
  {
    var poly := PolynomialZeroSolver.FindRootsSpec(e, x).value;
    if |poly| > 0 {
      DistinctMeaning(poly);
    } else {
      DistinctMeaning(TrigonometricZeroSolver.FindRoots(e, x).value + ExponentialFindRoots(e, x).value);
    }
  }

  /** A non-empty polynomial result is the answer, exactly as the
      polynomial solver gave it (its roots are already distinct), and the
      other solvers are not consulted. */
  lemma PolynomialRootsAlone(e: Expr, x: string)
    requires Plain(e) && PolynomialZeroSolver.FindRootsSpec(e, x).Ok?
    requires PolynomialZeroSolver.FindRootsSpec(e, x).value != []
    ensures FindExactRoots(e, x) == PolynomialZeroSolver.FindRootsSpec(e, x)
  {
    var poly := PolynomialZeroSolver.FindRootsSpec(e, x).value;
    PolynomialZeroSolver.RootsAscending(e, x);
    DistinctOfDistinct(poly);
  }

  /** Without polynomial roots the answer is the trigonometric roots, then
      the exponential ones: every reported root comes from one of them,
      each of theirs has an equal reported root, and a trigonometric root
      comes first. */
  lemma CascadeOrder(e: Expr, x: string)
    requires Plain(e) && PolynomialZeroSolver.FindRootsSpec(e, x) == Ok([])
    requires TrigonometricZeroSolver.FindRoots(e, x).Ok? && ExponentialFindRoots(e, x).Ok?
    ensures FindExactRoots(e, x).Ok?
    ensures forall r | r in FindExactRoots(e, x).value ::
              r in TrigonometricZeroSolver.FindRoots(e, x).value || r in ExponentialFindRoots(e, x).value
    ensures forall r | r in TrigonometricZeroSolver.FindRoots(e, x).value + ExponentialFindRoots(e, x).value ::
              Listed(FindExactRoots(e, x).value, r)
    ensures TrigonometricZeroSolver.FindRoots(e, x).value != [] ==>
              FindExactRoots(e, x).value != []
              && FindExactRoots(e, x).value[0] == TrigonometricZeroSolver.FindRoots(e, x).value[0]
  {
    var both := TrigonometricZeroSolver.FindRoots(e, x).value + ExponentialFindRoots(e, x).value;
    assert FindExactRoots(e, x) == Ok(Distinct(both));
    DistinctMeaning(both);
    if TrigonometricZeroSolver.FindRoots(e, x).value != [] {
      DistinctKeepsHead(both);
    }
  }

  /** When the difference exp(g) − 1 has a polynomial g with roots, the
      exponential solver reports exactly g's polynomial roots, and each is
      an exact zero of g, hence of exp(g) − 1. */
  lemma ExponentialRootsSolveInner(e: Expr, g: Expr, x: string)
    requires Plain(e) && ExponentialZeroSolver.ExpMinusOne(e) == Some(g)
    requires PolynomialZeroSolver.FindRootsSpec(g, x).Ok? && PolynomialZeroSolver.FindRootsSpec(g, x).value != []
    ensures ExponentialFindRoots(e, x) == PolynomialZeroSolver.FindRootsSpec(g, x)
    ensures forall r | r in ExponentialFindRoots(e, x).value ::
              r.parameter == x && r.rationalValue.Some?
              && ExactEvaluator.Eval(g, x, r.rationalValue.value) == Some(Zero)
  {
    assert ExponentialZeroSolver.Inner(e) == Some(g);
    PolynomialRootsAlone(g, x);
    forall r | r in ExponentialFindRoots(e, x).value
      ensures r.parameter == x && r.rationalValue.Some?
              && ExactEvaluator.Eval(g, x, r.rationalValue.value) == Some(Zero)
    {
      PolynomialZeroSolver.RootsAreZeros(g, x, r);
    }
  }

  /** exp(x) − 1 vanishes at x = 0, but the cascade throws on it: the
      polynomial and trigonometric solvers find nothing, and the inner
      equation x = 0 makes the polynomial solver look up a constant term
      the map does not have. */
  lemma ExpOfParameterMinusOneThrows(x: string)
    ensures Plain(Math("Exp", [Param(x)])) && Plain(Bin(Subtract, Math("Exp", [Param(x)]), Const(Int32V(1))))
    ensures FindExactRoots(Bin(Subtract, Math("Exp", [Param(x)]), Const(Int32V(1))), x) == Throw(KeyNotFound)
  {
    var e := Bin(Subtract, Math("Exp", [Param(x)]), Const(Int32V(1)));
    assert Plain(Math("Exp", [Param(x)]));
    assert Plain(e);
    NoPolynomialRoots(x);
    assert TrigonometricZeroSolver.FindRoots(e, x) == Ok([]);
    assert ExponentialZeroSolver.Inner(e) == Some(Param(x));
    PolynomialZeroSolver.BareParameterThrows(x);
    assert FindExactRoots(Param(x), x) == Throw(KeyNotFound);
    assert ExponentialFindRoots(e, x) == Throw(KeyNotFound);
  }

  /** The collector reads exp(x) − 1 as a polynomial with an empty map: the
      call clears the flag, the constant sets it again, and the difference
      keeps the left operand's empty map. */
  lemma NoPolynomialRoots(x: string)
    ensures Plain(Math("Exp", [Param(x)])) && Plain(Bin(Subtract, Math("Exp", [Param(x)]), Const(Int32V(1))))
    ensures PolynomialZeroSolver.FindRootsSpec(Bin(Subtract, Math("Exp", [Param(x)]), Const(Int32V(1))), x) == Ok([])
  {
    var call := Math("Exp", [Param(x)]);
    var e := Bin(Subtract, call, Const(Int32V(1)));
    assert Plain(call);
    assert Plain(e);
    PolynomialCoefficientCollector.NotPolynomialShapes(x, x + "'", Method(true, "Exp"), [Param(x)], 0.5);
    var s0 := PolynomialCoefficientCollector.Initial;
    assert s0.(poly := true, coeffs := map[]) == s0;
    assert PolynomialCoefficientCollector.VisitSpec(x, call, s0) == Ok(s0.(poly := false));
    var right := PolynomialCoefficientCollector.VisitSpec(x, Const(Int32V(1)),
                   PolynomialCoefficientCollector.State(s0.power, s0.mult, false, s0.coeffs));
    assert right.Ok? && right.value.poly;
    assert PolynomialCoefficientCollector.Dispatch(x, e, s0).Ok?;
    assert PolynomialCoefficientCollector.Dispatch(x, e, s0).value.poly;
    assert PolynomialCoefficientCollector.Dispatch(x, e, s0).value.coeffs == map[];
    assert PolynomialCoefficientCollector.Collect(x, e) == Ok((true, map[]));
  }
}
