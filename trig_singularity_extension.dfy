/** ZeroSolver/TrigSingularityExtension.cs: the trigonometric poles of a
    denominator. A denominator that is a Cos call, or a quotient whose
    divisor is a Cos call, is handed to `TrigSolver`. The one-argument call
    `TrigSolver.Solve(call)` matches no declaration; this model passes the
    call's first parameter, or a name that occurs nowhere in it when it has
    none, which is how a null parameter behaves. */
module TrigSingularityExtension {
  import opened Wrappers
  import opened Expressions
  import opened ZeroSolverUtils
  import TrigSolver
  import RealMath

  /** A call to a method named Cos, of any class and arity. */
  predicate CosCall(e: Expr) {
    e.Call? && e.fn.name == "Cos"
  }

  /** `TrigSolver` on one Cos call: its root, if any, as a list. */
  function SolveCall(call: Expr): Result<seq<(string, real)>>
    requires Plain(call)
  {
    var root :- TrigSolver.Solve(call, KnownParameter(call));
    Ok(if root.Some? then [root.value] else [])
  }

  /** `SolveTrigRoots(denominator)`. */
  function SolveTrigRoots(den: Expr): Result<seq<(string, real)>>
    requires Plain(den)
  {
    var first :- if CosCall(den) then SolveCall(den) else Ok([]);
    var second :- if den.Bin? && den.op == Divide && CosCall(den.right) then SolveCall(den.right) else Ok([]);
    Ok(first + second)
  }

  /** A root of one call names a parameter that occurs in it: the first
      one. */
  lemma SolvedCallNamesItsParameter(call: Expr)
    requires Plain(call) && SolveCall(call).Ok?
    ensures |SolveCall(call).value| <= 1
    ensures |SolveCall(call).value| == 1 ==>
              Occurrences(call) != [] && SolveCall(call).value[0].0 == Occurrences(call)[0]
  {
    if |SolveCall(call).value| == 1 && Occurrences(call) == [] {
      TrigSolver.AbsentParameterNoRoot(call, "");
      assert false;
    }
    if |SolveCall(call).value| == 1 {
      TrigSolver.RootHitsZeroAngle(call, KnownParameter(call));
    }
  }

  /** The two shape tests exclude each other, so there is at most one root;
      it comes from the Cos call that is the denominator or its divisor,
      and names that call's first parameter. Any other denominator gives
      none. */
  lemma AtMostOneRoot(den: Expr)
    requires Plain(den) && SolveTrigRoots(den).Ok?
    ensures |SolveTrigRoots(den).value| <= 1
    ensures !CosCall(den) && !(den.Bin? && den.op == Divide && CosCall(den.right)) ==> SolveTrigRoots(den).value == []
    ensures CosCall(den) ==> SolveTrigRoots(den) == SolveCall(den)
    ensures den.Bin? && den.op == Divide && CosCall(den.right) ==> SolveTrigRoots(den) == SolveCall(den.right)
    ensures |SolveTrigRoots(den).value| == 1 ==>
              var call := if CosCall(den) then den else den.right;
              Occurrences(call) != [] && SolveTrigRoots(den).value[0].0 == Occurrences(call)[0]
  {
    if CosCall(den) {
      SolvedCallNamesItsParameter(den);
      assert SolveCall(den).value + [] == SolveCall(den).value;
    } else if den.Bin? && den.op == Divide && CosCall(den.right) {
      SolvedCallNamesItsParameter(den.right);
      assert [] + SolveCall(den.right).value == SolveCall(den.right).value;
    }
  }

  /** Worked cases: 1/cos(x) and cos(x) both give π/2 at x. */
  lemma CosineCases()
    ensures SolveTrigRoots(Bin(Divide, Double(1.0), Math("Cos", [Param("x")]))) == Ok([("x", RealMath.Pi / 2.0)])
    ensures SolveTrigRoots(Math("Cos", [Param("x")])) == Ok([("x", RealMath.Pi / 2.0)])
  {
    var cos := Math("Cos", [Param("x")]);
    TrigSolver.DirectCases();
    assert Occurrences(cos) == ["x"];
    assert KnownParameter(cos) == "x";
    assert Plain(Bin(Divide, Double(1.0), cos));
    assert SolveCall(cos) == Ok([("x", RealMath.Pi / 2.0)]);
    assert [] + [("x", RealMath.Pi / 2.0)] == [("x", RealMath.Pi / 2.0)];
    assert [("x", RealMath.Pi / 2.0)] + [] == [("x", RealMath.Pi / 2.0)];
  }

  /** A Sin denominator has zeros too, but it is not looked at. */
  lemma SineIgnored()
    ensures SolveTrigRoots(Math("Sin", [Param("x")])) == Ok([])
  {
    assert Plain(Math("Sin", [Param("x")]));
    var none: seq<(string, real)> := [];
    assert none + none == none;
  }
}
