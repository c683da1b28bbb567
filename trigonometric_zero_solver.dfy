/** ZeroSolver/TrigonometricZeroSolver.cs: the principal zero of a
    single-argument `System.Math` call whose argument `LinearExtractor`
    reads as k·x + b. The root is where k·x + b reaches the function's base
    angle: π for Sin, π/2 for Cos and π for Tan. */
module TrigonometricZeroSolver {
  import opened Wrappers
  import opened Expressions
  import opened RealMath
  import opened LinearExtractor
  import opened Roots
  import TrigSolver

  /** The base angle of the `switch`: 0 + π for Sin, π/2 for Cos, π for Tan,
      and NaN (none) for any other function. */
  function BaseAngle(name: string): Option<real> {
    if name == "Sin" then Some(0.0 + Pi)
    else if name == "Cos" then Some(Pi / 2.0)
    else if name == "Tan" then Some(Pi)
    else None
  }

  /** A single-argument `System.Math` call. */
  predicate MathCall(e: Expr) {
    e.Call? && e.fn.isMath && |e.args| == 1
  }

  /** `FindRoots(expr, param)`: at most the single root (base − offset) /
      multiplier, kept only when |multiplier| > 1e-10. */
  function FindRoots(e: Expr, x: string): Result<seq<Root>>
    requires Plain(e)
  {
    if MathCall(e) then
      assert e.args[0] in e.args;
      var linear :- Extraction(e.args[0], x);
      var base := BaseAngle(e.fn.name);
      if linear.None? || base.None? then Ok([])
      else if Abs(linear.value.multiplier) > Tolerance then
        Ok([FromDouble(x, (base.value - linear.value.offset) / linear.value.multiplier)])
      else Ok([])
    else Ok([])
  }

  /** At most one root; it belongs to `x`, and the extracted line reaches
      the base angle there: multiplier·root + offset = base. */
  lemma RootAtBaseAngle(e: Expr, x: string)
    requires Plain(e) && FindRoots(e, x).Ok?
    ensures |FindRoots(e, x).value| <= 1
    ensures |FindRoots(e, x).value| == 1 ==>
              MathCall(e) && BaseAngle(e.fn.name).Some?
              && (assert e.args[0] in e.args; Extraction(e.args[0], x).Ok? && Extraction(e.args[0], x).value.Some?)
              && var line := Extraction(e.args[0], x).value.value;
                 var root := FindRoots(e, x).value[0];
                 root.parameter == x && root.rationalValue.None?
                 && Abs(line.multiplier) > Tolerance
                 && line.multiplier * root.doubleValue + line.offset == BaseAngle(e.fn.name).value
  {
    if |FindRoots(e, x).value| == 1 {
      assert e.args[0] in e.args;
      var line := Extraction(e.args[0], x).value.value;
      var base := BaseAngle(e.fn.name).value;
      var root := (base - line.offset) / line.multiplier;
      assert FindRoots(e, x).value[0].doubleValue == root;
      assert line.multiplier * root == base - line.offset;
    }
  }

  /** On a sum or difference of the parameter and constants, the argument
      denotes the base angle at the reported root. */
  lemma SumArgumentAtBase(name: string, op: BinOp, l: Expr, r: Expr, x: string)
    requires BaseAngle(name).Some?
    requires op == Add || op == Subtract
    requires Atom(l, x) && Atom(r, x)
    requires Plain(Math(name, [Bin(op, l, r)]))
    requires FindRoots(Math(name, [Bin(op, l, r)]), x).Ok? && |FindRoots(Math(name, [Bin(op, l, r)]), x).value| == 1
    ensures Denote(Bin(op, l, r), x, FindRoots(Math(name, [Bin(op, l, r)]), x).value[0].doubleValue).Some?
    ensures Denote(Bin(op, l, r), x, FindRoots(Math(name, [Bin(op, l, r)]), x).value[0].doubleValue).value
            == BaseAngle(name).value
  {
    var e := Math(name, [Bin(op, l, r)]);
    RootAtBaseAngle(e, x);
    SumMeaning(op, l, r, x, FindRoots(e, x).value[0].doubleValue);
  }

  /** A bare-parameter argument gives no root: the extractor returns null
      on it, and there is no fallback here. */
  lemma BareParameterNoRoot(name: string, x: string)
    ensures FindRoots(Math(name, [Param(x)]), x) == Ok([])
  {
    assert Plain(Math(name, [Param(x)]));
    NoBinaryGivesNull(Param(x), x);
  }

  /** The two solvers disagree on Sin: for sin(x − 1) `TrigSolver` reports
      the zero at x = 1, while this solver reports x = π + 1, the next zero,
      because its base angle for Sin is π rather than 0. */
  lemma SineBaseAngles()
    ensures TrigSolver.Solve(Math("Sin", [Bin(Subtract, Param("x"), Double(1.0))]), "x") == Ok(Some(("x", 1.0)))
    ensures FindRoots(Math("Sin", [Bin(Subtract, Param("x"), Double(1.0))]), "x") == Ok([FromDouble("x", Pi + 1.0)])
  {
    TrigSolver.DirectCases();
    var diff := Bin(Subtract, Param("x"), Double(1.0));
    assert Plain(diff);
    assert Plain(Math("Sin", [diff]));
    assert Walk(diff, "x", None) == WalkBinary(Subtract, Param("x"), Double(1.0), "x", None);
    assert Extraction(diff, "x") == Ok(Some(Linear(1.0, -1.0)));
  }
}
