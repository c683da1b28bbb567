/** TrigSolver.cs: the principal zero of sin(k·x + b) or cos(k·x + b), and
    the pole π/2 of tan(x). The argument is read as k·x + b by
    `LinearExtractor`; the root is the first angle where the function
    vanishes: k·x + b = 0 for Sin and k·x + b = π/2 for Cos. */
module TrigSolver {
  import opened Wrappers
  import opened Expressions
  import opened RealMath
  import opened LinearExtractor

  /** The cut-off 1e-12 below which k counts as zero. */
  const Flat: real := 0.000000000001

  /** A single-argument `System.Math` Sin or Cos call. */
  predicate SinOrCos(t: Expr) {
    t.Call? && t.fn.isMath && (t.fn.name == "Sin" || t.fn.name == "Cos") && |t.args| == 1
  }

  /** A single-argument call named Tan (of any declaring class) applied
      directly to the target parameter. */
  predicate TanOfParameter(t: Expr, x: string) {
    t.Call? && t.fn.name == "Tan" && |t.args| == 1 && t.args[0] == Param(x)
  }

  /** The (k, b) read from the argument: the extractor's pair; failing that,
      a constant times the parameter gives (constant, 0); failing that, the
      bare parameter gives (1, 0); anything else gives none. */
  function Coefficients(arg: Expr, x: string): Result<Option<Linear>>
    requires Plain(arg)
  {
    var linear :- Extraction(arg, x);
    if linear.Some? then Ok(linear)
    else if arg.Bin? && arg.op == Multiply && arg.left.Const? && arg.right == Param(x) then
      var k :- ToDouble(arg.left.value);
      Ok(Some(Linear(k, 0.0)))
    else if arg != Param(x) then Ok(None)
    else Ok(Some(Linear(1.0, 0.0)))
  }

  /** The angle at which the named function first vanishes. */
  function ZeroAngle(name: string): real {
    if name == "Cos" then Pi / 2.0 else 0.0
  }

  /** `TrigSolver.Solve(trigExpression, knownParam)`. */
  function Solve(t: Expr, x: string): Result<Option<(string, real)>>
    requires Plain(t)
  {
    if SinOrCos(t) then
      assert t.args[0] in t.args;
      var line :- Coefficients(t.args[0], x);
      if line.None? || Abs(line.value.multiplier) < Flat then Ok(None)
      else Ok(Some((x, (ZeroAngle(t.fn.name) - line.value.offset) / line.value.multiplier)))
    else if TanOfParameter(t, x) then Ok(Some((x, Pi / 2.0)))
    else Ok(None)
  }

  /** The argument at a reported root: k·root + b is the function's zero
      angle (π/2 for Cos, 0 for Sin), and a Tan root is π/2. */
  lemma RootHitsZeroAngle(t: Expr, x: string)
    requires Plain(t) && Solve(t, x).Ok? && Solve(t, x).value.Some?
    ensures Solve(t, x).value.value.0 == x
    ensures SinOrCos(t) ==>
              assert t.args[0] in t.args;
              var line := Coefficients(t.args[0], x).value.value;
              line.multiplier * Solve(t, x).value.value.1 + line.offset == ZeroAngle(t.fn.name)
    ensures !SinOrCos(t) ==> TanOfParameter(t, x) && Solve(t, x).value.value.1 == Pi / 2.0
  {
    if SinOrCos(t) {
      assert t.args[0] in t.args;
      var line := Coefficients(t.args[0], x).value.value;
      var root := (ZeroAngle(t.fn.name) - line.offset) / line.multiplier;
      assert line.multiplier != 0.0;
      assert Solve(t, x).value.value.1 == root;
      assert line.multiplier * root == ZeroAngle(t.fn.name) - line.offset;
    }
  }

  /** The argument k·x + b itself, read exactly: on a sum or difference of
      the parameter and constants the reported root makes the argument
      denote the zero angle. */
  lemma SumArgumentVanishes(name: string, op: BinOp, l: Expr, r: Expr, x: string)
    requires name == "Sin" || name == "Cos"
    requires op == Add || op == Subtract
    requires Atom(l, x) && Atom(r, x)
    requires Plain(Math(name, [Bin(op, l, r)]))
    requires Solve(Math(name, [Bin(op, l, r)]), x).Ok? && Solve(Math(name, [Bin(op, l, r)]), x).value.Some?
    ensures Denote(Bin(op, l, r), x, Solve(Math(name, [Bin(op, l, r)]), x).value.value.1).Some?
    ensures Denote(Bin(op, l, r), x, Solve(Math(name, [Bin(op, l, r)]), x).value.value.1).value == ZeroAngle(name)
  {
    var t := Math(name, [Bin(op, l, r)]);
    var root := Solve(t, x).value.value.1;
    assert SinOrCos(t);
    RootHitsZeroAngle(t, x);
    SumMeaning(op, l, r, x, root);
    assert Coefficients(Bin(op, l, r), x) == Extraction(Bin(op, l, r), x);
  }

  /** The fallback for a constant times the parameter is never reached:
      the extractor already reads that shape, or throws. */
  lemma ProductFallbackUnreached(c: Value, x: string)
    ensures Coefficients(Bin(Multiply, Const(c), Param(x)), x) == Extraction(Bin(Multiply, Const(c), Param(x)), x)
  {
    var arg := Bin(Multiply, Const(c), Param(x));
    assert Plain(Const(c)) && Plain(Param(x));
    assert Plain(arg);
    assert Walk(arg, x, None) == WalkBinary(Multiply, Const(c), Param(x), x, None);
  }

  /** A call without the target parameter has no root: the extractor's
      multiplier stays 0, and neither the fallback nor the Tan case can
      match. So passing a null parameter, which matches no node, yields no
      root either. */
  lemma AbsentParameterNoRoot(t: Expr, x: string)
    requires Plain(t) && x !in Occurrences(t)
    ensures Solve(t, x).Ok? ==> Solve(t, x).value.None?
  {
    if SinOrCos(t) {
      var arg := t.args[0];
      assert arg in t.args;
      assert Occurrences(t) == OccurrencesList(t.args) == Occurrences(arg) + OccurrencesList(t.args[1..]);
      AbsentParameterFlat(arg, x, None);
    }
  }

  /** Worked cases: cos(x) and tan(x) give π/2, sin(x − 1) gives 1. */
  lemma DirectCases()
    ensures Solve(Math("Cos", [Param("x")]), "x") == Ok(Some(("x", Pi / 2.0)))
    ensures Solve(Math("Sin", [Bin(Subtract, Param("x"), Double(1.0))]), "x") == Ok(Some(("x", 1.0)))
    ensures Solve(Math("Tan", [Param("x")]), "x") == Ok(Some(("x", Pi / 2.0)))
  {
    assert Plain(Math("Cos", [Param("x")]));
    NoBinaryGivesNull(Param("x"), "x");
    var diff := Bin(Subtract, Param("x"), Double(1.0));
    assert Plain(diff);
    assert Plain(Math("Sin", [diff]));
    assert Walk(diff, "x", None) == WalkBinary(Subtract, Param("x"), Double(1.0), "x", None);
    assert Extraction(diff, "x") == Ok(Some(Linear(1.0, -1.0)));
    assert Plain(Math("Tan", [Param("x")]));
  }

  /** sin(2·x + 3) gives null: the product is not a direct operand of the
      sum, so k reads 0. */
  lemma NestedProductGivesNull()
    ensures Solve(Math("Sin", [Bin(Add, Bin(Multiply, Double(2.0), Param("x")), Double(3.0))]), "x") == Ok(None)
  {
    var affine := Bin(Add, Bin(Multiply, Double(2.0), Param("x")), Double(3.0));
    assert Plain(Bin(Multiply, Double(2.0), Param("x")));
    assert Plain(affine);
    assert Plain(Math("Sin", [affine]));
    assert Walk(affine, "x", None) == WalkBinary(Add, Bin(Multiply, Double(2.0), Param("x")), Double(3.0), "x", None);
    assert Extraction(affine, "x") == Ok(Some(Linear(0.0, 3.0)));
  }

  /** sin(exp(x)) gives null: the argument is neither linear nor the
      parameter. */
  lemma NonLinearGivesNull()
    ensures Solve(Math("Sin", [Math("Exp", [Param("x")])]), "x") == Ok(None)
  {
    var exp := Math("Exp", [Param("x")]);
    assert Plain(exp);
    assert Plain(Math("Sin", [exp]));
    assert NoBinary(exp);
    NoBinaryGivesNull(exp, "x");
  }
}
