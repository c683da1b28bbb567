/** Simplifiers/ExpressionSimplifier.cs, class `RicisTransformPhase`: phase
    2 of the pipeline. Every division is replaced by what its denominator's
    zeros make of it: no zero keeps the division, one zero gives an indexed
    infinity, several give a monolith of them. The candidate zeros are the
    roots of the global `SingularitySolver` (the unqualified name resolves
    to the class in the global namespace), then the root of `TrigSolver`.
    The one-argument `TrigSolver.Solve(denominator)` matches no declaration;
    this model passes the denominator's first parameter. */
module RicisTransformPhase {
  import opened Wrappers
  import opened Expressions
  import opened Evaluation
  import SingularitySolver
  import TrigSolver
  import ZeroSolverUtils

  /** `EvaluateAtPoint` of this class: an exception gives 1.0, while NaN
      and the infinities are returned as they are (None). */
  function EvaluateAtPoint(run: Evaluator, e: Expr, x: string, v: real): (r: Option<real>)
    ensures r == Some(0.0) <==> run(e, x, v) == Finite(0.0)
    ensures r.None? <==> run(e, x, v) == NonFinite
    ensures run(e, x, v) == Raised ==> r == Some(1.0)
  {
    match run(e, x, v)
    case Finite(w) => Some(w)
    case NonFinite => None
    case Raised => Some(1.0)
  }

  /** The candidate zeros of a denominator: the global solver's roots in
      its order, then at most one root of `TrigSolver`; nothing removes a
      root that both report. */
  function Candidates(den: Expr, sqrt: real -> real): Result<seq<(string, real)>>
    requires Plain(den)
  {
    var poly :- SingularitySolver.SolveRootSpec(den, sqrt);
    var trig :- TrigSolver.Solve(den, ZeroSolverUtils.KnownParameter(den));
    Ok(poly + if trig.Some? then [trig.value] else [])
  }

  /** `AddSingularityIfValid`: the infinity recorded at one zero. A
      numerator that evaluates to exactly 0.0 there (a 0/0 form) is indexed
      by the whole quotient; otherwise by the numerator alone. */
  function Classify(run: Evaluator, num: Expr, den: Expr, root: (string, real)): (i: Inf)
    ensures i.variable == root.0 && i.point == root.1
    ensures run(num, root.0, root.1) == Finite(0.0) ==> i.numerator == Bin(Divide, num, den)
    ensures run(num, root.0, root.1) != Finite(0.0) ==> i.numerator == num
  {
    if EvaluateAtPoint(run, num, root.0, root.1) == Some(0.0) then Inf(Bin(Divide, num, den), root.0, root.1)
    else Inf(num, root.0, root.1)
  }

  /** The list the `foreach` loops fill: one infinity per candidate, in
      candidate order. */
  function Singularities(run: Evaluator, num: Expr, den: Expr, roots: seq<(string, real)>): (s: seq<Inf>)
    ensures |s| == |roots|
    ensures forall i | 0 <= i < |roots| :: s[i] == Classify(run, num, den, roots[i])
  {
    seq(|roots|, i requires 0 <= i < |roots| => Classify(run, num, den, roots[i]))
  }

  /** The value `SimplifyDivision` returns for a list of singularities:
      the division, the one infinity, or a monolith of this namespace
      (`InfinityExpression.NewMonolith`). */
  function Assemble(num: Expr, den: Expr, s: seq<Inf>): Expr {
    if |s| == 0 then Bin(Divide, num, den)
    else if |s| == 1 then Infinity(s[0])
    else Monolith(Scoped, s)
  }

  function SimplifyDivisionSpec(run: Evaluator, num: Expr, den: Expr, sqrt: real -> real): Result<Expr>
    requires Plain(num) && Plain(den)
  {
    var roots :- Candidates(den, sqrt);
    Ok(Assemble(num, den, Singularities(run, num, den, roots)))
  }

  /** The `foreach` over the polynomial roots, each appended through
      `AddSingularityIfValid`. */
  method ClassifyAll(run: Evaluator, num: Expr, den: Expr, roots: seq<(string, real)>) returns (singularities: seq<Inf>)
    ensures singularities == Singularities(run, num, den, roots)
  {
    singularities := [];
    var i := 0;
    while i < |roots|
      invariant 0 <= i <= |roots|
      invariant singularities == Singularities(run, num, den, roots[..i])
    {
      var next := Classify(run, num, den, roots[i]);
      assert Singularities(run, num, den, roots[..i + 1]) == Singularities(run, num, den, roots[..i]) + [next];
      singularities := singularities + [next];
      i := i + 1;
    }
    assert roots[..i] == roots;
  }

  /** `SimplifyDivision(numerator, denominator)`: the polynomial roots,
      then the trigonometric root, each appended to `singularities`. */
  method SimplifyDivision(run: Evaluator, num: Expr, den: Expr, sqrt: real -> real) returns (result: Expr, thrown: Option<Exn>)
    requires Plain(num) && Plain(den)
    ensures SimplifyDivisionSpec(run, num, den, sqrt).Throw? <==> thrown.Some?
    ensures thrown.Some? ==> thrown.value == SimplifyDivisionSpec(run, num, den, sqrt).error
    ensures SimplifyDivisionSpec(run, num, den, sqrt).Ok? ==> result == SimplifyDivisionSpec(run, num, den, sqrt).value
  {
    var polyRoots, failure := SingularitySolver.SolveRoot(den, sqrt);
    if failure.Some? {
      return num, failure;
    }
    var singularities := ClassifyAll(run, num, den, polyRoots);
    var trigRoot := TrigSolver.Solve(den, ZeroSolverUtils.KnownParameter(den));
    if trigRoot.Throw? {
      return num, Some(trigRoot.error);
    }
    var extra := if trigRoot.value.Some? then [trigRoot.value.value] else [];
    if trigRoot.value.Some? {
      singularities := singularities + [Classify(run, num, den, trigRoot.value.value)];
    }
    assert singularities == Singularities(run, num, den, polyRoots + extra);
    result := Assemble(num, den, singularities);
    thrown := None;
  }

  /** `RicisTransformVisitor`: a stock traversal in which every division is
      replaced by `SimplifyDivision` of its operands, which are not visited
      themselves. */
  function Apply(run: Evaluator, e: Expr, sqrt: real -> real): Result<Expr>
    requires Plain(e)
    decreases e, 1
  {
    match e
    case Bin(op, l, r) =>
      if op == Divide then SimplifyDivisionSpec(run, l, r, sqrt)
      else
        var l' :- Apply(run, l, sqrt);
        var r' :- Apply(run, r, sqrt);
        Ok(Bin(op, l', r'))
    case Unary(u, y) =>
      var y' :- Apply(run, y, sqrt);
      Ok(Unary(u, y'))
    case Call(m, args) =>
      var args' :- ApplyList(run, args, sqrt);
      Ok(Call(m, args'))
    case Lambda(p, b) =>
      var b' :- Apply(run, b, sqrt);
      Ok(Lambda(p, b'))
    case _ => Ok(e)
  }

  function ApplyList(run: Evaluator, args: seq<Expr>, sqrt: real -> real): (r: Result<seq<Expr>>)
    requires forall a | a in args :: Plain(a)
    ensures r.Ok? ==> |r.value| == |args|
    decreases args
  {
    if args == [] then Ok([])
    else
      assert args[0] in args;
      var h :- Apply(run, args[0], sqrt);
      var t :- ApplyList(run, args[1..], sqrt);
      Ok([h] + t)
  }

  /** No bridged node anywhere, and every singularity node indexed by
      plain trees. */
  predicate NoBridged(e: Expr) {
    match e
    case Bin(_, l, r) => NoBridged(l) && NoBridged(r)
    case Unary(_, y) => NoBridged(y)
    case Call(_, args) => forall a | a in args :: NoBridged(a)
    case Lambda(_, b) => NoBridged(b)
    case Infinity(i) => Plain(i.numerator)
    case Monolith(_, parts) => forall p | p in parts :: Plain(p.numerator)
    case Bridged(_, _, _, _) => false
    case _ => true
  }

  lemma {:induction false} PlainHasNoBridged(e: Expr)
    requires Plain(e)
    ensures NoBridged(e)
  {
    match e
    case Const(_) =>
    case Param(_) =>
    case Bin(_, l, r) =>
      PlainHasNoBridged(l);
      PlainHasNoBridged(r);
    case Unary(_, y) =>
      PlainHasNoBridged(y);
    case Call(_, args) =>
      forall a | a in args
        ensures NoBridged(a)
      {
        PlainHasNoBridged(a);
      }
    case Lambda(_, b) =>
      PlainHasNoBridged(b);
  }

  /** A division becomes its own quotient, an infinity or a scoped monolith
      of infinities, each indexed by the numerator or by the quotient. */
  lemma DivisionNeverBridged(run: Evaluator, num: Expr, den: Expr, sqrt: real -> real)
    requires Plain(num) && Plain(den) && SimplifyDivisionSpec(run, num, den, sqrt).Ok?
    ensures NoBridged(SimplifyDivisionSpec(run, num, den, sqrt).value)
  {
    var roots := Candidates(den, sqrt).value;
    var s := Singularities(run, num, den, roots);
    assert Plain(Bin(Divide, num, den));
    forall p | p in s
      ensures Plain(p.numerator)
    {
      var i :| 0 <= i < |s| && s[i] == p;
      assert p == Classify(run, num, den, roots[i]);
    }
    if |s| == 1 {
      assert s[0] in s;
    }
    if |s| == 0 {
      PlainHasNoBridged(Bin(Divide, num, den));
    }
  }

  /** This phase never produces a bridged node. */
  lemma {:induction false} NeverBridged(run: Evaluator, e: Expr, sqrt: real -> real)
    requires Plain(e) && Apply(run, e, sqrt).Ok?
    ensures NoBridged(Apply(run, e, sqrt).value)
    decreases e, 1
  {
    match e
    case Const(_) =>
    case Param(_) =>
    case Bin(op, l, r) =>
      if op == Divide {
        DivisionNeverBridged(run, l, r, sqrt);
      } else {
        NeverBridged(run, l, sqrt);
        NeverBridged(run, r, sqrt);
      }
    case Unary(_, y) =>
      NeverBridged(run, y, sqrt);
    case Call(_, args) =>
      NeverBridgedList(run, args, sqrt);
    case Lambda(_, b) =>
      NeverBridged(run, b, sqrt);
  }

  lemma {:induction false} NeverBridgedList(run: Evaluator, args: seq<Expr>, sqrt: real -> real)
    requires forall a | a in args :: Plain(a)
    requires ApplyList(run, args, sqrt).Ok?
    ensures forall a | a in ApplyList(run, args, sqrt).value :: NoBridged(a)
    decreases args
  {
    if args != [] {
      assert args[0] in args;
      NeverBridged(run, args[0], sqrt);
      NeverBridgedList(run, args[1..], sqrt);
    }
  }

  /** The count decides the shape: no candidate keeps the division (over
      its unvisited operands), one gives that infinity, and several give a
      monolith whose i-th infinity sits at the i-th candidate. */
  lemma DivisionOutcome(run: Evaluator, num: Expr, den: Expr, sqrt: real -> real)
    requires Plain(num) && Plain(den) && Candidates(den, sqrt).Ok?
    ensures var roots := Candidates(den, sqrt).value;
            var r := SimplifyDivisionSpec(run, num, den, sqrt).value;
            && (|roots| == 0 ==> r == Bin(Divide, num, den))
            && (|roots| == 1 ==> r == Infinity(Classify(run, num, den, roots[0])))
            && (|roots| >= 2 ==> r.Monolith? && r.decl == Scoped && |r.parts| == |roots|
                                 && forall i | 0 <= i < |roots| :: r.parts[i].variable == roots[i].0 && r.parts[i].point == roots[i].1)
  {
  }

  /** The candidates are the polynomial roots followed by at most one
      trigonometric root. */
  lemma CandidateOrder(den: Expr, sqrt: real -> real)
    requires Plain(den) && Candidates(den, sqrt).Ok?
    ensures SingularitySolver.SolveRootSpec(den, sqrt).Ok?
    ensures var poly := SingularitySolver.SolveRootSpec(den, sqrt).value;
            var roots := Candidates(den, sqrt).value;
            |poly| <= |roots| <= |poly| + 1 && roots[..|poly|] == poly
  {
  }

  /** Non-division binaries are rebuilt from their visited operands. */
  lemma OtherBinariesVisited(run: Evaluator, op: BinOp, l: Expr, r: Expr, sqrt: real -> real)
    requires op != Divide && Plain(l) && Plain(r)
    requires Apply(run, l, sqrt).Ok? && Apply(run, r, sqrt).Ok?
    ensures Plain(Bin(op, l, r))
    ensures Apply(run, Bin(op, l, r), sqrt) == Ok(Bin(op, Apply(run, l, sqrt).value, Apply(run, r, sqrt).value))
  {
  }
}
