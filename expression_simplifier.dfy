/** ExpressionSimplifier.cs: the unwired classifier of the global
    namespace. It descends only through +, −, ×, lambdas and calls, and
    replaces each division whose denominator has zeros by one node per zero:
    a 0/0 form that long division or the point table resolves becomes a
    bridged node of the global class, any other zero an indexed infinity.
    Several results become a global monolith that keeps only the infinities.
    The call `SolveRoot(denominator, param)` names a two-argument overload
    that no declaration has; this model calls the global one-argument
    solver and drops `param`. */
module ExpressionSimplifier {
  import opened Wrappers
  import opened Expressions
  import opened Evaluation
  import SingularitySolver
  import PolynomialLongDivision
  import PointIdentitySimplifier
  import ZeroSolverUtils
  import RicisTransformPhase

  /** What one zero of the denominator becomes. At a numerator value of
      exactly 0.0, `TryDivide` is tried first and the point table second;
      a result of either gives a bridged node, no result the infinity
      indexed by the quotient. Any other value gives the infinity indexed by
      the numerator. */
  function Resolve(run: Evaluator, num: Expr, den: Expr, root: (string, real)): (r: Result<Expr>)
    requires Plain(num) && Plain(den)
    ensures run(num, root.0, root.1) != Finite(0.0) ==> r == Ok(Infinity(Inf(num, root.0, root.1)))
    ensures r.Ok? && r.value.Bridged? ==>
              run(num, root.0, root.1) == Finite(0.0) && r.value.decl == Global
              && r.value.variable == root.0 && r.value.point == root.1
              && (PolynomialLongDivision.TryDivideSpec(num, den, root.0) == Ok(Some(r.value.content))
                  || (PolynomialLongDivision.TryDivideSpec(num, den, root.0) == Ok(None)
                      && PointIdentitySimplifier.TrySimplify(num, den, root.0, root.1) == Ok(Some(r.value.content))))
    ensures r.Ok? ==> r.value.Bridged? || r.value == Infinity(Inf(num, root.0, root.1)) || r.value == Infinity(Inf(Bin(Divide, num, den), root.0, root.1))
    ensures r.Throw? ==> run(num, root.0, root.1) == Finite(0.0)
  {
    if RicisTransformPhase.EvaluateAtPoint(run, num, root.0, root.1) == Some(0.0) then
      var divided :- PolynomialLongDivision.TryDivideSpec(num, den, root.0);
      var simplified :- if divided.Some? then Ok(divided) else PointIdentitySimplifier.TrySimplify(num, den, root.0, root.1);
      if simplified.Some? then Ok(Bridged(Global, simplified.value, root.0, root.1))
      else Ok(Infinity(Inf(Bin(Divide, num, den), root.0, root.1)))
    else Ok(Infinity(Inf(num, root.0, root.1)))
  }

  /** The `foreach` over the roots, in order; the first root whose
      resolution throws ends it. */
  function ResolveAll(run: Evaluator, num: Expr, den: Expr, roots: seq<(string, real)>): (r: Result<seq<Expr>>)
    requires Plain(num) && Plain(den)
    ensures r.Ok? ==> |r.value| == |roots|
    ensures r.Ok? ==> forall i | 0 <= i < |roots| :: Resolve(run, num, den, roots[i]) == Ok(r.value[i])
    decreases |roots|
  {
    if roots == [] then Ok([])
    else
      var init :- ResolveAll(run, num, den, roots[..|roots| - 1]);
      var last :- Resolve(run, num, den, roots[|roots| - 1]);
      Ok(init + [last])
  }

  /** `singularities.OfType<InfinityExpression>()`: the infinities, in
      order; bridged nodes are dropped. */
  function Infinities(s: seq<Expr>): (r: seq<Inf>)
    ensures |r| <= |s|
    ensures forall p | p in r :: Infinity(p) in s
    ensures (exists k | 0 <= k < |s| :: !s[k].Infinity?) ==> |r| < |s|
    ensures (forall k | 0 <= k < |s| :: s[k].Infinity?) ==> |r| == |s| && forall k | 0 <= k < |s| :: r[k] == s[k].inf
    decreases |s|
  {
    if s == [] then []
    else
      var init := Infinities(s[..|s| - 1]);
      var last := s[|s| - 1];
      assert forall k | 0 <= k < |s| - 1 :: s[..|s| - 1][k] == s[k];
      assert forall e | e in s[..|s| - 1] :: e in s;
      if last.Infinity? then init + [last.inf] else init
  }

  /** `SimplifyDivision(b)` of the division num / den. */
  function SimplifyDivisionSpec(run: Evaluator, num: Expr, den: Expr, sqrt: real -> real): Result<Expr>
    requires Plain(num) && Plain(den)
  {
    var b := Bin(Divide, num, den);
    if ZeroSolverUtils.FirstParameter(b).None? then Ok(b)
    else
      var roots :- SingularitySolver.SolveRootSpec(den, sqrt);
      if roots == [] then Ok(b)
      else
        var s :- ResolveAll(run, num, den, roots);
        Ok(if |s| == 0 then b else if |s| == 1 then s[0] else Monolith(Global, Infinities(s)))
  }

  /** `SimplifyDivision(b)`: the parameter test, the roots, then the
      `foreach` that appends to `singularities`, then the count switch. */
  method SimplifyDivision(run: Evaluator, num: Expr, den: Expr, sqrt: real -> real) returns (result: Expr, thrown: Option<Exn>)
    requires Plain(num) && Plain(den)
    ensures SimplifyDivisionSpec(run, num, den, sqrt).Throw? <==> thrown.Some?
    ensures thrown.Some? ==> thrown.value == SimplifyDivisionSpec(run, num, den, sqrt).error
    ensures SimplifyDivisionSpec(run, num, den, sqrt).Ok? ==> result == SimplifyDivisionSpec(run, num, den, sqrt).value
  {
    var b := Bin(Divide, num, den);
    assert Plain(b);
    var param := ZeroSolverUtils.FindFirstParameter(b);
    if param.None? {
      return b, None;
    }
    var roots, failure := SingularitySolver.SolveRoot(den, sqrt);
    if failure.Some? {
      return b, failure;
    }
    if |roots| == 0 {
      return b, None;
    }
    var singularities, error := ResolveEach(run, num, den, roots);
    if error.Some? {
      return b, error;
    }
    result := if |singularities| == 0 then b
              else if |singularities| == 1 then singularities[0]
              else Monolith(Global, Infinities(singularities));
    thrown := None;
  }

  /** The `foreach` of `SimplifyDivision`. */
  method ResolveEach(run: Evaluator, num: Expr, den: Expr, roots: seq<(string, real)>) returns (singularities: seq<Expr>, thrown: Option<Exn>)
    requires Plain(num) && Plain(den)
    ensures ResolveAll(run, num, den, roots).Throw? <==> thrown.Some?
    ensures thrown.Some? ==> thrown.value == ResolveAll(run, num, den, roots).error
    ensures ResolveAll(run, num, den, roots).Ok? ==> singularities == ResolveAll(run, num, den, roots).value
  {
    singularities := [];
    var i := 0;
    while i < |roots|
      invariant 0 <= i <= |roots|
      invariant ResolveAll(run, num, den, roots[..i]) == Ok(singularities)
    {
      var next := Resolve(run, num, den, roots[i]);
      if next.Throw? {
        ResolveStopsAt(run, num, den, roots, i);
        return singularities, Some(next.error);
      }
      ResolveStep(run, num, den, roots, i);
      singularities := singularities + [next.value];
      i := i + 1;
    }
    assert roots[..i] == roots;
    thrown := None;
  }

  lemma ResolveStep(run: Evaluator, num: Expr, den: Expr, roots: seq<(string, real)>, i: nat)
    requires Plain(num) && Plain(den)
    requires i < |roots| && ResolveAll(run, num, den, roots[..i]).Ok? && Resolve(run, num, den, roots[i]).Ok?
    ensures ResolveAll(run, num, den, roots[..i + 1]) == Ok(ResolveAll(run, num, den, roots[..i]).value + [Resolve(run, num, den, roots[i]).value])
  {
    assert roots[..i + 1][..i] == roots[..i];
  }

  /** A root that throws ends the loop with its exception. */
  lemma {:induction false} ResolveStopsAt(run: Evaluator, num: Expr, den: Expr, roots: seq<(string, real)>, i: nat)
    requires Plain(num) && Plain(den)
    requires i < |roots| && ResolveAll(run, num, den, roots[..i]).Ok? && Resolve(run, num, den, roots[i]).Throw?
    ensures ResolveAll(run, num, den, roots) == Throw(Resolve(run, num, den, roots[i]).error)
    decreases |roots|
  {
    if i < |roots| - 1 {
      assert roots[..|roots| - 1][..i] == roots[..i];
      ResolveStopsAt(run, num, den, roots[..|roots| - 1], i);
    } else {
      assert roots[..|roots| - 1] == roots[..i];
    }
  }

  /** `Visit(expr)`: a division is simplified without visiting its
      operands; +, − and × are rebuilt from visited operands; a lambda's
      body and a call's arguments are visited; every other node, unary
      minus included, is returned unchanged. */
  function Visit(run: Evaluator, e: Expr, sqrt: real -> real): Result<Expr>
    requires Plain(e)
    decreases e, 1
  {
    match e
    case Bin(op, l, r) =>
      if op == Divide then SimplifyDivisionSpec(run, l, r, sqrt)
      else if op == Add || op == Subtract || op == Multiply then
        var l' :- Visit(run, l, sqrt);
        var r' :- Visit(run, r, sqrt);
        Ok(Bin(op, l', r'))
      else Ok(e)
    case Lambda(p, b) =>
      var b' :- Visit(run, b, sqrt);
      Ok(Lambda(p, b'))
    case Call(m, args) =>
      var args' :- VisitList(run, args, sqrt);
      Ok(Call(m, args'))
    case _ => Ok(e)
  }

  function VisitList(run: Evaluator, args: seq<Expr>, sqrt: real -> real): (r: Result<seq<Expr>>)
    requires forall a | a in args :: Plain(a)
    ensures r.Ok? ==> |r.value| == |args|
    decreases args
  {
    if args == [] then Ok([])
    else
      assert args[0] in args;
      var h :- Visit(run, args[0], sqrt);
      var t :- VisitList(run, args[1..], sqrt);
      Ok([h] + t)
  }

  /** `Simplify(expr)`. */
  function Simplify(run: Evaluator, e: Expr, sqrt: real -> real): Result<Expr>
    requires Plain(e)
  {
    Visit(run, e, sqrt)
  }

  /** A division without parameters, or whose denominator has no zeros, is
      returned as it is. */
  lemma UnchangedDivisions(run: Evaluator, num: Expr, den: Expr, sqrt: real -> real)
    requires Plain(num) && Plain(den)
    ensures Occurrences(Bin(Divide, num, den)) == [] ==> SimplifyDivisionSpec(run, num, den, sqrt) == Ok(Bin(Divide, num, den))
    ensures SingularitySolver.SolveRootSpec(den, sqrt) == Ok([]) ==> SimplifyDivisionSpec(run, num, den, sqrt) == Ok(Bin(Divide, num, den))
  {
  }

  /** One zero gives that one node; several give a global monolith of
      only the infinities among them, so a bridged result is lost exactly
      when there are two or more zeros. */
  lemma CountSwitch(run: Evaluator, num: Expr, den: Expr, sqrt: real -> real)
    requires Plain(num) && Plain(den)
    requires Occurrences(Bin(Divide, num, den)) != []
    requires SingularitySolver.SolveRootSpec(den, sqrt).Ok? && ResolveAll(run, num, den, SingularitySolver.SolveRootSpec(den, sqrt).value).Ok?
    ensures var roots := SingularitySolver.SolveRootSpec(den, sqrt).value;
            var s := ResolveAll(run, num, den, roots).value;
            var r := SimplifyDivisionSpec(run, num, den, sqrt).value;
            && (|roots| == 1 ==> r == s[0] && Resolve(run, num, den, roots[0]) == Ok(r))
            && (|roots| >= 2 ==> r.Monolith? && r.decl == Global && r.parts == Infinities(s)
                                 && ((exists k | 0 <= k < |s| :: s[k].Bridged?) ==> |r.parts| < |roots|))
  {
  }

  /** Polynomial long division is tried before the point table: when it
      succeeds at a 0/0 zero, its quotient is the bridged content. */
  lemma DivisionFirst(run: Evaluator, num: Expr, den: Expr, root: (string, real))
    requires Plain(num) && Plain(den)
    requires run(num, root.0, root.1) == Finite(0.0)
    requires PolynomialLongDivision.TryDivideSpec(num, den, root.0).Ok? && PolynomialLongDivision.TryDivideSpec(num, den, root.0).value.Some?
    ensures Resolve(run, num, den, root) == Ok(Bridged(Global, PolynomialLongDivision.TryDivideSpec(num, den, root.0).value.value, root.0, root.1))
  {
  }

  /** Unary minus is not descended: a division under it stays. */
  lemma NegationNotDescended(run: Evaluator, e: Expr, sqrt: real -> real)
    requires Plain(e)
    ensures Plain(Unary(Negate, e))
    ensures Visit(run, Unary(Negate, e), sqrt) == Ok(Unary(Negate, e))
  {
  }
}
