/** Phases/RicisTransformPhase.cs: an unwired draft of phase 2 that holds
    the exponential shape match and an evaluation at a point in which every
    failure counts as the value 1.0, so that it is never mistaken for a
    zero of the numerator. */
module RicisTransformDraft {
  import opened Wrappers
  import opened Expressions
  import opened SimplifierShapes
  import opened Evaluation
  import ExponentialSimplifier

  /** `TrySimplify(numerator, denominator, param)`: (exp(x) − 1)/x → 1. */
  function TrySimplify(num: Expr, den: Expr, x: string): (r: Result<Option<Expr>>)
    ensures r == Ok(Some(Double(1.0))) <==> ExpMinusOneShape(num, den, x)
    ensures r.Throw? <==> BareExpMinus(num)
    ensures r.Ok? && r.value.Some? ==> r.value.value == Double(1.0)
  {
    var exp :- ExpMinusOneOver(num, den, x);
    Ok(if exp then Some(Double(1.0)) else None)
  }

  /** `EvaluateAtPoint(expr, paramName, value)`: a finite result is
      returned; NaN, an infinity or an exception gives 1.0, so the value
      is 0.0 only when the evaluation gives exactly 0.0. */
  function EvaluateAtPoint(run: Evaluator, e: Expr, x: string, v: real): (r: real)
    ensures r == 0.0 <==> run(e, x, v) == Finite(0.0)
    ensures r != 1.0 ==> run(e, x, v) == Finite(r)
  {
    match run(e, x, v)
    case Finite(w) => w
    case _ => 1.0
  }

  /** The two copies of the exponential rule are the same function. */
  lemma SameAsExponentialSimplifier(num: Expr, den: Expr, x: string)
    ensures TrySimplify(num, den, x) == ExponentialSimplifier.TrySimplify(num, den, x)
  {
    ExponentialSimplifier.Table(num, den, x);
  }
}
