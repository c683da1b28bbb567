/** Simplifiers/ExponentialSimplifier.cs: (exp(x) − 1)/x → 1, with no test
    of the point. */
module ExponentialSimplifier {
  import opened Wrappers
  import opened Expressions
  import opened SimplifierShapes
  import PointIdentitySimplifier

  /** `TrySimplify(numerator, denominator, param)`. */
  function TrySimplify(num: Expr, den: Expr, x: string): Result<Option<Expr>> {
    var exp :- ExpMinusOneOver(num, den, x);
    Ok(if exp then Some(Double(1.0)) else None)
  }

  /** One shape gives 1.0; a Subtract whose left operand is an Exp call
      without arguments throws; everything else gives null. */
  lemma Table(num: Expr, den: Expr, x: string)
    ensures TrySimplify(num, den, x) == Ok(Some(Double(1.0))) <==> ExpMinusOneShape(num, den, x)
    ensures TrySimplify(num, den, x).Throw? <==> BareExpMinus(num)
    ensures TrySimplify(num, den, x).Ok? && !ExpMinusOneShape(num, den, x) ==> TrySimplify(num, den, x) == Ok(None)
  {
  }

  /** Whatever this table simplifies, the point table simplifies alike at
      the point 0. */
  lemma PointTableAgrees(num: Expr, den: Expr, x: string)
    requires TrySimplify(num, den, x).Ok? && TrySimplify(num, den, x).value.Some?
    ensures PointIdentitySimplifier.TrySimplify(num, den, x, 0.0) == TrySimplify(num, den, x)
  {
  }

  /** The right operand is tested by its text: 1.0, the integer 1 and a
      parameter named "1" all match; 2.0 does not. */
  lemma TextTest(x: string)
    ensures TrySimplify(Bin(Subtract, Math("Exp", [Param(x)]), Double(1.0)), Param(x), x) == Ok(Some(Double(1.0)))
    ensures TrySimplify(Bin(Subtract, Math("Exp", [Param(x)]), Const(Int32V(1))), Param(x), x) == Ok(Some(Double(1.0)))
    ensures TrySimplify(Bin(Subtract, Math("Exp", [Param(x)]), Param("1")), Param(x), x) == Ok(Some(Double(1.0)))
    ensures TrySimplify(Bin(Subtract, Math("Exp", [Param(x)]), Double(2.0)), Param(x), x) == Ok(None)
  {
    RendersAsOne(1.0);
    RendersAsOne(2.0);
  }
}
