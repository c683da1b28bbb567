/** Simplifiers/PointIdentitySimplifier.cs: the limits the engine accepts
    as proved identities at the point 0: sin(x)/x, tan(x)/x and
    (exp(x) − 1)/x, each 1. Every other shape and every other point give
    null. */
module PointIdentitySimplifier {
  import opened Wrappers
  import opened Expressions
  import opened SimplifierShapes

  /** `TrySimplify(numerator, denominator, param, point)`. */
  function TrySimplify(num: Expr, den: Expr, x: string, point: real): Result<Option<Expr>> {
    if point != 0.0 then Ok(None)
    else
      var sin :- CallOver(num, den, "Sin", x);
      if sin then Ok(Some(Double(1.0)))
      else
        var tan :- CallOver(num, den, "Tan", x);
        if tan then Ok(Some(Double(1.0)))
        else
          var exp :- ExpMinusOneOver(num, den, x);
          Ok(if exp then Some(Double(1.0)) else None)
  }

  /** The table in full: at 0.0 a recognised shape gives 1.0; an argument
      list that is indexed but empty throws; anything else, and any other
      point, gives null. */
  lemma Table(num: Expr, den: Expr, x: string, point: real)
    ensures TrySimplify(num, den, x, point).Ok? && TrySimplify(num, den, x, point).value.Some? <==>
              point == 0.0 && (CallShape(num, den, "Sin", x) || CallShape(num, den, "Tan", x) || ExpMinusOneShape(num, den, x))
    ensures TrySimplify(num, den, x, point).Ok? && TrySimplify(num, den, x, point).value.Some? ==>
              TrySimplify(num, den, x, point).value.value == Double(1.0)
    ensures TrySimplify(num, den, x, point).Throw? <==>
              point == 0.0 && (BareCall(num, "Sin") || BareCall(num, "Tan") || BareExpMinus(num))
    ensures point != 0.0 ==> TrySimplify(num, den, x, point) == Ok(None)
  {
  }

  /** sin(x)/x, tan(x)/x and (exp(x) − 1.0)/x at 0 give 1.0. */
  lemma KnownLimits(x: string)
    ensures TrySimplify(Math("Sin", [Param(x)]), Param(x), x, 0.0) == Ok(Some(Double(1.0)))
    ensures TrySimplify(Math("Tan", [Param(x)]), Param(x), x, 0.0) == Ok(Some(Double(1.0)))
    ensures TrySimplify(Bin(Subtract, Math("Exp", [Param(x)]), Double(1.0)), Param(x), x, 0.0) == Ok(Some(Double(1.0)))
  {
    RendersAsOne(1.0);
  }

  /** (1 − cos x)/(x·x) is not in this table, and sin(x)/x at any point
      other than 0 is not simplified. */
  lemma OutsideTheTable(x: string, point: real)
    requires point != 0.0
    ensures TrySimplify(Bin(Subtract, Double(1.0), Math("Cos", [Param(x)])), Bin(Multiply, Param(x), Param(x)), x, 0.0) == Ok(None)
    ensures TrySimplify(Math("Sin", [Param(x)]), Param(x), x, point) == Ok(None)
  {
  }
}
