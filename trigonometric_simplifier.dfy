/** Simplifiers/TrigonometricSimplifier.cs: sin(x)/x → 1, tan(x)/x → 1 and
    (1 − cos x)/(x·x) → 0.5, with no test of the point. */
module TrigonometricSimplifier {
  import opened Wrappers
  import opened Expressions
  import opened SimplifierShapes
  import PointIdentitySimplifier

  /** (1 − cos x)/(x·x): a Subtract whose left operand renders as "1" and
      whose right operand is a call named Cos on the parameter, over the
      product of the parameter with itself. */
  predicate HalfShape(num: Expr, den: Expr, x: string) {
    num.Bin? && num.op == Subtract && Render(num.left) == "1"
    && num.right.Call? && num.right.fn.name == "Cos" && |num.right.args| > 0 && num.right.args[0] == Param(x)
    && den == Bin(Multiply, Param(x), Param(x))
  }

  predicate BareCos(num: Expr) {
    num.Bin? && num.op == Subtract && Render(num.left) == "1" && num.right.Call? && num.right.fn.name == "Cos" && num.right.args == []
  }

  function HalfOver(num: Expr, den: Expr, x: string): (r: Result<bool>)
    ensures r == Ok(true) <==> HalfShape(num, den, x)
    ensures r.Throw? <==> BareCos(num)
  {
    if num.Bin? && num.op == Subtract && Render(num.left) == "1" && num.right.Call? && num.right.fn.name == "Cos" then
      var first :- FirstArgumentIs(num.right.args, x);
      Ok(first && den.Bin? && den.op == Multiply && den.left == Param(x) && den.right == Param(x))
    else Ok(false)
  }

  /** `TrySimplify(numerator, denominator, param)`. */
  function TrySimplify(num: Expr, den: Expr, x: string): Result<Option<Expr>> {
    var sin :- CallOver(num, den, "Sin", x);
    if sin then Ok(Some(Double(1.0)))
    else
      var tan :- CallOver(num, den, "Tan", x);
      if tan then Ok(Some(Double(1.0)))
      else
        var half :- HalfOver(num, den, x);
        Ok(if half then Some(Double(0.5)) else None)
  }

  /** The table in full: the two ratio shapes give 1.0, the cosine shape
      0.5, and everything else null, whatever the point. */
  lemma Table(num: Expr, den: Expr, x: string)
    ensures TrySimplify(num, den, x) == Ok(Some(Double(1.0))) <==> CallShape(num, den, "Sin", x) || CallShape(num, den, "Tan", x)
    ensures TrySimplify(num, den, x) == Ok(Some(Double(0.5))) <==> HalfShape(num, den, x)
    ensures TrySimplify(num, den, x).Ok? && TrySimplify(num, den, x).value.Some? ==>
              TrySimplify(num, den, x).value.value in {Double(1.0), Double(0.5)}
    ensures TrySimplify(num, den, x).Throw? <==> BareCall(num, "Sin") || BareCall(num, "Tan") || BareCos(num)
  {
  }

  /** At the point 0 this table agrees with `PointIdentitySimplifier` on
      the shapes they share. */
  lemma AgreesAtZero(num: Expr, den: Expr, x: string)
    requires CallShape(num, den, "Sin", x) || CallShape(num, den, "Tan", x)
    ensures TrySimplify(num, den, x) == PointIdentitySimplifier.TrySimplify(num, den, x, 0.0) == Ok(Some(Double(1.0)))
  {
  }

  /** (1 − cos x)/(x·x) gives 0.5 here and null in the point table. */
  lemma HalfOnlyHere(x: string)
    ensures TrySimplify(Bin(Subtract, Double(1.0), Math("Cos", [Param(x)])), Bin(Multiply, Param(x), Param(x)), x) == Ok(Some(Double(0.5)))
    ensures PointIdentitySimplifier.TrySimplify(Bin(Subtract, Double(1.0), Math("Cos", [Param(x)])), Bin(Multiply, Param(x), Param(x)), x, 0.0) == Ok(None)
  {
    RendersAsOne(1.0);
  }
}
