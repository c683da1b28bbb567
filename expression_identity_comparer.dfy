/** ExpressionIdentityComparer.cs: the "X = X" self-identity test of the
    RICIS L1 identity, a recursive structural comparison that also accepts
    `**` nodes and compares extension nodes by their text, and the rewrite
    X/X = 1 built on it. */
module ExpressionIdentityComparer {
  import opened Wrappers
  import opened Expressions
  import ExpressionStructuralComparer

  /** `AreSelfIdentical` on possibly-null arguments. */
  predicate AreSelfIdenticalOrNull(a: Option<Expr>, b: Option<Expr>) {
    match (a, b)
    case (None, None) => true
    case (Some(x), Some(y)) => AreSelfIdentical(x, y)
    case _ => false
  }

  predicate AreSelfIdentical(a: Expr, b: Expr)
    decreases a, 1
  {
    if KindOf(a) != KindOf(b) || TypeOf(a) != TypeOf(b) then false
    else
      match a
      case Const(v) => ValueEquals(v, b.value)
      case Param(n) => n == b.name
      case Bin(op, l, r) =>
        op != Modulo && AreSelfIdentical(l, b.left) && AreSelfIdentical(r, b.right)
      case Unary(_, x) => AreSelfIdentical(x, b.operand)
      case Call(m, args) => m == b.fn && ListIdentical(args, b.args)
      case Lambda(p, body) => p == b.param && AreSelfIdentical(body, b.body)
      case _ => Render(a) == Render(b)
  }

  predicate ListIdentical(xs: seq<Expr>, ys: seq<Expr>)
    decreases xs
  {
    |xs| == |ys| && (xs == [] || (AreSelfIdentical(xs[0], ys[0]) && ListIdentical(xs[1..], ys[1..])))
  }

  /** X/X = 1: the double constant 1.0 when numerator and denominator are
      self-identical, null otherwise. */
  function ApplySelfIdentity(numerator: Option<Expr>, denominator: Option<Expr>): (r: Option<Expr>)
    ensures r.Some? <==> AreSelfIdenticalOrNull(numerator, denominator)
    ensures r.Some? ==> r.value == Double(1.0) && TypeOf(r.value) == DoubleT
  {
    if AreSelfIdenticalOrNull(numerator, denominator) then Some(Double(1.0)) else None
  }

  /** On trees without singularity nodes the identity comparer accepts every
      pair the structural comparer accepts. */
  lemma {:induction false} StructuralImpliesIdentical(a: Expr, b: Expr)
    requires Plain(a)
    requires ExpressionStructuralComparer.AreEqual(a, b)
    ensures AreSelfIdentical(a, b)
    decreases a, 1
  {
    match a
    case Const(_) =>
    case Param(_) =>
    case Bin(_, l, r) =>
      StructuralImpliesIdentical(l, b.left);
      StructuralImpliesIdentical(r, b.right);
    case Unary(_, x) =>
      StructuralImpliesIdentical(x, b.operand);
    case Call(_, args) =>
      ListImpliesIdentical(args, b.args);
    case Lambda(_, body) =>
      StructuralImpliesIdentical(body, b.body);
  }

  lemma {:induction false} ListImpliesIdentical(xs: seq<Expr>, ys: seq<Expr>)
    requires forall a | a in xs :: Plain(a)
    requires ExpressionStructuralComparer.ListEqual(xs, ys)
    ensures ListIdentical(xs, ys)
    decreases xs
  {
    if xs != [] {
      StructuralImpliesIdentical(xs[0], ys[0]);
      ListImpliesIdentical(xs[1..], ys[1..]);
    }
  }

  /** A `**` node is identical to a copy of itself although the structural
      comparer rejects it. */
  lemma PowerNodesDiffer(x: string)
    ensures AreSelfIdentical(Bin(Power, Param(x), Double(2.0)), Bin(Power, Param(x), Double(2.0)))
    ensures !ExpressionStructuralComparer.AreEqual(Bin(Power, Param(x), Double(2.0)), Bin(Power, Param(x), Double(2.0)))
  {
  }
}
