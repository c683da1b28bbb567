/** ExpressionComparable.cs: a wrapper giving expression trees `==`, `!=`
    and `Equals` by structural comparison, and a hash code taken from the
    tree's text. */
module ExpressionComparable {
  import opened Wrappers
  import opened Expressions
  import ExpressionStructuralComparer

  /** An argument of `Equals(object)`: a wrapper (around a possibly-null
      tree) or an object of any other class. */
  datatype Obj = Comparable(expr: Option<Expr>) | Other

  predicate Eq(a: Option<Expr>, b: Option<Expr>) {
    ExpressionStructuralComparer.AreEqualOrNull(a, b)
  }

  predicate Neq(a: Option<Expr>, b: Option<Expr>) {
    !ExpressionStructuralComparer.AreEqualOrNull(a, b)
  }

  predicate Equals(a: Option<Expr>, other: Obj) {
    other.Comparable? && ExpressionStructuralComparer.AreEqualOrNull(a, other.expr)
  }

  /** The input of the hash: `Some(s)` stands for `s.GetHashCode()` of the
      tree's text `s`, `None` for the hash 0 of a null tree. */
  function GetHashCode(a: Option<Expr>): (h: Option<string>)
    ensures h.None? <==> a.None?
    ensures a.Some? ==> h.value == Render(a.value)
  {
    match a
    case None => None
    case Some(e) => Some(Render(e))
  }

  /** The operators agree with each other and with `Equals`. */
  lemma OperatorsAgree(a: Option<Expr>, b: Option<Expr>)
    ensures Neq(a, b) <==> !Eq(a, b)
    ensures Equals(a, Comparable(b)) <==> Eq(a, b)
    ensures !Equals(a, Other)
  {
  }

  /** As written, two wrappers can be equal and still hash differently: two
      namespaced bridged nodes are equal by the same-class fallback whatever
      they hold, yet print their different contents. */
  lemma EqualButHashDiffers()
    ensures Eq(Some(Bridged(Scoped, Param("x"), "x", 0.0)), Some(Bridged(Scoped, Param("y"), "y", 0.0)))
    ensures GetHashCode(Some(Bridged(Scoped, Param("x"), "x", 0.0)))
            != GetHashCode(Some(Bridged(Scoped, Param("y"), "y", 0.0)))
  {
    assert Render(Bridged(Scoped, Param("x"), "x", 0.0))[0] == 'x';
    assert Render(Bridged(Scoped, Param("y"), "y", 0.0))[0] == 'y';
  }

  /** A hash that only reads what equal trees share: node type and CLR type. */
  function CorrectedHashCode(a: Option<Expr>): Option<(NodeType, ClrType)> {
    match a
    case None => None
    case Some(e) => Some((KindOf(e), TypeOf(e)))
  }

  /** With it, equal wrappers always hash alike. */
  lemma CorrectedHashAgreesWithEquality(a: Option<Expr>, b: Option<Expr>)
    requires Eq(a, b)
    ensures CorrectedHashCode(a) == CorrectedHashCode(b)
  {
    if a.Some? {
      ExpressionStructuralComparer.EqualSameKind(a.value, b.value);
    }
  }
}
