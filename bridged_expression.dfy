/** BridgedExpression.cs: the global-namespace `BridgedExpression`, an
    immutable `Extension` node recording that a 0/0 point was resolved to a
    finite content expression. */
module BridgedExpression {
  import opened Expressions
  import Text

  /** `new BridgedExpression(content, variable, value)`; its get-only
      properties return exactly the constructor's arguments. */
  function NewBridged(content: Expr, variable: string, value: real): (e: Expr)
    ensures e.Bridged? && e.decl == Global
    ensures e.content == content && e.variable == variable && e.point == value
    ensures KindOf(e) == ExtensionN && TypeOf(e) == TypeOf(content)
    ensures Render(e) == Render(content) + " [bridged at " + variable + "=" + Text.RealText(value) + "]"
  {
    Bridged(Global, content, variable, value)
  }

  /** The two `BridgedExpression` classes print alike and have the same type;
      only their runtime class tells them apart. */
  lemma SameTextBothDeclarations(content: Expr, variable: string, value: real)
    ensures var s, g := Bridged(Scoped, content, variable, value), NewBridged(content, variable, value);
            Render(s) == Render(g) && TypeOf(s) == TypeOf(g) && s != g
  {
  }
}
