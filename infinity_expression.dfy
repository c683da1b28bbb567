/** InfinityExpression.cs: the three singularity nodes of namespace
    `SimplifierConsole` — an indexed infinity, a monolith of several
    infinities and a bridged (removed) discontinuity. Each is an immutable
    `Extension` node; these functions are their constructors. */
module InfinityExpression {
  import opened Expressions
  import Text

  /** `new InfinityExpression(numerator, variable, value)`. */
  function NewInfinity(numerator: Expr, variable: string, value: real): (e: Expr)
    ensures e.Infinity? && e.inf.numerator == numerator && e.inf.variable == variable && e.inf.point == value
    ensures KindOf(e) == ExtensionN && TypeOf(e) == TypeOf(numerator)
    ensures Render(e) == "∞_{" + Render(numerator) + "} при " + variable + " = " + Text.RealText(value)
  {
    Infinity(Inf(numerator, variable, value))
  }

  /** `new SingularityMonolithExpression(list)` of this namespace. */
  function NewMonolith(singularities: seq<Inf>): (e: Expr)
    ensures e.Monolith? && e.parts == singularities && e.decl == Scoped
    ensures KindOf(e) == ExtensionN
    ensures TypeOf(e) == if singularities == [] then VoidT else TypeOf(singularities[0].numerator)
    ensures singularities == [] ==> Render(e) == "Monolith { empty }"
    ensures singularities != [] ==> Render(e) == "Monolith { " + RenderInfs(singularities) + " }"
  {
    Monolith(Scoped, singularities)
  }

  /** `new BridgedExpression(content, variable, value)` of this namespace. */
  function NewBridged(content: Expr, variable: string, value: real): (e: Expr)
    ensures e.Bridged? && e.decl == Scoped && e.content == content && e.variable == variable && e.point == value
    ensures KindOf(e) == ExtensionN && TypeOf(e) == TypeOf(content)
    ensures Render(e) == Render(content) + " [bridged at " + variable + "=" + Text.RealText(value) + "]"
  {
    Bridged(Scoped, content, variable, value)
  }

  /** A monolith lists its singularities in list order, separated by ", ":
      joining two non-empty runs is the join of each run. */
  lemma {:induction false} RenderInfsAppend(a: seq<Inf>, b: seq<Inf>)
    requires a != [] && b != []
    ensures RenderInfs(a + b) == RenderInfs(a) + ", " + RenderInfs(b)
    decreases |a|
  {
    if |a| == 1 {
      assert (a + b)[1..] == b;
    } else {
      assert (a + b)[1..] == a[1..] + b;
      RenderInfsAppend(a[1..], b);
    }
  }

  /** A one-element monolith renders exactly its singularity inside the braces. */
  lemma SingleMonolith(i: Inf)
    ensures Render(NewMonolith([i])) == "Monolith { " + RenderInf(i) + " }"
  {
  }
}
