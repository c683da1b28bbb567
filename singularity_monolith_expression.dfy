/** SingularityMonolithExpression.cs: the global-namespace monolith, an
    immutable `Extension` node holding the singularities in the order given. */
module SingularityMonolithExpression {
  import opened Expressions

  /** `new SingularityMonolithExpression(list)`. Unlike the namespaced
      class, an empty list prints "Monolith {  }". */
  function NewMonolith(singularities: seq<Inf>): (e: Expr)
    ensures e.Monolith? && e.decl == Global && e.parts == singularities
    ensures KindOf(e) == ExtensionN
    ensures TypeOf(e) == if singularities == [] then VoidT else TypeOf(singularities[0].numerator)
    ensures Render(e) == "Monolith { " + RenderInfs(singularities) + " }"
  {
    Monolith(Global, singularities)
  }

  /** The two monolith classes print differently exactly when they hold
      no singularity. */
  lemma TextDiffersOnlyWhenEmpty(singularities: seq<Inf>)
    ensures Render(Monolith(Scoped, singularities)) == Render(NewMonolith(singularities))
            <==> singularities != []
  {
    if singularities == [] {
      assert Render(Monolith(Scoped, singularities)) == "Monolith { empty }";
      assert Render(NewMonolith(singularities)) == "Monolith {  }";
      assert "Monolith { empty }"[11] != "Monolith {  }"[11];
    }
  }
}
