/** Phases/TypeConsistencyPhase.cs: phase 4. A stock visitor walks the tree
    for its logging; its override returns every extension node (`Infinity`,
    `Monolith`, `Bridged` or another) as it is. Whatever the walk gives or
    throws, the phase returns its input. */
module TypeConsistencyPhase {
  import opened Expressions

  /** `TypeConsistencyVisitor.Visit`: the stock rebuilding traversal, in
      which leaves and extension nodes are returned as they are. */
  function Walk(e: Expr): (r: Expr)
    ensures r == e
    decreases e, 1
  {
    match e
    case Bin(op, l, r) => Bin(op, Walk(l), Walk(r))
    case Unary(u, y) => Unary(u, Walk(y))
    case Call(m, args) => Call(m, WalkList(args))
    case Lambda(p, b) => Lambda(p, Walk(b))
    case _ => e
  }

  function WalkList(args: seq<Expr>): (r: seq<Expr>)
    ensures r == args
    decreases args
  {
    if args == [] then [] else [Walk(args[0])] + WalkList(args[1..])
  }

  /** `Apply(expr)`: the walk's result is dropped and the input returned. */
  function Apply(e: Expr): (r: Expr)
    ensures r == e
  {
    var _ := Walk(e);
    e
  }
}
