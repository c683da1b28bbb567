/** ExpressionStructuralComparer.cs: structural equality of expression
    trees, with dedicated cases for the infinity node and the global-namespace
    monolith and bridged nodes. Parameters are one object per name, so two
    parameter nodes are reference-equal exactly when their names agree; every
    other pair of nodes is taken to be two distinct objects. */
module ExpressionStructuralComparer {
  import opened Wrappers
  import opened Expressions

  /** `AreEqual` on possibly-null arguments. */
  predicate AreEqualOrNull(a: Option<Expr>, b: Option<Expr>) {
    match (a, b)
    case (None, None) => true
    case (Some(x), Some(y)) => AreEqual(x, y)
    case _ => false
  }

  predicate AreEqual(a: Expr, b: Expr)
    decreases a, 2
  {
    if a.Param? && b.Param? && a.name == b.name then true
    else if KindOf(a) != KindOf(b) || TypeOf(a) != TypeOf(b) then false
    else
      match a
      case Const(v) => ValueEquals(v, b.value)
      case Param(n) => n == b.name
      case Bin(op, l, r) =>
        (op == Add || op == Subtract || op == Multiply || op == Divide)
        && AreEqual(l, b.left) && AreEqual(r, b.right)
      case Unary(_, x) => AreEqual(x, b.operand)
      case Call(m, args) => m == b.fn && ListEqual(args, b.args)
      case Lambda(p, body) => p == b.param && AreEqual(body, b.body)
      case _ => ExtensionEqual(a, b)
  }

  predicate ListEqual(xs: seq<Expr>, ys: seq<Expr>)
    decreases xs
  {
    |xs| == |ys| && (xs == [] || (AreEqual(xs[0], ys[0]) && ListEqual(xs[1..], ys[1..])))
  }

  /** The runtime class of an extension node. */
  function ClassOf(e: Expr): nat {
    match e
    case Infinity(_) => 1
    case Monolith(Scoped, _) => 2
    case Monolith(Global, _) => 3
    case Bridged(Scoped, _, _, _) => 4
    case Bridged(Global, _, _, _) => 5
    case _ => 0
  }

  /** Infinity pairs, global monolith pairs and global bridged pairs compare
      their contents; any other pair is equal iff it is of one class. */
  predicate ExtensionEqual(a: Expr, b: Expr)
    decreases a, 1
  {
    match (a, b)
    case (Infinity(ia), Infinity(ib)) => InfinityEqual(ia, ib)
    case (Monolith(Global, pa), Monolith(Global, pb)) => MonolithEqual(pa, pb)
    case (Bridged(Global, ca, xa, va), Bridged(Global, cb, xb, vb)) =>
      va == vb && xa == xb && AreEqual(ca, cb)
    case _ => ClassOf(a) == ClassOf(b)
  }

  predicate InfinityEqual(a: Inf, b: Inf)
    decreases a, 0
  {
    a.point == b.point && a.variable == b.variable && AreEqual(a.numerator, b.numerator)
  }

  predicate MonolithEqual(xs: seq<Inf>, ys: seq<Inf>)
    decreases xs
  {
    |xs| == |ys| && (xs == [] || (InfinityEqual(xs[0], ys[0]) && MonolithEqual(xs[1..], ys[1..])))
  }

  /** Only the node kinds the comparer lists: no `%` and no `**` node. */
  predicate Listed(e: Expr)
    decreases e, 1
  {
    match e
    case Const(_) => true
    case Param(_) => true
    case Bin(op, l, r) => op != Modulo && op != Power && Listed(l) && Listed(r)
    case Unary(_, x) => Listed(x)
    case Call(_, args) => forall a | a in args :: Listed(a)
    case Lambda(_, b) => Listed(b)
    case Infinity(i) => ListedInf(i)
    case Bridged(_, c, _, _) => Listed(c)
    case Monolith(_, parts) => forall i | i in parts :: ListedInf(i)
  }

  predicate ListedInf(i: Inf)
    decreases i, 0
  {
    Listed(i.numerator)
  }

  /** Every tree built from the listed kinds equals itself. */
  lemma {:induction false} Reflexive(e: Expr)
    requires Listed(e)
    ensures AreEqual(e, e)
    decreases e, 1
  {
    match e
    case Const(v) =>
    case Param(_) =>
    case Bin(_, l, r) =>
      Reflexive(l);
      Reflexive(r);
    case Unary(_, x) =>
      Reflexive(x);
    case Call(_, args) =>
      ListReflexive(args);
    case Lambda(_, b) =>
      Reflexive(b);
    case Infinity(i) =>
      Reflexive(i.numerator);
    case Bridged(_, c, _, _) =>
      Reflexive(c);
    case Monolith(_, parts) =>
      MonolithReflexive(parts);
  }

  lemma {:induction false} ListReflexive(xs: seq<Expr>)
    requires forall a | a in xs :: Listed(a)
    ensures ListEqual(xs, xs)
    decreases xs
  {
    if xs != [] {
      Reflexive(xs[0]);
      ListReflexive(xs[1..]);
    }
  }

  lemma {:induction false} MonolithReflexive(xs: seq<Inf>)
    requires forall i | i in xs :: ListedInf(i)
    ensures MonolithEqual(xs, xs)
    decreases xs
  {
    if xs != [] {
      assert xs[0] in xs;
      assert ListedInf(xs[0]);
      Reflexive(xs[0].numerator);
      MonolithReflexive(xs[1..]);
    }
  }

  /** Equality of trees does not depend on argument order. */
  lemma {:induction false} Symmetric(a: Expr, b: Expr)
    ensures AreEqual(a, b) == AreEqual(b, a)
    decreases a, 1
  {
    if a.Param? && b.Param? && a.name == b.name {
    } else if KindOf(a) != KindOf(b) || TypeOf(a) != TypeOf(b) {
    } else {
      match a
      case Const(_) =>
      case Param(_) =>
      case Bin(_, l, r) =>
        Symmetric(l, b.left);
        Symmetric(r, b.right);
      case Unary(_, x) =>
        Symmetric(x, b.operand);
      case Call(_, args) =>
        ListSymmetric(args, b.args);
      case Lambda(_, body) =>
        Symmetric(body, b.body);
      case _ =>
        ExtensionSymmetric(a, b);
    }
  }

  lemma {:induction false} ExtensionSymmetric(a: Expr, b: Expr)
    ensures ExtensionEqual(a, b) == ExtensionEqual(b, a)
    decreases a, 0
  {
    match (a, b)
    case (Infinity(ia), Infinity(ib)) =>
      Symmetric(ia.numerator, ib.numerator);
    case (Monolith(Global, pa), Monolith(Global, pb)) =>
      MonolithSymmetric(pa, pb);
    case (Bridged(Global, ca, _, _), Bridged(Global, cb, _, _)) =>
      Symmetric(ca, cb);
    case _ =>
  }

  lemma {:induction false} ListSymmetric(xs: seq<Expr>, ys: seq<Expr>)
    ensures ListEqual(xs, ys) == ListEqual(ys, xs)
    decreases xs
  {
    if xs != [] && |xs| == |ys| {
      Symmetric(xs[0], ys[0]);
      ListSymmetric(xs[1..], ys[1..]);
    }
  }

  lemma {:induction false} MonolithSymmetric(xs: seq<Inf>, ys: seq<Inf>)
    ensures MonolithEqual(xs, ys) == MonolithEqual(ys, xs)
    decreases xs
  {
    if xs != [] && |xs| == |ys| {
      Symmetric(xs[0].numerator, ys[0].numerator);
      MonolithSymmetric(xs[1..], ys[1..]);
    }
  }

  /** Equal trees have the same node type and CLR type. */
  lemma EqualSameKind(a: Expr, b: Expr)
    requires AreEqual(a, b)
    ensures KindOf(a) == KindOf(b) && TypeOf(a) == TypeOf(b)
  {
  }

  /** Namespaced monoliths fall to the same-class fallback, so any two of them
      are equal whatever they hold; global ones compare their contents. */
  lemma ScopedMonolithsAlwaysEqual(i: Inf, j: Inf)
    requires TypeOf(i.numerator) == TypeOf(j.numerator) && i.point != j.point
    ensures AreEqual(Monolith(Scoped, [i]), Monolith(Scoped, [j]))
    ensures !AreEqual(Monolith(Global, [i]), Monolith(Global, [j]))
  {
    assert [i][1..] == [] && [j][1..] == [];
    assert !InfinityEqual(i, j);
    assert !MonolithEqual([i], [j]);
  }
}
