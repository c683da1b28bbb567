/** ZeroSolver/ExponentialZeroSolver.cs, its shape tests: which inner
    equation g = 0 stands for exp(g) − 1 = 0. A difference exp(g) − 1 or
    1 − exp(g) names g directly; failing that, the argument of the first
    `Math.Exp` call the `ExpFinderVisitor` meets is taken. Solving g = 0
    goes back to `UniversalZeroSolver`, so that half of `FindRoots` lives in
    the module of the same name. */
module ExponentialZeroSolver {
  import opened Wrappers
  import opened Expressions

  /** `IsExpCall`: a single-argument `Math.Exp` call. */
  predicate IsExpCall(e: Expr) {
    e.Call? && e.fn.isMath && e.fn.name == "Exp" && |e.args| == 1
  }

  /** `IsOneLike`: an int, long, double, float or decimal equal to one;
      a `BigInteger` or null is not. */
  predicate IsOneLike(v: Value) {
    match v
    case Int32V(i) => i == 1
    case Int64V(l) => l == 1
    case DoubleV(d) => d == 1.0
    case SingleV(f) => f == 1.0
    case DecimalV(m, s) => m == Pow10(s)
    case _ => false
  }

  /** `IsExpMinusOne`: the argument g of exp(g) − 1 or 1 − exp(g), left
      shape first. */
  function ExpMinusOne(e: Expr): (r: Option<Expr>)
    ensures r.Some? ==> Size(r.value) < Size(e) && (Plain(e) ==> Plain(r.value))
  {
    if e.Bin? && e.op == Subtract then
      if IsExpCall(e.left) && e.right.Const? && IsOneLike(e.right.value) then
        ExpArgument(e.left)
      else if IsExpCall(e.right) && e.left.Const? && IsOneLike(e.left.value) then
        ExpArgument(e.right)
      else None
    else None
  }

  /** The argument of an Exp call, a strict part of it. */
  function ExpArgument(call: Expr): (r: Option<Expr>)
    requires IsExpCall(call)
    ensures r.Some? && r.value == call.args[0]
    ensures Size(r.value) < Size(call) && (Plain(call) ==> Plain(r.value))
  {
    assert call.args[0] in call.args;
    assert SizeList(call.args) == Size(call.args[0]) + SizeList(call.args[1..]);
    Some(call.args[0])
  }

  /** The argument of the first single-argument `Math.Exp` call in visit
      order; it is a strict part of the tree. */
  function FirstExp(e: Expr): (r: Option<Expr>)
    requires Plain(e)
    ensures r.Some? ==> Size(r.value) < Size(e) && Plain(r.value)
    decreases e, 1
  {
    match e
    case Bin(_, l, r) => Or(FirstExp(l), FirstExp(r))
    case Unary(_, y) => FirstExp(y)
    case Call(_, args) =>
      if IsExpCall(e) then ExpArgument(e)
      else FirstExpList(args)
    case Lambda(_, b) => FirstExp(b)
    case _ => None
  }

  function FirstExpList(args: seq<Expr>): (r: Option<Expr>)
    requires forall a | a in args :: Plain(a)
    ensures r.Some? ==> Size(r.value) < SizeList(args) && Plain(r.value)
    decreases args
  {
    if args == [] then None
    else
      assert args[0] in args;
      Or(FirstExp(args[0]), FirstExpList(args[1..]))
  }

  /** The first of two findings. */
  function Or(a: Option<Expr>, b: Option<Expr>): Option<Expr> {
    if a.Some? then a else b
  }

  /** `ExpFinderVisitor`: `VisitMethodCall` records the argument of an Exp
      call while nothing is recorded, then visits the call's arguments. */
  class ExpFinderVisitor {
    var foundExpArgument: Option<Expr>

    constructor ()
      ensures foundExpArgument == None
    {
      foundExpArgument := None;
    }

    method Visit(e: Expr)
      requires Plain(e)
      modifies this
      ensures foundExpArgument == Or(old(foundExpArgument), FirstExp(e))
      decreases e, 1
    {
      match e
      case Const(_) =>
      case Param(_) =>
      case Bin(_, l, r) =>
        Visit(l);
        Visit(r);
      case Unary(_, y) =>
        Visit(y);
      case Call(_, args) =>
        if IsExpCall(e) && foundExpArgument == None {
          foundExpArgument := Some(args[0]);
        }
        VisitList(args);
      case Lambda(_, b) =>
        Visit(b);
    }

    method VisitList(args: seq<Expr>)
      requires forall a | a in args :: Plain(a)
      modifies this
      ensures foundExpArgument == Or(old(foundExpArgument), FirstExpList(args))
      decreases args
    {
      if args != [] {
        Visit(args[0]);
        VisitList(args[1..]);
      }
    }
  }

  /** The inner expression `FindRoots` hands on: the difference shape, then
      the always-failing `IsDirectExpEqualsOne`, then the visitor's
      finding. It is a strict part of the tree, which is what makes the
      recursion through `UniversalZeroSolver` terminate. */
  function Inner(e: Expr): (r: Option<Expr>)
    requires Plain(e)
    ensures r.Some? ==> Size(r.value) < Size(e) && Plain(r.value)
  {
    var direct := ExpMinusOne(e);
    if direct.Some? then direct
    else FirstExp(e)
  }

  /** `FindInner`: the method form, running the visitor when the difference
      shape does not match. */
  method FindInner(e: Expr) returns (inner: Option<Expr>)
    requires Plain(e)
    ensures inner == Inner(e)
  {
    inner := ExpMinusOne(e);
    if inner.None? {
      var visitor := new ExpFinderVisitor();
      visitor.Visit(e);
      inner := visitor.foundExpArgument;
    }
  }

  /** exp(g) − 1 and 1 − exp(g) name g whatever numeric type the one has;
      a `BigInteger` one, or a sum, does not match the difference shape. */
  lemma DifferenceShapes(g: Expr, one: Value)
    requires Plain(g) && IsOneLike(one)
    ensures Inner(Bin(Subtract, Math("Exp", [g]), Const(one))) == Some(g)
    ensures Inner(Bin(Subtract, Const(one), Math("Exp", [g]))) == Some(g)
    ensures ExpMinusOne(Bin(Subtract, Math("Exp", [g]), Const(BigIntegerV(1)))) == None
    ensures ExpMinusOne(Bin(Add, Math("Exp", [g]), Const(one))) == None
  {
    assert Plain(Math("Exp", [g]));
  }

  /** The first Exp call in visit order wins: in exp(a) + exp(b) it is a,
      and inside exp(exp(c)) it is the outer argument exp(c). */
  lemma FirstCallWins(a: Expr, b: Expr, c: Expr)
    requires Plain(a) && Plain(b) && Plain(c)
    ensures Inner(Bin(Add, Math("Exp", [a]), Math("Exp", [b]))) == Some(a)
    ensures Inner(Math("Exp", [Math("Exp", [c])])) == Some(Math("Exp", [c]))
  {
    assert Plain(Math("Exp", [a])) && Plain(Math("Exp", [b]));
    assert FirstExp(Math("Exp", [a])) == Some(a);
    assert Plain(Math("Exp", [c]));
  }

  /** A tree without an Exp call gives nothing to solve. */
  lemma {:induction false} NoExpNothing(e: Expr)
    requires Plain(e)
    requires NoExpCall(e)
    ensures FirstExp(e) == None
    decreases e, 1
  {
    match e
    case Const(_) =>
    case Param(_) =>
    case Bin(_, l, r) =>
      NoExpNothing(l);
      NoExpNothing(r);
    case Unary(_, y) =>
      NoExpNothing(y);
    case Call(_, args) =>
      NoExpNothingList(args);
    case Lambda(_, b) =>
      NoExpNothing(b);
  }

  lemma {:induction false} NoExpNothingList(args: seq<Expr>)
    requires forall a | a in args :: Plain(a) && NoExpCall(a)
    ensures FirstExpList(args) == None
    decreases args
  {
    if args != [] {
      NoExpNothing(args[0]);
      NoExpNothingList(args[1..]);
    }
  }

  /** No single-argument `Math.Exp` call anywhere in the tree. */
  predicate NoExpCall(e: Expr)
    decreases e
  {
    match e
    case Bin(_, l, r) => NoExpCall(l) && NoExpCall(r)
    case Unary(_, y) => NoExpCall(y)
    case Call(_, args) => !IsExpCall(e) && forall a | a in args :: NoExpCall(a)
    case Lambda(_, b) => NoExpCall(b)
    case _ => true
  }
}
