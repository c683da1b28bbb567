/** Phases/StandardOperationsPhase.cs: phase 5, a bottom-up rebuilding
    visitor with two local rules, 1·x → x and 0 + x → x (either operand
    order, the left one tested first). Only a `double` constant matches, and
    it matches when it lies strictly within `double.Epsilon` of 1 or of 0.
    Singularity extension nodes are returned as they are, without
    descending into them. */
module StandardOperationsPhase {
  import opened Wrappers
  import opened Expressions
  import RealMath

  /** `IsConstantOne`: a boxed double d with |d − 1| < double.Epsilon. */
  predicate IsConstantOne(e: Expr) {
    e.Const? && e.value.DoubleV? && RealMath.Abs(e.value.d - 1.0) < RealMath.DoubleEpsilon
  }

  /** `IsConstantZero`: a boxed double d with |d| < double.Epsilon. */
  predicate IsConstantZero(e: Expr) {
    e.Const? && e.value.DoubleV? && RealMath.Abs(e.value.d) < RealMath.DoubleEpsilon
  }

  /** The rules applied to a binary node whose operands are already
      visited: a Multiply with a constant one drops it, an Add with a
      constant zero drops it, and every other node is rebuilt. */
  function Rule(op: BinOp, l: Expr, r: Expr): (e: Expr)
    ensures e == l || e == r || e == Bin(op, l, r)
    ensures e != Bin(op, l, r) ==> (op == Multiply || op == Add)
    ensures e != Bin(op, l, r) && e == r ==> (if op == Multiply then IsConstantOne(l) else IsConstantZero(l))
    ensures e != Bin(op, l, r) && e != r ==> (if op == Multiply then IsConstantOne(r) else IsConstantZero(r))
  {
    if op == Multiply && IsConstantOne(l) then r
    else if op == Multiply && IsConstantOne(r) then l
    else if op == Add && IsConstantZero(l) then r
    else if op == Add && IsConstantZero(r) then l
    else Bin(op, l, r)
  }

  /** `Apply(expr)` = `StandardOperationsVisitor.Visit(expr)`. */
  function Apply(e: Expr): Expr
    decreases e, 1
  {
    match e
    case Bin(op, l, r) => Rule(op, Apply(l), Apply(r))
    case Unary(u, y) => Unary(u, Apply(y))
    case Call(m, args) => Call(m, ApplyList(args))
    case Lambda(p, b) => Lambda(p, Apply(b))
    case _ => e
  }

  function ApplyList(args: seq<Expr>): (r: seq<Expr>)
    ensures |r| == |args|
    ensures forall i | 0 <= i < |args| :: r[i] == Apply(args[i])
    decreases args
  {
    if args == [] then [] else [Apply(args[0])] + ApplyList(args[1..])
  }

  /** No Multiply has a constant one operand and no Add a constant zero
      operand, outside singularity nodes. */
  predicate Normal(e: Expr) {
    match e
    case Bin(op, l, r) =>
      && Normal(l) && Normal(r)
      && (op == Multiply ==> !IsConstantOne(l) && !IsConstantOne(r))
      && (op == Add ==> !IsConstantZero(l) && !IsConstantZero(r))
    case Unary(_, y) => Normal(y)
    case Call(_, args) => forall a | a in args :: Normal(a)
    case Lambda(_, b) => Normal(b)
    case _ => true
  }

  /** After the pass no rule applies anywhere. */
  lemma {:induction false} ApplyIsNormal(e: Expr)
    ensures Normal(Apply(e))
    decreases e
  {
    match e
    case Bin(op, l, r) =>
      ApplyIsNormal(l);
      ApplyIsNormal(r);
    case Unary(_, y) =>
      ApplyIsNormal(y);
    case Call(m, args) =>
      forall a | a in ApplyList(args)
        ensures Normal(a)
      {
        var i :| 0 <= i < |args| && ApplyList(args)[i] == a;
        ApplyIsNormal(args[i]);
      }
    case Lambda(_, b) =>
      ApplyIsNormal(b);
    case _ =>
  }

  /** A tree in which no rule applies is returned as it is. */
  lemma {:induction false} NormalUnchanged(e: Expr)
    requires Normal(e)
    ensures Apply(e) == e
    decreases e
  {
    match e
    case Bin(op, l, r) =>
      NormalUnchanged(l);
      NormalUnchanged(r);
    case Unary(_, y) =>
      NormalUnchanged(y);
    case Call(m, args) =>
      forall i | 0 <= i < |args|
        ensures ApplyList(args)[i] == args[i]
      {
        assert args[i] in args;
        NormalUnchanged(args[i]);
      }
      assert ApplyList(args) == args;
    case Lambda(_, b) =>
      NormalUnchanged(b);
    case _ =>
  }

  /** A second pass changes nothing. */
  lemma Idempotent(e: Expr)
    ensures Apply(Apply(e)) == Apply(e)
  {
    ApplyIsNormal(e);
    NormalUnchanged(Apply(e));
  }

  /** The singularity nodes of a tree, in visiting order, not looking
      inside them. */
  function Singular(e: Expr): seq<Expr>
    decreases e, 1
  {
    match e
    case Bin(_, l, r) => Singular(l) + Singular(r)
    case Unary(_, y) => Singular(y)
    case Call(_, args) => SingularList(args)
    case Lambda(_, b) => Singular(b)
    case Infinity(_) => [e]
    case Bridged(_, _, _, _) => [e]
    case Monolith(_, _) => [e]
    case _ => []
  }

  function SingularList(args: seq<Expr>): seq<Expr>
    decreases args
  {
    if args == [] then [] else Singular(args[0]) + SingularList(args[1..])
  }

  /** Every singularity node comes through the pass unchanged, in the same
      order, and none is added or lost: a rule only ever drops a constant. */
  lemma {:induction false} SingularKept(e: Expr)
    ensures Singular(Apply(e)) == Singular(e)
    decreases e, 1
  {
    match e
    case Bin(op, l, r) =>
      SingularKept(l);
      SingularKept(r);
      var l', r' := Apply(l), Apply(r);
      if IsConstantOne(l') || IsConstantZero(l') {
        assert Singular(l') == [];
      }
      if IsConstantOne(r') || IsConstantZero(r') {
        assert Singular(r') == [];
      }
    case Unary(_, y) =>
      SingularKept(y);
    case Call(_, args) =>
      SingularListKept(args);
    case Lambda(_, b) =>
      SingularKept(b);
    case _ =>
  }

  lemma {:induction false} SingularListKept(args: seq<Expr>)
    ensures SingularList(ApplyList(args)) == SingularList(args)
    decreases args
  {
    if args != [] {
      SingularKept(args[0]);
      SingularListKept(args[1..]);
      assert ApplyList(args)[1..] == ApplyList(args[1..]);
    }
  }

  /** A constant that the epsilon tests treat as 1 or 0 is exactly 1 or 0;
      every IEEE double is so, since none lies strictly within
      `double.Epsilon` of 0 or 1 besides 0 and 1 themselves. */
  predicate OnGrid(e: Expr) {
    match e
    case Const(DoubleV(d)) =>
      (RealMath.Abs(d - 1.0) < RealMath.DoubleEpsilon ==> d == 1.0)
      && (RealMath.Abs(d) < RealMath.DoubleEpsilon ==> d == 0.0)
    case Const(_) => true
    case Param(_) => true
    case Bin(_, l, r) => OnGrid(l) && OnGrid(r)
    case Unary(_, y) => OnGrid(y)
    case Call(_, args) => forall a | a in args :: OnGrid(a)
    case Lambda(_, b) => OnGrid(b)
    case _ => true
  }

  /** On such a tree the constant the tests take for one is 1.0 and the
      one they take for zero is 0.0. */
  lemma Exact(e: Expr)
    requires OnGrid(e)
    ensures IsConstantOne(e) ==> e == Double(1.0)
    ensures IsConstantZero(e) ==> e == Double(0.0)
  {
  }

  /** The rules keep the value of the node they rewrite. */
  lemma RuleValue(op: BinOp, l: Expr, r: Expr, x: string, v: real)
    requires OnGrid(l) && OnGrid(r)
    ensures Denote(Rule(op, l, r), x, v) == Combine(op, Denote(l, x, v), Denote(r, x, v))
  {
    var e := Rule(op, l, r);
    if e != Bin(op, l, r) {
      if e == r {
        Exact(l);
        UnitDropped(op, l, r, x, v);
      } else {
        Exact(r);
        UnitDropped(op, r, l, x, v);
      }
    }
  }

  /** Dropping a unit of the operator, on either side, keeps the value. */
  lemma UnitDropped(op: BinOp, u: Expr, y: Expr, x: string, v: real)
    requires (op == Multiply && u == Double(1.0)) || (op == Add && u == Double(0.0))
    ensures Combine(op, Denote(u, x, v), Denote(y, x, v)) == Denote(y, x, v)
    ensures Combine(op, Denote(y, x, v), Denote(u, x, v)) == Denote(y, x, v)
  {
    var b := Denote(y, x, v);
    if b.Some? {
      assert Combine(op, Denote(u, x, v), b).value == b.value;
      assert Combine(op, b, Denote(u, x, v)).value == b.value;
    }
  }

  lemma {:induction false} GridKept(e: Expr)
    requires OnGrid(e)
    ensures OnGrid(Apply(e))
    decreases e
  {
    match e
    case Bin(op, l, r) =>
      GridKept(l);
      GridKept(r);
    case Unary(_, y) =>
      GridKept(y);
    case Call(m, args) =>
      forall a | a in ApplyList(args)
        ensures OnGrid(a)
      {
        var i :| 0 <= i < |args| && ApplyList(args)[i] == a;
        GridKept(args[i]);
      }
    case Lambda(_, b) =>
      GridKept(b);
    case _ =>
  }

  /** On such trees the pass keeps the value at every point: 1·x and
      0 + x denote what x denotes. */
  lemma {:induction false} ValueKept(e: Expr, x: string, v: real)
    requires OnGrid(e)
    ensures Denote(Apply(e), x, v) == Denote(e, x, v)
    decreases e
  {
    match e
    case Bin(op, l, r) =>
      ValueKept(l, x, v);
      ValueKept(r, x, v);
      GridKept(l);
      GridKept(r);
      RuleValue(op, Apply(l), Apply(r), x, v);
    case Unary(_, y) =>
      ValueKept(y, x, v);
    case _ =>
  }

  /** Subtract, Divide and the other operators are never rewritten, and
      only a double constant is taken for one or zero. */
  lemma OnlyAddAndMultiply(op: BinOp, l: Expr, r: Expr)
    requires op != Add && op != Multiply
    ensures Apply(Bin(op, l, r)) == Bin(op, Apply(l), Apply(r))
  {
  }

  lemma OnlyDoubles()
    ensures IsConstantOne(Double(1.0)) && IsConstantZero(Double(0.0))
    ensures !IsConstantOne(Const(Int32V(1))) && !IsConstantZero(Const(Int32V(0)))
    ensures !IsConstantOne(Const(DecimalV(1, 0))) && !IsConstantOne(Double(2.0))
    ensures Apply(Bin(Multiply, Const(Int32V(1)), Param("x"))) == Bin(Multiply, Const(Int32V(1)), Param("x"))
  {
    RealMath.DoubleEpsilonPositive();
  }
}
