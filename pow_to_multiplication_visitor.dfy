/** Simplifiers/PowToMultiplicationVisitor.cs: a rebuilding visitor that
    replaces `Pow(x, n)` by the left-nested product x * x * … * x of n
    copies of the parameter, so that the polynomial tools can read it. The
    exponent must be a double constant; it is cast to `int`, which
    truncates, and only 0 ≤ (int)n ≤ 10 is expanded. */
module PowToMultiplicationVisitor {
  import opened Wrappers
  import opened Expressions
  import PolynomialLongDivision

  /** The C# cast `(int)d`: truncation toward zero. A value outside the
      `int` range fails the 0..10 test whatever the cast makes of it, and so
      does its truncation here. */
  function Truncate(d: real): (n: int)
    ensures 0.0 <= d ==> 0 <= n && n as real <= d < n as real + 1.0
    ensures d < 0.0 ==> n <= 0 && n as real - 1.0 < d <= n as real
  {
    if d >= 0.0 then d.Floor else -((-d).Floor)
  }

  /** The exponent the rewrite accepts: a double constant whose truncation
      lies in 0..10. */
  function SmallExponent(arg: Expr): (n: Option<nat>)
    ensures n.Some? ==> n.value <= 10
  {
    if arg.Const? && arg.value.DoubleV? && 0 <= Truncate(arg.value.d) <= 10 then Some(Truncate(arg.value.d))
    else None
  }

  /** What `Pow(x, n)` becomes: the constant 1.0 for n = 0, otherwise the
      chain the `for` loop builds. */
  function Expansion(x: string, n: nat): (r: Expr)
    ensures Plain(r)
  {
    if n == 0 then Double(1.0)
    else
      ChainPlain(x, n);
      PolynomialLongDivision.PowerChain(x, n)
  }

  lemma {:induction false} ChainPlain(x: string, n: int)
    ensures Plain(PolynomialLongDivision.PowerChain(x, n))
    decreases n
  {
    if n > 1 {
      ChainPlain(x, n - 1);
    }
  }

  /** The `for` loop of `VisitMethodCall`. */
  method Expand(x: string, exponent: nat) returns (result: Expr)
    ensures result == Expansion(x, exponent)
  {
    var power := Param(x);
    var i := 1;
    while i < exponent
      invariant 1 <= i && (exponent >= 1 ==> i <= exponent)
      invariant power == PolynomialLongDivision.PowerChain(x, i)
    {
      power := Bin(Multiply, power, Param(x));
      i := i + 1;
    }
    result := if exponent == 0 then Double(1.0) else power;
  }

  /** `ReplacePow(expr, param)`: the stock traversal, with a `Pow` call of
      two arguments expanded when its visited base is the parameter and its
      exponent is a small double constant. Any other call, `Pow` included,
      is rebuilt from its visited arguments. */
  function Rewrite(e: Expr, x: string): (r: Expr)
    requires Plain(e)
    ensures Plain(r)
    decreases e, 1
  {
    match e
    case Call(m, args) =>
      var rest := RewriteList(args, x);
      if m.name == "Pow" && |args| == 2 then
        assert args[0] in args;
        if Rewrite(args[0], x) == Param(x) && SmallExponent(args[1]).Some? then
          Expansion(x, SmallExponent(args[1]).value)
        else Call(m, rest)
      else Call(m, rest)
    case Bin(op, l, r) => Bin(op, Rewrite(l, x), Rewrite(r, x))
    case Unary(u, y) => Unary(u, Rewrite(y, x))
    case Lambda(p, b) => Lambda(p, Rewrite(b, x))
    case _ => e
  }

  function RewriteList(args: seq<Expr>, x: string): (r: seq<Expr>)
    requires forall a | a in args :: Plain(a)
    ensures |r| == |args| && forall a | a in r :: Plain(a)
    decreases args
  {
    if args == [] then []
    else
      assert args[0] in args;
      [Rewrite(args[0], x)] + RewriteList(args[1..], x)
  }

  /** Pow(x, d) with 0 ≤ (int)d ≤ 10 becomes a product that denotes v to
      the truncated power, and 1.0 for a zero exponent. */
  lemma PowOfParameter(x: string, d: real, v: real)
    requires 0 <= Truncate(d) <= 10
    ensures Plain(Call(Method(true, "Pow"), [Param(x), Double(d)]))
    ensures Rewrite(Call(Method(true, "Pow"), [Param(x), Double(d)]), x) == Expansion(x, Truncate(d))
    ensures Denote(Expansion(x, Truncate(d)), x, v).Some?
    ensures Denote(Expansion(x, Truncate(d)), x, v).value == RealPow(v, Truncate(d))
  {
    assert Plain(Call(Method(true, "Pow"), [Param(x), Double(d)]));
    if Truncate(d) > 0 {
      PolynomialLongDivision.PowerChainDenotes(x, Truncate(d), v);
    }
  }

  /** A fractional exponent is truncated: Pow(x, 2.5) expands as x * x, and
      Pow(x, 0.5) as the constant 1.0. */
  lemma FractionalExponentTruncated(x: string)
    ensures Plain(Call(Method(true, "Pow"), [Param(x), Double(2.5)]))
    ensures Rewrite(Call(Method(true, "Pow"), [Param(x), Double(2.5)]), x) == Bin(Multiply, Param(x), Param(x))
    ensures Plain(Call(Method(true, "Pow"), [Param(x), Double(0.5)]))
    ensures Rewrite(Call(Method(true, "Pow"), [Param(x), Double(0.5)]), x) == Double(1.0)
  {
    assert Plain(Call(Method(true, "Pow"), [Param(x), Double(2.5)]));
    assert Plain(Call(Method(true, "Pow"), [Param(x), Double(0.5)]));
    assert Truncate(2.5) == 2;
    assert Truncate(0.5) == 0;
  }

  /** Calls that are kept: an exponent out of range or not a double
      constant, or a base other than the parameter; their arguments are
      still visited. */
  lemma KeptPowCalls(x: string, y: string)
    requires y != x
    ensures Plain(Call(Method(true, "Pow"), [Param(x), Double(11.0)]))
    ensures Rewrite(Call(Method(true, "Pow"), [Param(x), Double(11.0)]), x)
            == Call(Method(true, "Pow"), [Param(x), Double(11.0)])
    ensures Plain(Call(Method(true, "Pow"), [Param(x), Double(-1.0)]))
    ensures Rewrite(Call(Method(true, "Pow"), [Param(x), Double(-1.0)]), x)
            == Call(Method(true, "Pow"), [Param(x), Double(-1.0)])
    ensures Plain(Call(Method(true, "Pow"), [Param(x), Const(Int32V(2))]))
    ensures Rewrite(Call(Method(true, "Pow"), [Param(x), Const(Int32V(2))]), x)
            == Call(Method(true, "Pow"), [Param(x), Const(Int32V(2))])
    ensures Plain(Call(Method(true, "Pow"), [Param(y), Double(2.0)]))
    ensures Rewrite(Call(Method(true, "Pow"), [Param(y), Double(2.0)]), x)
            == Call(Method(true, "Pow"), [Param(y), Double(2.0)])
  {
    assert Plain(Call(Method(true, "Pow"), [Param(x), Double(11.0)]));
    NoPowUnchangedList([Param(x), Double(11.0)], x);
    assert Plain(Call(Method(true, "Pow"), [Param(x), Double(-1.0)]));
    NoPowUnchangedList([Param(x), Double(-1.0)], x);
    assert Plain(Call(Method(true, "Pow"), [Param(x), Const(Int32V(2))]));
    NoPowUnchangedList([Param(x), Const(Int32V(2))], x);
    assert Plain(Call(Method(true, "Pow"), [Param(y), Double(2.0)]));
    NoPowUnchangedList([Param(y), Double(2.0)], x);
  }

  /** The base is visited before it is tested: Pow(Pow(x, 1.0), 2.0)
      expands, inner call first, to x * x. */
  lemma NestedBaseExpands(x: string)
    ensures Plain(Call(Method(true, "Pow"), [Call(Method(true, "Pow"), [Param(x), Double(1.0)]), Double(2.0)]))
    ensures Rewrite(Call(Method(true, "Pow"), [Call(Method(true, "Pow"), [Param(x), Double(1.0)]), Double(2.0)]), x)
            == Bin(Multiply, Param(x), Param(x))
  {
    var inner := Call(Method(true, "Pow"), [Param(x), Double(1.0)]);
    assert Plain(inner);
    assert Rewrite(inner, x) == Param(x);
    assert Plain(Call(Method(true, "Pow"), [inner, Double(2.0)]));
  }

  /** No `Pow` call: nothing changes. */
  lemma {:induction false} NoPowUnchanged(e: Expr, x: string)
    requires Plain(e) && NoPow(e)
    ensures Rewrite(e, x) == e
    decreases e, 1
  {
    match e
    case Const(_) =>
    case Param(_) =>
    case Bin(_, l, r) =>
      NoPowUnchanged(l, x);
      NoPowUnchanged(r, x);
    case Unary(_, y) =>
      NoPowUnchanged(y, x);
    case Call(m, args) =>
      NoPowUnchangedList(args, x);
    case Lambda(_, b) =>
      NoPowUnchanged(b, x);
  }

  lemma {:induction false} NoPowUnchangedList(args: seq<Expr>, x: string)
    requires forall a | a in args :: Plain(a) && NoPow(a)
    ensures RewriteList(args, x) == args
    decreases args
  {
    if args != [] {
      NoPowUnchanged(args[0], x);
      NoPowUnchangedList(args[1..], x);
    }
  }

  /** No two-argument call named Pow anywhere in the tree. */
  predicate NoPow(e: Expr)
    decreases e
  {
    match e
    case Bin(_, l, r) => NoPow(l) && NoPow(r)
    case Unary(_, y) => NoPow(y)
    case Call(m, args) => !(m.name == "Pow" && |args| == 2) && forall a | a in args :: NoPow(a)
    case Lambda(_, b) => NoPow(b)
    case _ => true
  }
}
