/** ZeroSolver/SingularitySolver.cs: the final denominator solver. It walks
    the denominator by cases, collecting (parameter, value) pairs into a
    shared hash set: a bare parameter gives 0, a product gives the roots of
    both factors, a sum or difference gives the root of a linear form and
    the roots of a quadratic form, and `Log(x)` gives 1. */
module ZeroSingularitySolver {
  import opened Wrappers
  import opened Expressions
  import opened RealMath
  import PolynomialParser
  import SingularitySolver

  type Quad = PolynomialParser.Quad

  /** A (parameter, value) pair; one parameter object per name. */
  type Pair = (string, real)

  // ---------------------------------------------------------------------
  // The specification of `CollectRoots`.
  // ---------------------------------------------------------------------

  /** `TryGetDouble` on a constant's value: a boxed double, int or float;
      null and every other type give false. */
  function GetDouble(v: Value): (r: Option<real>)
    ensures r.Some? <==> v.DoubleV? || v.Int32V? || v.SingleV?
    ensures r.Some? ==> Number(v) == r
  {
    match v
    case DoubleV(d) => Some(d)
    case Int32V(i) => Some(i as real)
    case SingleV(f) => Some(f)
    case _ => None
  }

  /** `TryGetDouble(e as ConstantExpression, ...)`: a node that is not a
      constant reaches `TryGetDouble` as null. */
  function ConstDouble(e: Expr): Option<real> {
    if e.Const? then GetDouble(e.value) else None
  }

  /** The out-parameters of `TryExtractLinear` when it returns true. */
  datatype Linear = Linear(param: string, a: real, b: real)

  /** `TryExtractLinear`: c * p ± b, with c and b readable constants, gives
      (p, c, b); p ± b gives (p, 1, b); anything else gives false. */
  function LinearForm(l: Expr, r: Expr): Option<Linear> {
    if l.Bin? && l.op == Multiply && l.left.Const? && l.right.Param? && GetDouble(l.left.value).Some? && ConstDouble(r).Some? then
      Some(Linear(l.right.name, GetDouble(l.left.value).value, ConstDouble(r).value))
    else if l.Param? && ConstDouble(r).Some? then
      Some(Linear(l.name, 1.0, ConstDouble(r).value))
    else None
  }

  /** The linear root: b/a under Subtract and −b/a under Add, kept only when
      |a| > 1e-10. */
  function LinearRoots(op: BinOp, l: Expr, r: Expr): set<Pair> {
    var f := LinearForm(l, r);
    if f.Some? && Abs(f.value.a) > Tolerance then
      {(f.value.param, if op == Subtract then f.value.b / f.value.a else -f.value.b / f.value.a)}
    else {}
  }

  /** The quadratic roots: with a readable constant right operand c, the
      left operand is parsed by `PolynomialParser.ParseQuadratic`, its own
      constant term is replaced by ±c (− under Subtract), and when
      |a| > `double.Epsilon` the roots of a·x² + b·x ± c are added. */
  function QuadraticRoots(op: BinOp, l: Expr, r: Expr, sqrt: real -> real): Result<set<Pair>>
    requires Plain(l)
  {
    var c := ConstDouble(r);
    if c.None? then Ok({})
    else
      var parsed :- PolynomialParser.ParseQuadraticSpec(l);
      if parsed.None? || Abs(parsed.value.a) <= DoubleEpsilon then Ok({})
      else Ok(QuadRoots(parsed.value.(c := EffectiveC(op, c.value)), sqrt))
  }

  /** `effectiveC = sign * cValue`, the sign being −1 under Subtract. */
  function EffectiveC(op: BinOp, c: real): (r: real)
    ensures r == if op == Subtract then -c else c
  {
    var sign := if op == Subtract then -1.0 else 1.0;
    sign * c
  }

  /** (−b + √D)/2a when D ≥ 0, and also (−b − √D)/2a when D > 0. */
  function QuadRoots(q: Quad, sqrt: real -> real): set<Pair>
    requires q.a != 0.0
  {
    var d := SingularitySolver.Discriminant(q);
    if d < 0.0 then {}
    else {(q.param, SingularitySolver.Vertex(q, sqrt(d)))}
         + (if d > 0.0 then {(q.param, SingularitySolver.Vertex(q, -sqrt(d)))} else {})
  }

  /** What `CollectRoots(e, roots)` adds to `roots`, or the exception it
      lets through. */
  function Contributions(e: Expr, sqrt: real -> real): Result<set<Pair>>
    requires Plain(e)
  {
    match e
    case Param(n) => Ok({(n, 0.0)})
    case Bin(op, l, r) =>
      if op == Multiply then
        var left :- Contributions(l, sqrt);
        var right :- Contributions(r, sqrt);
        Ok(left + right)
      else if op == Subtract || op == Add then
        var quadratic :- QuadraticRoots(op, l, r, sqrt);
        Ok(LinearRoots(op, l, r) + quadratic)
      else Ok({})
    case Call(m, args) =>
      if m.name == "Log" && |args| == 1 && args[0].Param? then Ok({(args[0].name, 1.0)}) else Ok({})
    case _ => Ok({})
  }

  // ---------------------------------------------------------------------
  // The solver.
  // ---------------------------------------------------------------------

  /** The `HashSet<(ParameterExpression, double)>` the roots are added to. */
  class RootSet {
    var items: set<Pair>

    constructor ()
      ensures items == {}
    {
      items := {};
    }

    method Add(p: Pair)
      modifies this
      ensures items == old(items) + {p}
    {
      items := items + {p};
    }
  }

  /** `TryGetDouble`: false, with 0, unless the node is a constant holding a
      double, an int or a float. */
  method TryGetDouble(e: Expr) returns (ok: bool, val: real)
    ensures ok <==> ConstDouble(e).Some?
    ensures ok ==> val == ConstDouble(e).value
    ensures !ok ==> val == 0.0
  {
    val := 0.0;
    if !e.Const? || e.value.NullV? {
      return false, val;
    }
    match e.value
    case DoubleV(d) => return true, d;
    case Int32V(i) => return true, i as real;
    case SingleV(f) => return true, f;
    case _ => return false, val;
  }

  /** `TryExtractLinear` on the operands of a sum or difference. */
  method TryExtractLinear(l: Expr, r: Expr) returns (ok: bool, param: Option<string>, a: real, b: real)
    ensures ok <==> LinearForm(l, r).Some?
    ensures ok ==> param == Some(LinearForm(l, r).value.param)
    ensures ok ==> a == LinearForm(l, r).value.a && b == LinearForm(l, r).value.b
  {
    param, a, b := None, 1.0, 0.0;
    if l.Bin? && l.op == Multiply && l.left.Const? && l.right.Param? {
      var got;
      got, a := TryGetDouble(l.left);
      if got {
        param := Some(l.right.name);
        got, b := TryGetDouble(r);
        if got {
          return true, param, a, b;
        }
      }
    }
    if l.Param? && r.Const? {
      param := Some(l.name);
      a := 1.0;
      var got;
      got, b := TryGetDouble(r);
      if got {
        return true, param, a, b;
      }
    }
    ok := false;
  }

  /** The quadratic branch of `CollectRoots`. */
  method AddQuadraticRoots(op: BinOp, l: Expr, r: Expr, roots: RootSet, sqrt: real -> real) returns (thrown: Option<Exn>)
    requires Plain(l)
    modifies roots
    ensures QuadraticRoots(op, l, r, sqrt).Throw? <==> thrown.Some?
    ensures thrown.Some? ==> thrown.value == QuadraticRoots(op, l, r, sqrt).error
    ensures QuadraticRoots(op, l, r, sqrt).Ok? ==> roots.items == old(roots.items) + QuadraticRoots(op, l, r, sqrt).value
  {
    thrown := None;
    var got, cValue := TryGetDouble(r);
    if !got {
      return;
    }
    var effectiveC := EffectiveC(op, cValue);
    var quad;
    quad, thrown := PolynomialParser.ParseQuadratic(l);
    if thrown.Some? || quad.None? {
      return;
    }
    var q := quad.value.(c := effectiveC);
    if Abs(q.a) > DoubleEpsilon {
      DoubleEpsilonPositive();
      QuadraticRootsFound(op, l, r, sqrt, quad.value, cValue);
      assert QuadraticRoots(op, l, r, sqrt) == Ok(QuadRoots(q, sqrt));
      var discriminant := SingularitySolver.Discriminant(q);
      if discriminant >= 0.0 {
        var sqrtD := sqrt(discriminant);
        roots.Add((q.param, SingularitySolver.Vertex(q, sqrtD)));
        if discriminant > 0.0 {
          roots.Add((q.param, SingularitySolver.Vertex(q, -sqrtD)));
        }
      }
      assert roots.items == old(roots.items) + QuadRoots(q, sqrt);
    } else {
      assert QuadraticRoots(op, l, r, sqrt) == Ok({});
    }
  }

  /** The parsed coefficients with the constant term replaced by ±c give
      the quadratic roots. */
  lemma QuadraticRootsFound(op: BinOp, l: Expr, r: Expr, sqrt: real -> real, p: Quad, c: real)
    requires Plain(l) && ConstDouble(r) == Some(c) && PolynomialParser.ParseQuadraticSpec(l) == Ok(Some(p))
    requires Abs(p.a) > DoubleEpsilon && DoubleEpsilon > 0.0
    ensures QuadraticRoots(op, l, r, sqrt) == Ok(QuadRoots(p.(c := EffectiveC(op, c)), sqrt))
  {
  }

  /** `CollectRoots`: adds the roots of e to the shared set. */
  method CollectRoots(e: Expr, roots: RootSet, sqrt: real -> real) returns (thrown: Option<Exn>)
    requires Plain(e)
    modifies roots
    ensures Contributions(e, sqrt).Throw? <==> thrown.Some?
    ensures thrown.Some? ==> thrown.value == Contributions(e, sqrt).error
    ensures Contributions(e, sqrt).Ok? ==> roots.items == old(roots.items) + Contributions(e, sqrt).value
    decreases e
  {
    thrown := None;
    match e
    case Param(n) =>
      roots.Add((n, 0.0));
    case Bin(op, l, r) =>
      if op == Multiply {
        thrown := CollectRoots(l, roots, sqrt);
        if thrown.Some? {
          return;
        }
        thrown := CollectRoots(r, roots, sqrt);
        return;
      }
      if op == Subtract || op == Add {
        var ok, paramLinear, a, b := TryExtractLinear(l, r);
        if ok && Abs(a) > Tolerance {
          var rootVal := if op == Subtract then b / a else -b / a;
          roots.Add((paramLinear.value, rootVal));
        }
        thrown := AddQuadraticRoots(op, l, r, roots, sqrt);
      }
    case Call(m, args) =>
      if m.name == "Log" && |args| == 1 && args[0].Param? {
        roots.Add((args[0].name, 1.0));
      }
    case _ =>
  }

  /** `HashSet.ToList()`: every element once, in an order the model leaves
      open. */
  method ToList(s: set<Pair>) returns (r: seq<Pair>)
    ensures forall p :: p in r <==> p in s
    ensures forall i, j | 0 <= i < j < |r| :: r[i] != r[j]
  {
    r := [];
    var rest := s;
    while rest != {}
      invariant rest <= s
      invariant forall p :: p in r <==> p in s && p !in rest
      invariant forall i, j | 0 <= i < j < |r| :: r[i] != r[j]
      decreases |rest|
    {
      var p :| p in rest;
      r := r + [p];
      rest := rest - {p};
    }
  }

  /** `SolveRoot`: the collected pairs, each once. */
  method SolveRoot(e: Expr, sqrt: real -> real) returns (roots: seq<Pair>, thrown: Option<Exn>)
    requires Plain(e)
    ensures Contributions(e, sqrt).Throw? <==> thrown.Some?
    ensures thrown.Some? ==> thrown.value == Contributions(e, sqrt).error
    ensures Contributions(e, sqrt).Ok? ==> forall p :: p in roots <==> p in Contributions(e, sqrt).value
    ensures forall i, j | 0 <= i < j < |roots| :: roots[i] != roots[j]
  {
    var collected := new RootSet();
    thrown := CollectRoots(e, collected, sqrt);
    roots := [];
    if thrown.None? {
      roots := ToList(collected.items);
    }
  }

  // ---------------------------------------------------------------------
  // Which roots are zeros.
  // ---------------------------------------------------------------------

  /** c * x with a readable constant c, or x itself. */
  predicate LinearLeft(l: Expr, x: string) {
    l == Param(x) || (l.Bin? && l.op == Multiply && l.left.Const? && GetDouble(l.left.value).Some? && l.right == Param(x))
  }

  /** The denominators whose collected roots are all zeros of the
      denominator: x, products of such denominators, and sums or
      differences of a readable constant with c * x, with x, or with a
      tree the quadratic parser reads correctly that vanishes at 0. */
  predicate Solvable(e: Expr, x: string) {
    match e
    case Param(n) => n == x
    case Bin(Multiply, l, r) => Solvable(l, x) && Solvable(r, x)
    case Bin(Add, l, r) => SolvableSum(l, r, x)
    case Bin(Subtract, l, r) => SolvableSum(l, r, x)
    case _ => false
  }

  predicate SolvableSum(l: Expr, r: Expr, x: string) {
    ConstDouble(r).Some? && (LinearLeft(l, x) || (PolynomialParser.QuadShape(l, x) && Denote(l, x, 0.0) == Some(0.0)))
  }

  /** The linear root of c * x ± b or x ± b is a zero of it. */
  lemma LinearRootIsZero(op: BinOp, l: Expr, r: Expr, x: string, p: Pair)
    requires op == Add || op == Subtract
    requires ConstDouble(r).Some? && LinearLeft(l, x) && p in LinearRoots(op, l, r)
    ensures p.0 == x && Denote(Bin(op, l, r), x, p.1) == Some(0.0)
  {
    var f := LinearForm(l, r).value;
    var v := p.1;
    assert v == if op == Subtract then f.b / f.a else -f.b / f.a;
    assert Denote(r, x, v) == Some(f.b);
    assert f.a != 0.0;
    if l == Param(x) {
      assert Denote(l, x, v) == Some(v);
    } else {
      assert Number(l.left.value) == Some(f.a);
      assert Denote(l.left, x, v) == Some(f.a) && Denote(l.right, x, v) == Some(v);
      assert Denote(l, x, v) == Combine(Multiply, Some(f.a), Some(v));
      assert Denote(l, x, v).Some? && Denote(l, x, v).value == f.a * v;
      if op == Subtract {
        assert f.a * (f.b / f.a) == f.b;
      } else {
        assert f.a * (-f.b / f.a) == -f.b;
      }
    }
    SignedZero(op, Denote(l, x, v).value, f.b);
  }

  /** The pairs `QuadRoots` adds are zeros of a·x² + b·x + c. */
  lemma QuadRootsAreZeros(q: Quad, sqrt: real -> real, p: Pair)
    requires q.a != 0.0 && IsSqrt(sqrt) && p in QuadRoots(q, sqrt)
    ensures p.0 == q.param && PolynomialParser.QuadValue(q, p.1) == 0.0
  {
    var d := SingularitySolver.Discriminant(q);
    var s := if p == (q.param, SingularitySolver.Vertex(q, sqrt(d))) then sqrt(d) else -sqrt(d);
    assert s * s == d;
    SingularitySolver.VertexIsZero(q, s);
  }

  /** The quadratic roots of a tree that vanishes at 0, read correctly by
      the parser, are zeros of the sum or difference with the constant. */
  lemma QuadraticRootIsZero(op: BinOp, l: Expr, r: Expr, x: string, sqrt: real -> real, p: Pair)
    requires op == Add || op == Subtract
    requires ConstDouble(r).Some? && PolynomialParser.QuadShape(l, x) && Denote(l, x, 0.0) == Some(0.0) && IsSqrt(sqrt)
    requires Plain(l) && QuadraticRoots(op, l, r, sqrt).Ok? && p in QuadraticRoots(op, l, r, sqrt).value
    ensures p.0 == x && Denote(Bin(op, l, r), x, p.1) == Some(0.0)
  {
    var c := ConstDouble(r).value;
    var v := p.1;
    var q0 := ParsedValue(l, x, v);
    var q := q0.(c := EffectiveC(op, c));
    DoubleEpsilonPositive();
    assert p in QuadRoots(q, sqrt);
    QuadRootsAreZeros(q, sqrt, p);
    QuadValueShift(q0, EffectiveC(op, c), v);
    assert Denote(r, x, v) == Some(c);
    SignedZero(op, Denote(l, x, v).value, c);
  }

  /** Replacing the constant term shifts the value by the difference. */
  lemma QuadValueShift(q: Quad, k: real, v: real)
    ensures PolynomialParser.QuadValue(q.(c := k), v) == PolynomialParser.QuadValue(q, v) - q.c + k
  {
  }

  /** The parse of such a tree, when it records a parameter. */
  lemma ParsedValue(l: Expr, x: string, v: real) returns (q: Quad)
    requires PolynomialParser.QuadShape(l, x) && Denote(l, x, 0.0) == Some(0.0)
    requires Plain(l) && PolynomialParser.ParseQuadraticSpec(l).Ok? && PolynomialParser.ParseQuadraticSpec(l).value.Some?
    ensures PolynomialParser.ParseQuadraticSpec(l) == Ok(Some(q)) && q.param == x && q.c == 0.0
    ensures Denote(l, x, v).Some? && Denote(l, x, v).value == PolynomialParser.QuadValue(q, v)
  {
    q := PolynomialParser.ParseQuadraticSpec(l).value.value;
    PolynomialParser.ParsedQuadratic(l, x, 0.0);
    PolynomialParser.ParsedQuadratic(l, x, v);
  }

  lemma SignedZero(op: BinOp, dl: real, c: real)
    requires op == Add || op == Subtract
    requires dl + EffectiveC(op, c) == 0.0
    ensures Combine(op, Some(dl), Some(c)) == Some(0.0)
  {
  }

  /** c * x is read by the quadratic parser with a = 0, so a linear form
      gets no quadratic roots. */
  lemma NoQuadraticRootsForLinear(op: BinOp, l: Expr, r: Expr, x: string, sqrt: real -> real)
    requires LinearLeft(l, x)
    ensures Plain(l) && QuadraticRoots(op, l, r, sqrt) == Ok({})
  {
    if l != Param(x) {
      var k := l.left.value;
      var d := GetDouble(k).value;
      assert Expressions.ToDouble(k) == Ok(d);
      assert PolynomialParser.ProductShape(l.left, l.right) == Ok(None);
      var s1 := PolynomialParser.Start.(c := d);
      assert PolynomialParser.Walk(l.left, PolynomialParser.Start) == Ok(s1);
      assert PolynomialParser.Walk(l, PolynomialParser.Start) == PolynomialParser.Walk(l.right, s1);
    }
  }

  /** Products: the roots of either factor are zeros of the product. */
  lemma ProductRootsAreZeros(l: Expr, r: Expr, x: string, sqrt: real -> real)
    requires Solvable(l, x) && Solvable(r, x) && Plain(l) && Plain(r)
    requires Contributions(l, sqrt).Ok? && Contributions(r, sqrt).Ok?
    requires forall p | p in Contributions(l, sqrt).value :: p.0 == x && Denote(l, x, p.1) == Some(0.0)
    requires forall p | p in Contributions(r, sqrt).value :: p.0 == x && Denote(r, x, p.1) == Some(0.0)
    ensures Plain(Bin(Multiply, l, r)) && Contributions(Bin(Multiply, l, r), sqrt).Ok?
    ensures forall p | p in Contributions(Bin(Multiply, l, r), sqrt).value :: p.0 == x && Denote(Bin(Multiply, l, r), x, p.1) == Some(0.0)
  {
    var e := Bin(Multiply, l, r);
    assert Contributions(e, sqrt).value == Contributions(l, sqrt).value + Contributions(r, sqrt).value;
    forall p | p in Contributions(e, sqrt).value
      ensures p.0 == x && Denote(e, x, p.1) == Some(0.0)
    {
      DefinedEverywhere(l, x, p.1);
      DefinedEverywhere(r, x, p.1);
    }
  }

  /** Sums and differences with a constant. */
  lemma SumRootsAreZeros(op: BinOp, l: Expr, r: Expr, x: string, sqrt: real -> real)
    requires (op == Add || op == Subtract) && SolvableSum(l, r, x) && IsSqrt(sqrt)
    ensures Plain(Bin(op, l, r)) && Contributions(Bin(op, l, r), sqrt).Ok?
    ensures forall p | p in Contributions(Bin(op, l, r), sqrt).value :: p.0 == x && Denote(Bin(op, l, r), x, p.1) == Some(0.0)
  {
    var e := Bin(op, l, r);
    if LinearLeft(l, x) {
      NoQuadraticRootsForLinear(op, l, r, x, sqrt);
      assert Plain(e);
      assert Contributions(e, sqrt).value == LinearRoots(op, l, r);
      forall p | p in Contributions(e, sqrt).value
        ensures p.0 == x && Denote(e, x, p.1) == Some(0.0)
      {
        LinearRootIsZero(op, l, r, x, p);
      }
    } else {
      PolynomialParser.ParsedQuadratic(l, x, 0.0);
      assert Plain(e);
      assert LinearForm(l, r).None?;
      forall p | p in Contributions(e, sqrt).value
        ensures p.0 == x && Denote(e, x, p.1) == Some(0.0)
      {
        QuadraticRootIsZero(op, l, r, x, sqrt, p);
      }
    }
  }

  /** So on those denominators `CollectRoots` succeeds, every pair names x,
      and the denominator is 0 at every collected value. */
  lemma {:induction false} CollectedRootsAreZeros(e: Expr, x: string, sqrt: real -> real)
    requires Solvable(e, x) && IsSqrt(sqrt)
    ensures Plain(e) && Contributions(e, sqrt).Ok?
    ensures forall p | p in Contributions(e, sqrt).value :: p.0 == x && Denote(e, x, p.1) == Some(0.0)
  {
    match e
    case Param(n) =>
    case Bin(op, l, r) =>
      if op == Multiply {
        CollectedRootsAreZeros(l, x, sqrt);
        CollectedRootsAreZeros(r, x, sqrt);
        ProductRootsAreZeros(l, r, x, sqrt);
      } else {
        SumRootsAreZeros(op, l, r, x, sqrt);
      }
  }

  /** Such denominators have a value at every point. */
  lemma {:induction false} DefinedEverywhere(e: Expr, x: string, v: real)
    requires Solvable(e, x)
    ensures Denote(e, x, v).Some?
  {
    match e
    case Param(n) =>
    case Bin(op, l, r) =>
      if op == Multiply {
        DefinedEverywhere(l, x, v);
        DefinedEverywhere(r, x, v);
      } else if !LinearLeft(l, x) {
        PolynomialParser.ParsedQuadratic(l, x, v);
      }
  }

  /** (x·x + 1) − 5, whose parsed constant term is dropped. */
  const DroppedSum: Expr := Bin(Add, Bin(Multiply, Param("x"), Param("x")), Double(1.0))
  const DroppedExample: Expr := Bin(Subtract, DroppedSum, Double(5.0))

  /** The parsed constant term is dropped, not moved: in (x·x + 1) − 5 the
      roots solve x² − 5 = 0, and the denominator is 1 there, not 0. */
  lemma LeftConstantDropped(sqrt: real -> real)
    requires IsSqrt(sqrt)
    ensures var e := DroppedExample;
            Contributions(e, sqrt).Ok? && exists p | p in Contributions(e, sqrt).value :: Denote(e, "x", p.1) == Some(1.0)
  {
    SquareOfTwenty(sqrt);
    DroppedRootDenotesOne(sqrt);
  }

  lemma DroppedRootDenotesOne(sqrt: real -> real)
    requires sqrt(20.0) * sqrt(20.0) == 20.0
    ensures var e := DroppedExample;
            Contributions(e, sqrt).Ok? && exists p | p in Contributions(e, sqrt).value :: Denote(e, "x", p.1) == Some(1.0)
  {
    var v := SingularitySolver.Vertex(PolynomialParser.Quad("x", 1.0, 0.0, -5.0), sqrt(20.0));
    DroppedValue(v, sqrt(20.0));
    DroppedRootListed(sqrt, v);
  }

  lemma SquareOfTwenty(sqrt: real -> real)
    requires IsSqrt(sqrt)
    ensures sqrt(20.0) * sqrt(20.0) == 20.0
  {
  }

  lemma DroppedRootListed(sqrt: real -> real, v: real)
    requires v == SingularitySolver.Vertex(PolynomialParser.Quad("x", 1.0, 0.0, -5.0), sqrt(20.0))
    requires Denote(DroppedExample, "x", v) == Some(1.0)
    ensures var e := DroppedExample;
            Contributions(e, sqrt).Ok? && exists p | p in Contributions(e, sqrt).value :: Denote(e, "x", p.1) == Some(1.0)
  {
    var q := PolynomialParser.Quad("x", 1.0, 0.0, -5.0);
    DroppedRoot(sqrt);
    assert SingularitySolver.Discriminant(q) == 20.0;
    var p := ("x", v);
    assert p in QuadRoots(q, sqrt);
    assert p in Contributions(DroppedExample, sqrt).value;
  }

  lemma DroppedRoot(sqrt: real -> real)
    ensures var l := DroppedSum;
            var q := PolynomialParser.Quad("x", 1.0, 0.0, -5.0);
            Contributions(Bin(Subtract, l, Double(5.0)), sqrt) == Ok(QuadRoots(q, sqrt))
  {
    var l := DroppedSum;
    var q := PolynomialParser.Quad("x", 1.0, 0.0, -5.0);
    DroppedParse();
    DoubleEpsilonPositive();
    assert PolynomialParser.Quad("x", 1.0, 0.0, 1.0).(c := -1.0 * 5.0) == q;
    assert QuadraticRoots(Subtract, l, Double(5.0), sqrt) == Ok(QuadRoots(q, sqrt));
    assert LinearRoots(Subtract, l, Double(5.0)) == {};
    var e := Bin(Subtract, l, Double(5.0));
    assert Plain(e);
    assert Contributions(e, sqrt) == Ok(LinearRoots(Subtract, l, Double(5.0)) + QuadRoots(q, sqrt));
    assert LinearRoots(Subtract, l, Double(5.0)) + QuadRoots(q, sqrt) == QuadRoots(q, sqrt);
  }

  lemma DroppedParse()
    ensures PolynomialParser.ParseQuadraticSpec(DroppedSum)
            == Ok(Some(PolynomialParser.Quad("x", 1.0, 0.0, 1.0)))
  {
    var m := Bin(Multiply, Param("x"), Param("x"));
    var s1 := PolynomialParser.Acc(Some("x"), 1.0, 0.0, 0.0);
    assert PolynomialParser.Walk(m, PolynomialParser.Start) == Ok(s1);
  }

  lemma DroppedValue(v: real, s: real)
    requires s * s == 20.0 && v == SingularitySolver.Vertex(PolynomialParser.Quad("x", 1.0, 0.0, -5.0), s)
    ensures Denote(DroppedExample, "x", v) == Some(1.0)
  {
    assert v == s / 2.0;
    assert v * v == 5.0;
    var m := Bin(Multiply, Param("x"), Param("x"));
    assert Denote(m, "x", v).Some? && Denote(m, "x", v).value == v * v;
    assert Denote(Bin(Add, m, Double(1.0)), "x", v) == Some(6.0);
  }

  /** The case table on small denominators: a product of two parameters
      gives 0 for each, a sum of two parameters gives nothing (sums are not
      searched), `Log(x)` gives 1, and a negation gives nothing. */
  lemma CaseTable(sqrt: real -> real)
    ensures Contributions(Bin(Multiply, Param("x"), Param("y")), sqrt) == Ok({("x", 0.0), ("y", 0.0)})
    ensures Contributions(Bin(Add, Param("x"), Param("y")), sqrt) == Ok({})
    ensures Contributions(Math("Log", [Param("x")]), sqrt) == Ok({("x", 1.0)})
    ensures Contributions(Unary(Negate, Param("x")), sqrt) == Ok({})
  {
    var m := Bin(Multiply, Param("x"), Param("y"));
    assert Plain(m);
    assert Contributions(Param("x"), sqrt) == Ok({("x", 0.0)});
    assert Contributions(Param("y"), sqrt) == Ok({("y", 0.0)});
    assert Contributions(m, sqrt) == Ok({("x", 0.0)} + {("y", 0.0)});
    assert {("x", 0.0)} + {("y", 0.0)} == {("x", 0.0), ("y", 0.0)};
    var a := Bin(Add, Param("x"), Param("y"));
    assert Plain(a);
    assert QuadraticRoots(Add, Param("x"), Param("y"), sqrt) == Ok({});
    assert LinearRoots(Add, Param("x"), Param("y")) == {};
    assert Contributions(a, sqrt) == Ok({} + {});
    var none: set<Pair> := {};
    assert none + none == {};
  }
}
