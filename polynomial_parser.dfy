/** PolynomialParser.cs: reads a tree as a·x² + b·x + c by walking it with a
    visitor that accumulates the three coefficients and the first parameter
    it records. */
module PolynomialParser {
  import opened Wrappers
  import opened Expressions
  import opened RealMath

  /** The visitor's fields: `Variable`, `A`, `B` and `C`. */
  datatype Acc = Acc(variable: Option<string>, a: real, b: real, c: real)

  /** The result of `ParseQuadratic`: (parameter, a, b, c). */
  datatype Quad = Quad(param: string, a: real, b: real, c: real)

  const Start := Acc(None, 0.0, 0.0, 0.0)

  /** `Variable ??= p`. */
  function Keep(variable: Option<string>, p: string): (r: Option<string>)
    ensures r.Some? && (variable.Some? ==> r == variable)
  {
    if variable.Some? then variable else Some(p)
  }

  /** `Math.Abs(Convert.ToDouble(k) - 1.0) < 1e-10`, which throws when the
      constant is not convertible. */
  function NearOne(k: Value): Result<bool> {
    var d :- Expressions.ToDouble(k);
    Ok(Abs(d - 1.0) < Tolerance)
  }

  /** The two shapes x * (y + 1) and (y + 1) * x: the parameter recorded
      when one of them matches. The inner parameter y may be any
      parameter. */
  function ProductShape(l: Expr, r: Expr): Result<Option<string>> {
    if l.Param? && r.Bin? && r.op == Add && r.left.Param? && r.right.Const? then
      var near :- NearOne(r.right.value);
      Ok(if near then Some(l.name) else None)
    else if r.Param? && l.Bin? && l.op == Add && l.left.Param? && l.right.Const? then
      var near :- NearOne(l.right.value);
      Ok(if near then Some(r.name) else None)
    else Ok(None)
  }

  /** The visitor's effect on its fields: `Visit(e)` from the state `s`. */
  function Walk(e: Expr, s: Acc): Result<Acc>
    requires Plain(e)
    decreases e, 1
  {
    match e
    case Const(k) =>
      var d :- Expressions.ToDouble(k);
      Ok(s.(c := s.c + d))
    case Param(n) => Ok(s.(variable := Keep(s.variable, n), b := s.b + 1.0))
    case Bin(op, l, r) => WalkBinary(op, l, r, s)
    case Unary(_, x) => Walk(x, s)
    case Call(_, args) => WalkList(args, s)
    case Lambda(p, body) =>
      var s1 :- Walk(body, s);
      Ok(s1.(variable := Keep(s1.variable, p), b := s1.b + 1.0))
  }

  /** `VisitBinary`. */
  function WalkBinary(op: BinOp, l: Expr, r: Expr, s: Acc): Result<Acc>
    requires Plain(l) && Plain(r)
    decreases Bin(op, l, r), 0
  {
    if op == Multiply && l.Param? && r.Param? && l.name == r.name then
      Ok(s.(variable := Keep(s.variable, l.name), a := s.a + 1.0))
    else if op == Multiply then
      var shape :- ProductShape(l, r);
      if shape.Some? then Ok(s.(variable := Keep(s.variable, shape.value), a := s.a + 1.0, b := s.b + 1.0))
      else
        var s1 :- Walk(l, s);
        Walk(r, s1)
    else if op == Subtract then
      var s1 :- Walk(l, s);
      var s2 :- Walk(r, s1.(a := 0.0, b := 0.0, c := 0.0));
      Ok(s2.(a := s1.a - s2.a, b := s1.b - s2.b, c := s1.c - s2.c))
    else
      var s1 :- Walk(l, s);
      Walk(r, s1)
  }

  function WalkList(args: seq<Expr>, s: Acc): Result<Acc>
    requires forall a | a in args :: Plain(a)
    decreases args
  {
    if args == [] then Ok(s)
    else
      var s1 :- Walk(args[0], s);
      WalkList(args[1..], s1)
  }

  /** `ParseQuadratic`: null when no parameter was recorded. */
  function ParseQuadraticSpec(e: Expr): Result<Option<Quad>>
    requires Plain(e)
  {
    var s :- Walk(e, Start);
    if s.variable.None? then Ok(None) else Ok(Some(Quad(s.variable.value, s.a, s.b, s.c)))
  }

  // ---------------------------------------------------------------------
  // Which parameter is recorded.
  // ---------------------------------------------------------------------

  /** A parameter is recorded exactly when one occurs in the tree (or one
      was recorded before), and a recorded one is never replaced. */
  lemma {:induction false} VariableRecorded(e: Expr, s: Acc)
    requires Plain(e) && Walk(e, s).Ok?
    ensures Walk(e, s).value.variable.Some? <==> s.variable.Some? || Occurrences(e) != []
    ensures s.variable.Some? ==> Walk(e, s).value.variable == s.variable
    decreases e, 1
  {
    match e
    case Const(_) =>
    case Param(_) =>
    case Bin(op, l, r) =>
      VariableRecordedBinary(op, l, r, s);
    case Unary(_, x) =>
      VariableRecorded(x, s);
    case Call(_, args) =>
      VariableRecordedList(args, s);
    case Lambda(p, body) =>
      VariableRecorded(body, s);
  }

  lemma {:induction false} VariableRecordedBinary(op: BinOp, l: Expr, r: Expr, s: Acc)
    requires Plain(l) && Plain(r) && WalkBinary(op, l, r, s).Ok?
    ensures WalkBinary(op, l, r, s).value.variable.Some? <==> s.variable.Some? || Occurrences(l) + Occurrences(r) != []
    ensures s.variable.Some? ==> WalkBinary(op, l, r, s).value.variable == s.variable
    decreases Bin(op, l, r), 0
  {
    if op == Multiply && l.Param? && r.Param? && l.name == r.name {
    } else if op == Multiply && ProductShape(l, r).value.Some? {
      assert l.Param? || r.Param?;
    } else {
      OperandsWalk(op, l, r, s);
      var s1 := Walk(l, s).value;
      var z := if op == Subtract then s1.(a := 0.0, b := 0.0, c := 0.0) else s1;
      VariableRecorded(l, s);
      VariableRecorded(r, z);
      Chained(s.variable, s1.variable, Walk(r, z).value.variable, Occurrences(l), Occurrences(r));
    }
  }

  /** Outside the product shapes both operands are walked in turn, the
      right one from the left one's state (with zero coefficients for a
      difference). */
  lemma OperandsWalk(op: BinOp, l: Expr, r: Expr, s: Acc)
    requires Plain(l) && Plain(r) && WalkBinary(op, l, r, s).Ok?
    requires op == Multiply ==> !(l.Param? && r.Param? && l.name == r.name) && ProductShape(l, r) == Ok(None)
    ensures Walk(l, s).Ok?
    ensures var z := if op == Subtract then Walk(l, s).value.(a := 0.0, b := 0.0, c := 0.0) else Walk(l, s).value;
            Walk(r, z).Ok? && WalkBinary(op, l, r, s).value.variable == Walk(r, z).value.variable
  {
    if op == Subtract {
      var s1 := Walk(l, s).value;
      DifferenceWalk(l, r, s, s1, Walk(r, s1.(a := 0.0, b := 0.0, c := 0.0)));
    }
  }

  /** Two walks in a row record a parameter when either one would. */
  lemma Chained(v0: Option<string>, v1: Option<string>, v2: Option<string>, left: seq<string>, right: seq<string>)
    requires (v1.Some? <==> v0.Some? || left != []) && (v0.Some? ==> v1 == v0)
    requires (v2.Some? <==> v1.Some? || right != []) && (v1.Some? ==> v2 == v1)
    ensures v2.Some? <==> v0.Some? || left + right != []
    ensures v0.Some? ==> v2 == v0
  {
    assert left + right == [] <==> left == [] && right == [];
  }

  lemma {:induction false} VariableRecordedList(args: seq<Expr>, s: Acc)
    requires (forall a | a in args :: Plain(a)) && WalkList(args, s).Ok?
    ensures WalkList(args, s).value.variable.Some? <==> s.variable.Some? || OccurrencesList(args) != []
    ensures s.variable.Some? ==> WalkList(args, s).value.variable == s.variable
    decreases args
  {
    if args != [] {
      VariableRecorded(args[0], s);
      VariableRecordedList(args[1..], Walk(args[0], s).value);
    }
  }

  /** `ParseQuadratic` gives null exactly for a tree without parameters. */
  lemma NullWithoutParameter(e: Expr)
    requires Plain(e) && ParseQuadraticSpec(e).Ok?
    ensures ParseQuadraticSpec(e).value.None? <==> Occurrences(e) == []
  {
    VariableRecorded(e, Start);
  }

  // ---------------------------------------------------------------------
  // What the coefficients mean.
  // ---------------------------------------------------------------------

  /** A constant the parser reads as exactly one. */
  predicate IsOne(k: Value) {
    !k.BigIntegerV? && Number(k) == Some(1.0)
  }

  /** The trees the parser reads correctly for the parameter x: numeric
      constants, x, sums and differences of such trees, x * x, and
      x * (x + 1) or (x + 1) * x. */
  predicate QuadShape(e: Expr, x: string) {
    match e
    case Const(k) => !k.BigIntegerV? && !k.NullV?
    case Param(n) => n == x
    case Bin(Add, l, r) => QuadShape(l, x) && QuadShape(r, x)
    case Bin(Subtract, l, r) => QuadShape(l, x) && QuadShape(r, x)
    case Bin(Multiply, l, r) =>
      (l == Param(x) && r == Param(x))
      || (l == Param(x) && r.Bin? && r.op == Add && r.left == Param(x) && r.right.Const? && IsOne(r.right.value))
      || (r == Param(x) && l.Bin? && l.op == Add && l.left == Param(x) && l.right.Const? && IsOne(l.right.value))
    case _ => false
  }

  /** Coefficients a, b and c of a·v² + b·v + c. */
  datatype Coef = Coef(a: real, b: real, c: real)

  /** a·v² + b·v + c. */
  function QuadAt(t: Coef, v: real): real {
    t.a * v * v + t.b * v + t.c
  }

  /** Coefficients add and subtract as the polynomials they stand for. */
  lemma QuadSum(p: Coef, q: Coef, v: real, sub: bool)
    ensures QuadAt(if sub then Coef(p.a - q.a, p.b - q.b, p.c - q.c) else Coef(p.a + q.a, p.b + q.b, p.c + q.c), v)
            == if sub then QuadAt(p, v) - QuadAt(q, v) else QuadAt(p, v) + QuadAt(q, v)
  {
    assert (p.a + q.a) * v * v == p.a * v * v + q.a * v * v;
    assert (p.a - q.a) * v * v == p.a * v * v - q.a * v * v;
    assert (p.b + q.b) * v == p.b * v + q.b * v;
    assert (p.b - q.b) * v == p.b * v - q.b * v;
  }

  /** A sum or difference denotes the sum or difference of its operands. */
  lemma SumDenotation(op: BinOp, l: Expr, r: Expr, x: string, v: real)
    requires op == Add || op == Subtract
    requires Denote(l, x, v).Some? && Denote(r, x, v).Some?
    ensures Denote(Bin(op, l, r), x, v).Some?
    ensures Denote(Bin(op, l, r), x, v).value
         == if op == Subtract then Denote(l, x, v).value - Denote(r, x, v).value
            else Denote(l, x, v).value + Denote(r, x, v).value
  {
  }

  /** The coefficients a tree of those shapes stands for. */
  function ShapeCoefficients(e: Expr, x: string): Coef
    requires QuadShape(e, x)
  {
    match e
    case Const(k) => Coef(0.0, 0.0, Number(k).value)
    case Param(_) => Coef(0.0, 1.0, 0.0)
    case Bin(op, l, r) =>
      if op == Add || op == Subtract then
        var p, q := ShapeCoefficients(l, x), ShapeCoefficients(r, x);
        if op == Subtract then Coef(p.a - q.a, p.b - q.b, p.c - q.c) else Coef(p.a + q.a, p.b + q.b, p.c + q.c)
      else if l == r then Coef(1.0, 0.0, 0.0)
      else Coef(1.0, 1.0, 0.0)
  }

  /** x * x denotes v². */
  lemma SquareDenotes(x: string, v: real)
    ensures Denote(Bin(Multiply, Param(x), Param(x)), x, v).Some?
    ensures Denote(Bin(Multiply, Param(x), Param(x)), x, v).value == QuadAt(Coef(1.0, 0.0, 0.0), v)
  {
    assert Denote(Param(x), x, v) == Some(v);
  }

  /** x * (x + 1) and (x + 1) * x denote v² + v. */
  lemma ShiftedDenotes(k: Value, x: string, v: real, left: bool)
    requires IsOne(k)
    ensures var y := Bin(Add, Param(x), Const(k));
            var e := if left then Bin(Multiply, y, Param(x)) else Bin(Multiply, Param(x), y);
            Denote(e, x, v).Some? && Denote(e, x, v).value == QuadAt(Coef(1.0, 1.0, 0.0), v)
  {
    assert Denote(Param(x), x, v) == Some(v);
    assert Denote(Bin(Add, Param(x), Const(k)), x, v) == Some(v + 1.0);
    assert v * (v + 1.0) == (v + 1.0) * v == 1.0 * v * v + 1.0 * v + 0.0;
  }

  lemma ProductDenotes(l: Expr, r: Expr, x: string, v: real)
    requires QuadShape(Bin(Multiply, l, r), x)
    ensures Denote(Bin(Multiply, l, r), x, v).Some?
    ensures Denote(Bin(Multiply, l, r), x, v).value == QuadAt(ShapeCoefficients(Bin(Multiply, l, r), x), v)
  {
    if l == Param(x) && r == Param(x) {
      SquareDenotes(x, v);
    } else if l == Param(x) {
      assert r == Bin(Add, Param(x), Const(r.right.value));
      ShiftedDenotes(r.right.value, x, v, false);
    } else {
      assert l == Bin(Add, Param(x), Const(l.right.value));
      ShiftedDenotes(l.right.value, x, v, true);
    }
  }

  lemma SumDenotes(op: BinOp, l: Expr, r: Expr, x: string, v: real)
    requires op == Add || op == Subtract
    requires QuadShape(l, x) && QuadShape(r, x)
    requires Denote(l, x, v).Some? && Denote(l, x, v).value == QuadAt(ShapeCoefficients(l, x), v)
    requires Denote(r, x, v).Some? && Denote(r, x, v).value == QuadAt(ShapeCoefficients(r, x), v)
    ensures QuadShape(Bin(op, l, r), x)
    ensures Denote(Bin(op, l, r), x, v).Some?
    ensures Denote(Bin(op, l, r), x, v).value == QuadAt(ShapeCoefficients(Bin(op, l, r), x), v)
  {
    SumDenotation(op, l, r, x, v);
    SumCoefficients(op, l, r, x);
    SumValue(ShapeCoefficients(l, x), ShapeCoefficients(r, x), ShapeCoefficients(Bin(op, l, r), x),
             Denote(l, x, v).value, Denote(r, x, v).value, Denote(Bin(op, l, r), x, v).value, v, op == Subtract);
  }

  lemma SumCoefficients(op: BinOp, l: Expr, r: Expr, x: string)
    requires op == Add || op == Subtract
    requires QuadShape(l, x) && QuadShape(r, x)
    ensures QuadShape(Bin(op, l, r), x)
    ensures var p, q := ShapeCoefficients(l, x), ShapeCoefficients(r, x);
            ShapeCoefficients(Bin(op, l, r), x)
            == if op == Subtract then Coef(p.a - q.a, p.b - q.b, p.c - q.c) else Coef(p.a + q.a, p.b + q.b, p.c + q.c)
  {
  }

  lemma SumValue(p: Coef, q: Coef, t: Coef, dl: real, dr: real, d: real, v: real, sub: bool)
    requires t == if sub then Coef(p.a - q.a, p.b - q.b, p.c - q.c) else Coef(p.a + q.a, p.b + q.b, p.c + q.c)
    requires dl == QuadAt(p, v) && dr == QuadAt(q, v)
    requires d == if sub then dl - dr else dl + dr
    ensures d == QuadAt(t, v)
  {
    QuadSum(p, q, v, sub);
  }

  /** Such a tree denotes a·v² + b·v + c for its coefficients at every
      point v. */
  lemma {:induction false} ShapeDenotes(e: Expr, x: string, v: real)
    requires QuadShape(e, x)
    ensures Denote(e, x, v).Some?
    ensures Denote(e, x, v).value == QuadAt(ShapeCoefficients(e, x), v)
  {
    match e
    case Const(k) =>
    case Param(_) =>
    case Bin(op, l, r) =>
      if op == Add || op == Subtract {
        ShapeDenotes(l, x, v);
        ShapeDenotes(r, x, v);
        SumDenotes(op, l, r, x, v);
      } else {
        ProductDenotes(l, r, x, v);
      }
  }

  /** `t` holds the coefficients of `s` grown by `k`. */
  predicate Added(s: Acc, t: Acc, k: Coef) {
    t.a == s.a + k.a && t.b == s.b + k.b && t.c == s.c + k.c
  }

  /** The three product shapes are read in one step. */
  lemma ProductWalk(l: Expr, r: Expr, x: string, s: Acc)
    requires QuadShape(Bin(Multiply, l, r), x)
    ensures Plain(l) && Plain(r) && WalkBinary(Multiply, l, r, s).Ok?
    ensures WalkBinary(Multiply, l, r, s).value.variable == Keep(s.variable, x)
    ensures Added(s, WalkBinary(Multiply, l, r, s).value, ShapeCoefficients(Bin(Multiply, l, r), x))
  {
    if !(l == Param(x) && r == Param(x)) {
      if l == Param(x) {
        assert r == Bin(Add, Param(x), Const(r.right.value));
        assert Expressions.ToDouble(r.right.value) == Ok(1.0);
      } else {
        assert l == Bin(Add, Param(x), Const(l.right.value));
        assert Expressions.ToDouble(l.right.value) == Ok(1.0);
      }
      assert ProductShape(l, r) == Ok(Some(x));
    }
  }

  lemma SumWalk(op: BinOp, l: Expr, r: Expr, x: string, s: Acc)
    requires op == Add || op == Subtract
    requires QuadShape(l, x) && QuadShape(r, x) && Plain(l) && Plain(r)
    requires Walk(l, s).Ok? && Added(s, Walk(l, s).value, ShapeCoefficients(l, x))
    requires var z := if op == Subtract then Walk(l, s).value.(a := 0.0, b := 0.0, c := 0.0) else Walk(l, s).value;
             Walk(r, z).Ok? && Added(z, Walk(r, z).value, ShapeCoefficients(r, x))
    ensures QuadShape(Bin(op, l, r), x)
    ensures WalkBinary(op, l, r, s).Ok?
    ensures var z := if op == Subtract then Walk(l, s).value.(a := 0.0, b := 0.0, c := 0.0) else Walk(l, s).value;
            WalkBinary(op, l, r, s).value.variable == Walk(r, z).value.variable
    ensures Added(s, WalkBinary(op, l, r, s).value, ShapeCoefficients(Bin(op, l, r), x))
  {
  }

  /** On those trees the parser succeeds, records x when x occurs, and
      adds exactly the tree's coefficients to a, b and c. */
  lemma {:induction false} ShapeWalk(e: Expr, x: string, s: Acc)
    requires QuadShape(e, x)
    ensures Plain(e) && Walk(e, s).Ok?
    ensures Walk(e, s).value.variable == if x in Occurrences(e) then Keep(s.variable, x) else s.variable
    ensures Added(s, Walk(e, s).value, ShapeCoefficients(e, x))
  {
    match e
    case Const(k) =>
    case Param(n) =>
    case Bin(op, l, r) =>
      if op == Multiply {
        ProductWalk(l, r, x, s);
      } else {
        ShapeWalk(l, x, s);
        var s1 := Walk(l, s).value;
        var z := if op == Subtract then s1.(a := 0.0, b := 0.0, c := 0.0) else s1;
        ShapeWalk(r, x, z);
        SumWalk(op, l, r, x, s);
      }
  }

  function QuadValue(q: Quad, v: real): real {
    q.a * v * v + q.b * v + q.c
  }

  /** The quadruple read from the start state has the tree's value. */
  lemma StartValue(q: Quad, s: Acc, t: Coef, d: real, v: real)
    requires q.a == s.a && q.b == s.b && q.c == s.c
    requires Added(Start, s, t) && d == QuadAt(t, v)
    ensures QuadValue(q, v) == d
  {
  }

  /** So on those trees `ParseQuadratic` returns x, unless x does not occur
      at all, and coefficients a, b, c with a·v² + b·v + c equal to the
      tree's value at every point v. */
  lemma ParsedQuadratic(e: Expr, x: string, v: real)
    requires QuadShape(e, x)
    ensures Plain(e) && ParseQuadraticSpec(e).Ok? && Denote(e, x, v).Some?
    ensures ParseQuadraticSpec(e).value.Some? <==> x in Occurrences(e)
    ensures ParseQuadraticSpec(e).value.Some? ==> ParseQuadraticSpec(e).value.value.param == x
    ensures ParseQuadraticSpec(e).value.Some? ==> QuadValue(ParseQuadraticSpec(e).value.value, v) == Denote(e, x, v).value
  {
    ShapeWalk(e, x, Start);
    ShapeDenotes(e, x, v);
    var s := Walk(e, Start).value;
    assert ParseQuadraticSpec(e) == if s.variable.None? then Ok(None) else Ok(Some(Quad(s.variable.value, s.a, s.b, s.c)));
    if s.variable.Some? {
      StartValue(ParseQuadraticSpec(e).value.value, s, ShapeCoefficients(e, x), Denote(e, x, v).value, v);
    }
  }

  /** Outside those shapes the reading is literal, not algebraic: any
      parameter adds 1 to b, so x + y reads as 2·x, and 2 * x is walked
      operand by operand, giving b = 1 and c = 2. */
  lemma LiteralReadings()
    ensures ParseQuadraticSpec(Bin(Add, Param("x"), Param("y"))) == Ok(Some(Quad("x", 0.0, 2.0, 0.0)))
    ensures ParseQuadraticSpec(Bin(Multiply, Double(2.0), Param("x"))) == Ok(Some(Quad("x", 0.0, 1.0, 2.0)))
  {
  }

  /** The private `CoefficientsVisitor`. */
  class CoefficientsVisitor {
    var variable: Option<string>
    var a: real
    var b: real
    var c: real

    function Snapshot(): Acc
      reads this
    {
      Acc(variable, a, b, c)
    }

    constructor ()
      ensures Snapshot() == Start
    {
      variable, a, b, c := None, 0.0, 0.0, 0.0;
    }

    /** The stock dispatch over node kinds, with the overridden
        `VisitBinary`, `VisitParameter` and `VisitConstant`. */
    method Visit(e: Expr) returns (thrown: Option<Exn>)
      requires Plain(e)
      modifies this
      ensures AsResult(thrown, Snapshot()) == Walk(e, old(Snapshot()))
      decreases e, 2
    {
      thrown := None;
      match e
      case Const(k) =>
        thrown := VisitConstant(k);
      case Param(n) =>
        VisitParameter(n);
      case Bin(op, l, r) =>
        thrown := VisitBinary(op, l, r);
      case Unary(_, x) =>
        thrown := Visit(x);
      case Call(_, args) =>
        thrown := VisitList(args);
      case Lambda(p, body) =>
        thrown := Visit(body);
        if thrown.None? {
          VisitParameter(p);
        }
    }

    method VisitList(args: seq<Expr>) returns (thrown: Option<Exn>)
      requires forall a | a in args :: Plain(a)
      modifies this
      ensures AsResult(thrown, Snapshot()) == WalkList(args, old(Snapshot()))
      decreases args
    {
      thrown := None;
      if args != [] {
        thrown := Visit(args[0]);
        if thrown.None? {
          thrown := VisitList(args[1..]);
        }
      }
    }

    method VisitParameter(n: string)
      modifies this
      ensures Snapshot() == old(Snapshot()).(variable := Keep(old(variable), n), b := old(b) + 1.0)
    {
      if variable.None? {
        variable := Some(n);
      }
      b := b + 1.0;
    }

    method VisitConstant(k: Value) returns (thrown: Option<Exn>)
      modifies this
      ensures var d := Expressions.ToDouble(k);
              (thrown.Some? <==> d.Throw?) && (d.Throw? ==> thrown.value == d.error)
              && (d.Ok? ==> Snapshot() == old(Snapshot()).(c := old(c) + d.value))
    {
      var d := Expressions.ToDouble(k);
      if d.Throw? {
        return Some(d.error);
      }
      c := c + d.value;
      return None;
    }

    method VisitBinary(op: BinOp, l: Expr, r: Expr) returns (thrown: Option<Exn>)
      requires Plain(l) && Plain(r)
      modifies this
      ensures AsResult(thrown, Snapshot()) == WalkBinary(op, l, r, old(Snapshot()))
      decreases Bin(op, l, r), 1
    {
      thrown := None;
      if op == Multiply {
        var handled;
        handled, thrown := VisitProduct(l, r);
        if handled {
          return;
        }
      } else if op == Subtract {
        thrown := VisitDifference(l, r);
        return;
      }
      thrown := VisitOperands(op, l, r);
    }

    /** The operand-by-operand walk `VisitBinary` falls back on. */
    method VisitOperands(op: BinOp, l: Expr, r: Expr) returns (thrown: Option<Exn>)
      requires Plain(l) && Plain(r) && op != Subtract
      requires op == Multiply ==> !(l.Param? && r.Param? && l.name == r.name) && ProductShape(l, r) == Ok(None)
      modifies this
      ensures AsResult(thrown, Snapshot()) == WalkBinary(op, l, r, old(Snapshot()))
      decreases Bin(op, l, r), 0
    {
      SequenceWalk(op, l, r, Snapshot());
      thrown := Visit(l);
      if thrown.None? {
        thrown := Visit(r);
      }
    }

    /** The two product branches of `VisitBinary`: x * x, and the shapes
        `ProductShape` recognises. Any other product is left to the
        operand-by-operand walk. */
    method VisitProduct(l: Expr, r: Expr) returns (handled: bool, thrown: Option<Exn>)
      requires Plain(l) && Plain(r)
      modifies this
      ensures handled <==> (l.Param? && r.Param? && l.name == r.name) || ProductShape(l, r).Throw? || ProductShape(l, r).value.Some?
      ensures handled ==> AsResult(thrown, Snapshot()) == WalkBinary(Multiply, l, r, old(Snapshot()))
      ensures !handled ==> thrown.None? && unchanged(this)
    {
      thrown := None;
      if l.Param? && r.Param? && l.name == r.name {
        if variable.None? {
          variable := Some(l.name);
        }
        a := a + 1.0;
        return true, None;
      }
      var shape := ProductShape(l, r);
      if shape.Throw? {
        return true, Some(shape.error);
      }
      handled := shape.value.Some?;
      if handled {
        if variable.None? {
          variable := Some(shape.value.value);
        }
        a := a + 1.0;
        b := b + 1.0;
      }
    }

    /** The subtraction branch: the right operand is walked from zero
        coefficients and subtracted from the saved ones. */
    method VisitDifference(l: Expr, r: Expr) returns (thrown: Option<Exn>)
      requires Plain(l) && Plain(r)
      modifies this
      ensures AsResult(thrown, Snapshot()) == WalkBinary(Subtract, l, r, old(Snapshot()))
      decreases Bin(Subtract, l, r), 0
    {
      ghost var s0 := Snapshot();
      thrown := Visit(l);
      if thrown.Some? {
        assert WalkBinary(Subtract, l, r, s0) == Throw(thrown.value);
        return;
      }
      ghost var s1 := Snapshot();
      assert Walk(l, s0) == Ok(s1);
      var savedA, savedB, savedC := a, b, c;
      a, b, c := 0.0, 0.0, 0.0;
      ghost var z := Snapshot();
      thrown := Visit(r);
      if thrown.Some? {
        DifferenceWalk(l, r, s0, s1, Walk(r, z));
        return;
      }
      ghost var s2 := Snapshot();
      DifferenceWalk(l, r, s0, s1, Walk(r, z));
      a, b, c := savedA - a, savedB - b, savedC - c;
    }
  }

  /** `VisitBinary` on a difference: walk the left operand, walk the right
      one from zero coefficients, subtract. */
  lemma DifferenceWalk(l: Expr, r: Expr, s0: Acc, s1: Acc, w: Result<Acc>)
    requires Plain(l) && Plain(r)
    requires Walk(l, s0) == Ok(s1) && w == Walk(r, s1.(a := 0.0, b := 0.0, c := 0.0))
    ensures w.Throw? ==> WalkBinary(Subtract, l, r, s0) == Throw(w.error)
    ensures w.Ok? ==> WalkBinary(Subtract, l, r, s0) == Ok(w.value.(a := s1.a - w.value.a, b := s1.b - w.value.b, c := s1.c - w.value.c))
  {
  }

  /** `VisitBinary` on any other node: the left operand, then the right
      one from where the left one left the fields. */
  lemma SequenceWalk(op: BinOp, l: Expr, r: Expr, s: Acc)
    requires Plain(l) && Plain(r) && op != Subtract
    requires op == Multiply ==> !(l.Param? && r.Param? && l.name == r.name) && ProductShape(l, r) == Ok(None)
    ensures Walk(l, s).Throw? ==> WalkBinary(op, l, r, s) == Throw(Walk(l, s).error)
    ensures Walk(l, s).Ok? ==> WalkBinary(op, l, r, s) == Walk(r, Walk(l, s).value)
  {
  }

  /** `ParseQuadratic`. */
  method ParseQuadratic(e: Expr) returns (result: Option<Quad>, thrown: Option<Exn>)
    requires Plain(e)
    ensures ParseQuadraticSpec(e).Throw? <==> thrown.Some?
    ensures thrown.Some? ==> thrown.value == ParseQuadraticSpec(e).error
    ensures ParseQuadraticSpec(e).Ok? ==> result == ParseQuadraticSpec(e).value
  {
    var visitor := new CoefficientsVisitor();
    thrown := visitor.Visit(e);
    result := None;
    if thrown.Some? {
      return;
    }
    if visitor.variable.Some? {
      result := Some(Quad(visitor.variable.value, visitor.a, visitor.b, visitor.c));
    }
  }
}
