/** SingularitySolver.cs (global namespace): the first draft of the
    denominator solver. It reads the denominator as a·x² + b·x + c with its
    own sign-threading `PolynomialParser` and solves the linear or quadratic
    equation in doubles. */
module SingularitySolver {
  import opened Wrappers
  import opened Expressions
  import opened RealMath
  import PolynomialParser

  type Acc = PolynomialParser.Acc
  type Quad = PolynomialParser.Quad
  type Coef = PolynomialParser.Coef

  /** The visitor's effect on `Variable`, `A`, `B` and `C` when it visits
      `e` with `_currentSign` equal to `sign`. */
  function Walk(e: Expr, sign: real, s: Acc): Result<Acc>
    requires Plain(e)
    decreases e, 1
  {
    match e
    case Const(k) =>
      var d :- Expressions.ToDouble(k);
      Ok(s.(c := s.c + d * sign))
    case Param(n) => Ok(ParameterStep(n, sign, s))
    case Bin(op, l, r) => WalkBinary(op, l, r, sign, s)
    case Unary(_, x) => Walk(x, sign, s)
    case Call(_, args) => WalkList(args, sign, s)
    case Lambda(p, body) =>
      var s1 :- Walk(body, sign, s);
      Ok(ParameterStep(p, sign, s1))
  }

  /** A parameter: the first one met is recorded, and only the recorded
      one adds the sign to B. */
  function ParameterStep(n: string, sign: real, s: Acc): (r: Acc)
    ensures r.a == s.a && r.c == s.c
    ensures r.variable == PolynomialParser.Keep(s.variable, n)
    ensures r.b == if r.variable == Some(n) then s.b + sign else s.b
  {
    var v := PolynomialParser.Keep(s.variable, n);
    s.(variable := v, b := if v == Some(n) then s.b + sign else s.b)
  }

  function WalkBinary(op: BinOp, l: Expr, r: Expr, sign: real, s: Acc): Result<Acc>
    requires Plain(l) && Plain(r)
    decreases Bin(op, l, r), 0
  {
    if op == Multiply && l.Param? && r.Param? then Ok(s.(a := s.a + sign))
    else if op == Multiply && l.Const? && r.Param? then
      var d :- Expressions.ToDouble(l.value);
      Ok(s.(b := s.b + d * sign))
    else if op == Multiply && l.Param? && r.Const? then
      var d :- Expressions.ToDouble(r.value);
      Ok(s.(b := s.b + d * sign))
    else if op == Add || op == Subtract then
      var s1 :- Walk(l, sign, s);
      Walk(r, if op == Subtract then -sign else sign, s1)
    else
      var s1 :- Walk(l, sign, s);
      Walk(r, sign, s1)
  }

  /** The product shapes `VisitBinary` reads in one step. */
  predicate ProductShape(l: Expr, r: Expr) {
    (l.Param? && r.Param?) || (l.Const? && r.Param?) || (l.Param? && r.Const?)
  }

  /** Outside those shapes both operands are walked in turn, the right one
      with the sign flipped under a difference. */
  lemma OperandSteps(op: BinOp, l: Expr, r: Expr, sign: real, s: Acc)
    requires Plain(l) && Plain(r) && !(op == Multiply && ProductShape(l, r))
    ensures Walk(l, sign, s).Throw? ==> WalkBinary(op, l, r, sign, s) == Throw(Walk(l, sign, s).error)
    ensures Walk(l, sign, s).Ok? ==>
              WalkBinary(op, l, r, sign, s) == Walk(r, if op == Subtract then -sign else sign, Walk(l, sign, s).value)
  {
  }

  function WalkList(args: seq<Expr>, sign: real, s: Acc): Result<Acc>
    requires forall a | a in args :: Plain(a)
    decreases args
  {
    if args == [] then Ok(s)
    else
      var s1 :- Walk(args[0], sign, s);
      WalkList(args[1..], sign, s1)
  }

  /** This file's `PolynomialParser.ParseQuadratic`. */
  function ParseQuadraticSpec(e: Expr): Result<Option<Quad>>
    requires Plain(e)
  {
    var s :- Walk(e, 1.0, PolynomialParser.Start);
    if s.variable.None? then Ok(None) else Ok(Some(PolynomialParser.Quad(s.variable.value, s.a, s.b, s.c)))
  }

  /** The duplicate `CoefficientsVisitor`, which overrides `Visit` itself. */
  class CoefficientsVisitor {
    var variable: Option<string>
    var a: real
    var b: real
    var c: real
    var currentSign: real

    function Snapshot(): Acc
      reads this
    {
      PolynomialParser.Acc(variable, a, b, c)
    }

    constructor ()
      ensures Snapshot() == PolynomialParser.Start && currentSign == 1.0
    {
      variable, a, b, c := None, 0.0, 0.0, 0.0;
      currentSign := 1.0;
    }

    method Visit(e: Expr) returns (thrown: Option<Exn>)
      requires Plain(e)
      modifies this
      ensures var spec := Walk(e, old(currentSign), old(Snapshot()));
              (thrown.Some? <==> spec.Throw?) && (spec.Throw? ==> thrown.value == spec.error)
              && (spec.Ok? ==> Snapshot() == spec.value && currentSign == old(currentSign))
      decreases e, 2
    {
      thrown := None;
      match e
      case Const(k) =>
        var d := Expressions.ToDouble(k);
        if d.Throw? {
          return Some(d.error);
        }
        c := c + d.value * currentSign;
      case Param(n) =>
        VisitParameter(n);
      case Bin(op, l, r) =>
        thrown := VisitBinary(op, l, r);
      case Unary(_, x) =>
        thrown := Visit(x);
      case Call(_, args) =>
        thrown := VisitList(args);
      case Lambda(p, body) =>
        thrown := Visit(body);
        if thrown.None? {
          VisitParameter(p);
        }
    }

    method VisitParameter(n: string)
      modifies this
      ensures Snapshot() == ParameterStep(n, old(currentSign), old(Snapshot())) && currentSign == old(currentSign)
    {
      if variable.None? {
        variable := Some(n);
      }
      if variable == Some(n) {
        b := b + 1.0 * currentSign;
      }
    }

    method VisitBinary(op: BinOp, l: Expr, r: Expr) returns (thrown: Option<Exn>)
      requires Plain(l) && Plain(r)
      modifies this
      ensures var spec := WalkBinary(op, l, r, old(currentSign), old(Snapshot()));
              (thrown.Some? <==> spec.Throw?) && (spec.Throw? ==> thrown.value == spec.error)
              && (spec.Ok? ==> Snapshot() == spec.value && currentSign == old(currentSign))
      decreases Bin(op, l, r), 1
    {
      if op == Multiply && ProductShape(l, r) {
        thrown := VisitProduct(l, r);
      } else if op == Add || op == Subtract {
        thrown := VisitSum(op, l, r);
      } else {
        thrown := VisitOperands(op, l, r);
      }
    }

    /** The three product branches: x * y, k * x and x * k. */
    method VisitProduct(l: Expr, r: Expr) returns (thrown: Option<Exn>)
      requires Plain(l) && Plain(r) && ProductShape(l, r)
      modifies this
      ensures var spec := WalkBinary(Multiply, l, r, old(currentSign), old(Snapshot()));
              (thrown.Some? <==> spec.Throw?) && (spec.Throw? ==> thrown.value == spec.error)
              && (spec.Ok? ==> Snapshot() == spec.value)
      ensures currentSign == old(currentSign)
    {
      thrown := None;
      if l.Param? && r.Param? {
        a := a + 1.0 * currentSign;
      } else {
        var d := Expressions.ToDouble(if l.Const? then l.value else r.value);
        if d.Throw? {
          thrown := Some(d.error);
        } else {
          b := b + d.value * currentSign;
        }
      }
    }

    /** The sum branch: the right operand of a difference is walked with
        the sign flipped, and the sign is restored afterwards. */
    method VisitSum(op: BinOp, l: Expr, r: Expr) returns (thrown: Option<Exn>)
      requires Plain(l) && Plain(r) && (op == Add || op == Subtract)
      modifies this
      ensures var spec := WalkBinary(op, l, r, old(currentSign), old(Snapshot()));
              (thrown.Some? <==> spec.Throw?) && (spec.Throw? ==> thrown.value == spec.error)
              && (spec.Ok? ==> Snapshot() == spec.value && currentSign == old(currentSign))
      decreases Bin(op, l, r), 0
    {
      ghost var s0 := Snapshot();
      OperandSteps(op, l, r, currentSign, s0);
      thrown := Visit(l);
      if thrown.Some? {
        return;
      }
      assert Walk(l, currentSign, s0) == Ok(Snapshot());
      var savedSign := currentSign;
      if op == Subtract {
        currentSign := currentSign * -1.0;
      }
      assert currentSign == if op == Subtract then -savedSign else savedSign;
      thrown := Visit(r);
      currentSign := savedSign;
    }

    /** Any other node: the operands in turn with the same sign. */
    method VisitOperands(op: BinOp, l: Expr, r: Expr) returns (thrown: Option<Exn>)
      requires Plain(l) && Plain(r) && op != Add && op != Subtract && !(op == Multiply && ProductShape(l, r))
      modifies this
      ensures var spec := WalkBinary(op, l, r, old(currentSign), old(Snapshot()));
              (thrown.Some? <==> spec.Throw?) && (spec.Throw? ==> thrown.value == spec.error)
              && (spec.Ok? ==> Snapshot() == spec.value && currentSign == old(currentSign))
      decreases Bin(op, l, r), 0
    {
      OperandSteps(op, l, r, currentSign, Snapshot());
      thrown := Visit(l);
      if thrown.None? {
        thrown := Visit(r);
      }
    }

    method VisitList(args: seq<Expr>) returns (thrown: Option<Exn>)
      requires forall a | a in args :: Plain(a)
      modifies this
      ensures var spec := WalkList(args, old(currentSign), old(Snapshot()));
              (thrown.Some? <==> spec.Throw?) && (spec.Throw? ==> thrown.value == spec.error)
              && (spec.Ok? ==> Snapshot() == spec.value && currentSign == old(currentSign))
      decreases args
    {
      thrown := None;
      if args != [] {
        thrown := Visit(args[0]);
        if thrown.None? {
          thrown := VisitList(args[1..]);
        }
      }
    }
  }

  method ParseQuadratic(e: Expr) returns (result: Option<Quad>, thrown: Option<Exn>)
    requires Plain(e)
    ensures ParseQuadraticSpec(e).Throw? <==> thrown.Some?
    ensures thrown.Some? ==> thrown.value == ParseQuadraticSpec(e).error
    ensures ParseQuadraticSpec(e).Ok? ==> result == ParseQuadraticSpec(e).value
  {
    var visitor := new CoefficientsVisitor();
    thrown := visitor.Visit(e);
    result := None;
    if thrown.Some? {
      return;
    }
    if visitor.variable.Some? {
      result := Some(PolynomialParser.Quad(visitor.variable.value, visitor.a, visitor.b, visitor.c));
    }
  }

  /** `SolveRoot` once the coefficients are known: the linear case when
      |a| < 1e-10, otherwise the quadratic formula, keeping the second root
      only when it is more than 1e-10 away from the first. */
  function Solve(q: Quad, sqrt: real -> real): seq<(string, real)> {
    if Abs(q.a) < Tolerance then
      if Abs(q.b) > Tolerance then [(q.param, -q.c / q.b)] else []
    else
      var d := Discriminant(q);
      if d >= 0.0 then
        var x1 := Vertex(q, sqrt(d));
        var x2 := Vertex(q, -sqrt(d));
        [(q.param, x1)] + (if Abs(x1 - x2) > Tolerance then [(q.param, x2)] else [])
      else []
  }

  /** b² − 4ac. */
  function Discriminant(q: Quad): real {
    q.b * q.b - 4.0 * q.a * q.c
  }

  /** (−b + s) / 2a. */
  function Vertex(q: Quad, s: real): real
    requires q.a != 0.0
  {
    (-q.b + s) / (2.0 * q.a)
  }

  /** `SolveRoot`: no parameter, no roots. */
  function SolveRootSpec(e: Expr, sqrt: real -> real): Result<seq<(string, real)>>
    requires Plain(e)
  {
    var poly :- ParseQuadraticSpec(e);
    if poly.None? then Ok([]) else Ok(Solve(poly.value, sqrt))
  }

  method SolveRoot(e: Expr, sqrt: real -> real) returns (roots: seq<(string, real)>, thrown: Option<Exn>)
    requires Plain(e)
    ensures SolveRootSpec(e, sqrt).Throw? <==> thrown.Some?
    ensures thrown.Some? ==> thrown.value == SolveRootSpec(e, sqrt).error
    ensures SolveRootSpec(e, sqrt).Ok? ==> roots == SolveRootSpec(e, sqrt).value
  {
    roots := [];
    var poly;
    poly, thrown := ParseQuadratic(e);
    if thrown.Some? || poly.None? {
      return;
    }
    var q := poly.value;
    if Abs(q.a) < Tolerance {
      if Abs(q.b) > Tolerance {
        roots := roots + [(q.param, -q.c / q.b)];
      }
    } else {
      var d := Discriminant(q);
      if d >= 0.0 {
        var sqrtD := sqrt(d);
        var x1 := Vertex(q, sqrtD);
        var x2 := Vertex(q, -sqrtD);
        roots := roots + [(q.param, x1)];
        if Abs(x1 - x2) > Tolerance {
          roots := roots + [(q.param, x2)];
        }
        assert roots == Solve(q, sqrt);
      }
    }
  }

  // ---------------------------------------------------------------------
  // What the roots are.
  // ---------------------------------------------------------------------

  /** At most two roots, all of the parsed parameter. */
  lemma AtMostTwoRoots(q: Quad, sqrt: real -> real)
    ensures |Solve(q, sqrt)| <= 2
    ensures forall i | 0 <= i < |Solve(q, sqrt)| :: Solve(q, sqrt)[i].0 == q.param
  {
  }

  /** With |a| < 1e-10 there is one root when |b| > 1e-10 and none
      otherwise, and it is the zero of b·x + c. */
  lemma LinearCase(q: Quad, sqrt: real -> real)
    requires Abs(q.a) < Tolerance
    ensures |Solve(q, sqrt)| == 1 <==> Abs(q.b) > Tolerance
    ensures |Solve(q, sqrt)| <= 1
    ensures forall i | 0 <= i < |Solve(q, sqrt)| :: q.b * Solve(q, sqrt)[i].1 + q.c == 0.0
  {
    if Abs(q.b) > Tolerance {
      assert q.b * (-q.c / q.b) + q.c == 0.0;
    }
  }

  /** Otherwise a negative discriminant gives no root; a nonnegative one
      gives (−b + √D)/2a first, a second root only when it differs from the
      first by more than 1e-10, and, for a true square root, every root is a
      zero of a·x² + b·x + c. */
  lemma QuadraticCase(q: Quad, sqrt: real -> real)
    requires Abs(q.a) >= Tolerance
    ensures Discriminant(q) < 0.0 <==> Solve(q, sqrt) == []
    ensures Solve(q, sqrt) != [] ==> Solve(q, sqrt)[0].1 == Vertex(q, sqrt(Discriminant(q)))
    ensures |Solve(q, sqrt)| == 2 ==> Solve(q, sqrt)[1].1 == Vertex(q, -sqrt(Discriminant(q)))
    ensures |Solve(q, sqrt)| == 2 ==> Abs(Solve(q, sqrt)[0].1 - Solve(q, sqrt)[1].1) > Tolerance
  {
  }

  /** (−b ± s)/2a is a zero of a·x² + b·x + c when s² = b² − 4ac. */
  lemma VertexIsZero(q: Quad, s: real)
    requires q.a != 0.0 && s * s == Discriminant(q)
    ensures var x := Vertex(q, s); q.a * x * x + q.b * x + q.c == 0.0
  {
    QuadraticFormula(q.a, q.b, q.c, s, Vertex(q, s));
  }

  /** For a true square root every quadratic root is a zero of
      a·x² + b·x + c. */
  lemma QuadraticRootsAreZeros(q: Quad, sqrt: real -> real)
    requires Abs(q.a) >= Tolerance && IsSqrt(sqrt)
    ensures forall i | 0 <= i < |Solve(q, sqrt)| :: q.a * Solve(q, sqrt)[i].1 * Solve(q, sqrt)[i].1 + q.b * Solve(q, sqrt)[i].1 + q.c == 0.0
  {
    var d := Discriminant(q);
    if d >= 0.0 {
      var s := sqrt(d);
      assert s * s == d;
      assert (-s) * (-s) == d;
      VertexIsZero(q, s);
      VertexIsZero(q, -s);
      QuadraticCase(q, sqrt);
    }
  }
  // ---------------------------------------------------------------------
  // What the sign-threaded parser reads.
  // ---------------------------------------------------------------------

  /** A parameter is recorded only if one occurs in the tree, and a
      recorded one is never replaced. */
  lemma {:induction false} VariableRecorded(e: Expr, sign: real, s: Acc)
    requires Plain(e) && Walk(e, sign, s).Ok?
    ensures Walk(e, sign, s).value.variable.Some? ==> s.variable.Some? || Occurrences(e) != []
    ensures s.variable.Some? ==> Walk(e, sign, s).value.variable == s.variable
    decreases e, 1
  {
    match e
    case Const(_) =>
    case Param(_) =>
    case Bin(op, l, r) =>
      if op == Multiply && (l.Param? || r.Param?) && (l.Param? || l.Const?) && (r.Param? || r.Const?) {
      } else {
        var s1 := Walk(l, sign, s).value;
        VariableRecorded(l, sign, s);
        VariableRecorded(r, if op == Subtract then -sign else sign, s1);
      }
    case Unary(_, x) =>
      VariableRecorded(x, sign, s);
    case Call(_, args) =>
      VariableRecordedList(args, sign, s);
    case Lambda(p, body) =>
      VariableRecorded(body, sign, s);
  }

  lemma {:induction false} VariableRecordedList(args: seq<Expr>, sign: real, s: Acc)
    requires (forall a | a in args :: Plain(a)) && WalkList(args, sign, s).Ok?
    ensures WalkList(args, sign, s).value.variable.Some? ==> s.variable.Some? || OccurrencesList(args) != []
    ensures s.variable.Some? ==> WalkList(args, sign, s).value.variable == s.variable
    decreases args
  {
    if args != [] {
      VariableRecorded(args[0], sign, s);
      VariableRecordedList(args[1..], sign, Walk(args[0], sign, s).value);
    }
  }

  /** So a tree without parameters has no roots. */
  lemma NoParameterNoRoots(e: Expr, sqrt: real -> real)
    requires Plain(e) && Occurrences(e) == [] && SolveRootSpec(e, sqrt).Ok?
    ensures SolveRootSpec(e, sqrt).value == []
  {
    VariableRecorded(e, 1.0, PolynomialParser.Start);
  }

  /** A numeric constant the parser converts without loss. */
  predicate Numeric(k: Value) {
    !k.BigIntegerV? && !k.NullV?
  }

  /** The trees this parser reads correctly for x: numeric constants, x,
      sums and differences, x * x, c * x and x * c. */
  predicate SignedShape(e: Expr, x: string) {
    match e
    case Const(k) => Numeric(k)
    case Param(n) => n == x
    case Bin(Add, l, r) => SignedShape(l, x) && SignedShape(r, x)
    case Bin(Subtract, l, r) => SignedShape(l, x) && SignedShape(r, x)
    case Bin(Multiply, l, r) =>
      (l == Param(x) && r == Param(x))
      || (l.Const? && Numeric(l.value) && r == Param(x))
      || (l == Param(x) && r.Const? && Numeric(r.value))
    case _ => false
  }

  /** `Convert.ToDouble` agrees with the number a numeric constant stands
      for. */
  lemma NumericConverts(k: Value)
    requires Numeric(k)
    ensures Expressions.ToDouble(k) == Ok(Number(k).value)
  {
    match k
    case DoubleV(_) =>
    case SingleV(_) =>
    case Int32V(_) =>
    case Int64V(_) =>
    case DecimalV(_, _) =>
  }

  /** The coefficients (a, b, c) of a·x² + b·x + c that such a tree
      stands for. */
  function Coefficients(e: Expr, x: string): Coef
    requires SignedShape(e, x)
  {
    match e
    case Const(k) => PolynomialParser.Coef(0.0, 0.0, Number(k).value)
    case Param(_) => PolynomialParser.Coef(0.0, 1.0, 0.0)
    case Bin(op, l, r) =>
      if op == Add || op == Subtract then
        var p, q := Coefficients(l, x), Coefficients(r, x);
        if op == Subtract then PolynomialParser.Coef(p.a - q.a, p.b - q.b, p.c - q.c) else PolynomialParser.Coef(p.a + q.a, p.b + q.b, p.c + q.c)
      else if l.Param? && r.Param? then PolynomialParser.Coef(1.0, 0.0, 0.0)
      else if l.Const? then PolynomialParser.Coef(0.0, Number(l.value).value, 0.0)
      else PolynomialParser.Coef(0.0, Number(r.value).value, 0.0)
  }

  /** The product shapes denote v², c·v and v·c. */
  lemma SquareDenotes(x: string, v: real)
    ensures Denote(Bin(Multiply, Param(x), Param(x)), x, v).Some?
    ensures Denote(Bin(Multiply, Param(x), Param(x)), x, v).value == PolynomialParser.QuadAt(PolynomialParser.Coef(1.0, 0.0, 0.0), v)
  {
    assert Denote(Param(x), x, v) == Some(v);
  }

  lemma ScaledDenotes(k: Value, x: string, v: real, left: bool)
    requires Numeric(k)
    ensures var e := if left then Bin(Multiply, Const(k), Param(x)) else Bin(Multiply, Param(x), Const(k));
            Denote(e, x, v).Some? && Denote(e, x, v).value == PolynomialParser.QuadAt(PolynomialParser.Coef(0.0, Number(k).value, 0.0), v)
  {
    assert Denote(Param(x), x, v) == Some(v);
    assert Denote(Const(k), x, v) == Some(Number(k).value);
  }

  lemma ProductDenotes(l: Expr, r: Expr, x: string, v: real)
    requires SignedShape(Bin(Multiply, l, r), x)
    ensures Denote(Bin(Multiply, l, r), x, v).Some?
    ensures Denote(Bin(Multiply, l, r), x, v).value == PolynomialParser.QuadAt(Coefficients(Bin(Multiply, l, r), x), v)
  {
    if l.Param? && r.Param? {
      SquareDenotes(x, v);
    } else if l.Const? {
      ScaledDenotes(l.value, x, v, true);
    } else {
      ScaledDenotes(r.value, x, v, false);
    }
  }

  /** A sum or difference of two such trees denotes the quadratic of the
      summed or subtracted coefficients. */
  lemma SumDenotes(op: BinOp, l: Expr, r: Expr, x: string, v: real)
    requires op == Add || op == Subtract
    requires SignedShape(l, x) && SignedShape(r, x)
    requires Denote(l, x, v).Some? && Denote(l, x, v).value == PolynomialParser.QuadAt(Coefficients(l, x), v)
    requires Denote(r, x, v).Some? && Denote(r, x, v).value == PolynomialParser.QuadAt(Coefficients(r, x), v)
    ensures SignedShape(Bin(op, l, r), x)
    ensures Denote(Bin(op, l, r), x, v).Some?
    ensures Denote(Bin(op, l, r), x, v).value == PolynomialParser.QuadAt(Coefficients(Bin(op, l, r), x), v)
  {
    PolynomialParser.SumDenotation(op, l, r, x, v);
    SumCoefficients(op, l, r, x);
    PolynomialParser.SumValue(Coefficients(l, x), Coefficients(r, x), Coefficients(Bin(op, l, r), x),
                              Denote(l, x, v).value, Denote(r, x, v).value, Denote(Bin(op, l, r), x, v).value, v, op == Subtract);
  }

  lemma SumCoefficients(op: BinOp, l: Expr, r: Expr, x: string)
    requires op == Add || op == Subtract
    requires SignedShape(l, x) && SignedShape(r, x)
    ensures SignedShape(Bin(op, l, r), x)
    ensures var p, q := Coefficients(l, x), Coefficients(r, x);
            Coefficients(Bin(op, l, r), x)
            == if op == Subtract then PolynomialParser.Coef(p.a - q.a, p.b - q.b, p.c - q.c) else PolynomialParser.Coef(p.a + q.a, p.b + q.b, p.c + q.c)
  {
  }

  /** Such a tree denotes a·v² + b·v + c for its coefficients. */
  lemma {:induction false} CoefficientsDenote(e: Expr, x: string, v: real)
    requires SignedShape(e, x)
    ensures Denote(e, x, v).Some?
    ensures Denote(e, x, v).value == PolynomialParser.QuadAt(Coefficients(e, x), v)
  {
    match e
    case Const(k) =>
    case Param(_) =>
    case Bin(op, l, r) =>
      if op == Add || op == Subtract {
        CoefficientsDenote(l, x, v);
        CoefficientsDenote(r, x, v);
        SumDenotes(op, l, r, x, v);
      } else {
        ProductDenotes(l, r, x, v);
      }
  }

  /** One coefficient walked as a left operand with σ and a right operand
      with σ or -σ grows by σ times the sum or difference. */
  lemma SignedSum(p: real, pl: real, pr: real, sign: real, rsign: real, dl: real, dr: real, sub: bool)
    requires rsign == if sub then -sign else sign
    requires pl == p + sign * dl && pr == pl + rsign * dr
    ensures pr == p + sign * (if sub then dl - dr else dl + dr)
  {
  }

  /** What the walk adds to A, B and C: σ times the coefficients. */
  predicate Added(s: Acc, t: Acc, sign: real, k: Coef) {
    t.a == s.a + sign * k.a && t.b == s.b + sign * k.b && t.c == s.c + sign * k.c
  }

  /** The product shapes add σ to A, or σ·c to B, and record nothing. */
  lemma ScaledWalk(k: Value, x: string, sign: real, s: Acc, left: bool)
    requires Numeric(k)
    ensures var e := if left then Bin(Multiply, Const(k), Param(x)) else Bin(Multiply, Param(x), Const(k));
            && Plain(e) && Walk(e, sign, s).Ok? && Walk(e, sign, s).value.variable == s.variable
            && Added(s, Walk(e, sign, s).value, sign, PolynomialParser.Coef(0.0, Number(k).value, 0.0))
  {
    NumericConverts(k);
    assert Plain(Const(k)) && Plain(Param(x));
  }

  lemma ProductWalk(l: Expr, r: Expr, x: string, sign: real, s: Acc)
    requires SignedShape(Bin(Multiply, l, r), x)
    ensures Plain(Bin(Multiply, l, r)) && Walk(Bin(Multiply, l, r), sign, s).Ok?
    ensures Walk(Bin(Multiply, l, r), sign, s).value.variable == s.variable
    ensures Added(s, Walk(Bin(Multiply, l, r), sign, s).value, sign, Coefficients(Bin(Multiply, l, r), x))
  {
    if l.Param? && r.Param? {
      assert Plain(l) && Plain(r);
    } else if l.Const? {
      ScaledWalk(l.value, x, sign, s, true);
    } else {
      ScaledWalk(r.value, x, sign, s, false);
    }
  }

  /** A sum or difference adds what its operands add, the right one with
      the sign flipped under a difference. */
  lemma SumWalk(op: BinOp, l: Expr, r: Expr, x: string, sign: real, s: Acc)
    requires op == Add || op == Subtract
    requires SignedShape(l, x) && SignedShape(r, x)
    requires Plain(l) && Walk(l, sign, s).Ok? && Added(s, Walk(l, sign, s).value, sign, Coefficients(l, x))
    requires Plain(r) && Walk(r, if op == Subtract then -sign else sign, Walk(l, sign, s).value).Ok?
    requires Added(Walk(l, sign, s).value, Walk(r, if op == Subtract then -sign else sign, Walk(l, sign, s).value).value,
                   if op == Subtract then -sign else sign, Coefficients(r, x))
    ensures Plain(Bin(op, l, r))
    ensures Walk(Bin(op, l, r), sign, s) == Walk(r, if op == Subtract then -sign else sign, Walk(l, sign, s).value)
    ensures Added(s, Walk(Bin(op, l, r), sign, s).value, sign, Coefficients(Bin(op, l, r), x))
  {
    AddedSum(s, Walk(l, sign, s).value, Walk(r, if op == Subtract then -sign else sign, Walk(l, sign, s).value).value,
             sign, Coefficients(l, x), Coefficients(r, x), op == Subtract);
  }

  /** `Added` composes over a sum or difference. */
  lemma AddedSum(s: Acc, s1: Acc, s2: Acc, sign: real, p: Coef, q: Coef, sub: bool)
    requires Added(s, s1, sign, p) && Added(s1, s2, if sub then -sign else sign, q)
    ensures Added(s, s2, sign, if sub then PolynomialParser.Coef(p.a - q.a, p.b - q.b, p.c - q.c) else PolynomialParser.Coef(p.a + q.a, p.b + q.b, p.c + q.c))
  {
    var rsign := if sub then -sign else sign;
    SignedSum(s.a, s1.a, s2.a, sign, rsign, p.a, q.a, sub);
    SignedSum(s.b, s1.b, s2.b, sign, rsign, p.b, q.b, sub);
    SignedSum(s.c, s1.c, s2.c, sign, rsign, p.c, q.c, sub);
  }

  /** On those trees, walked with sign σ from a state that has recorded
      nothing or x, the walk succeeds, records nothing but x, and adds σ
      times the tree's coefficients to A, B and C. */
  lemma {:induction false} SignedWalk(e: Expr, x: string, sign: real, s: Acc)
    requires SignedShape(e, x) && (s.variable.None? || s.variable == Some(x))
    ensures Plain(e) && Walk(e, sign, s).Ok?
    ensures Walk(e, sign, s).value.variable.None? || Walk(e, sign, s).value.variable == Some(x)
    ensures Added(s, Walk(e, sign, s).value, sign, Coefficients(e, x))
  {
    match e
    case Const(k) =>
      NumericConverts(k);
      assert Walk(e, sign, s).value.c == s.c + Number(k).value * sign;
    case Param(_) =>
    case Bin(op, l, r) =>
      if op == Add || op == Subtract {
        SignedWalk(l, x, sign, s);
        SignedWalk(r, x, if op == Subtract then -sign else sign, Walk(l, sign, s).value);
        SumWalk(op, l, r, x, sign, s);
      } else {
        ProductWalk(l, r, x, sign, s);
      }
  }

  /** `ParseQuadratic` reads its answer off the walk from nothing with
      sign 1. */
  lemma ParsedWalk(e: Expr)
    requires Plain(e) && Walk(e, 1.0, PolynomialParser.Start).Ok?
    ensures ParseQuadraticSpec(e).Ok?
    ensures ParseQuadraticSpec(e).value.Some? <==> Walk(e, 1.0, PolynomialParser.Start).value.variable.Some?
    ensures ParseQuadraticSpec(e).value.Some? ==>
              ParseQuadraticSpec(e).value.value.param == Walk(e, 1.0, PolynomialParser.Start).value.variable.value
    ensures ParseQuadraticSpec(e).value.Some? ==>
              && ParseQuadraticSpec(e).value.value.a == Walk(e, 1.0, PolynomialParser.Start).value.a
              && ParseQuadraticSpec(e).value.value.b == Walk(e, 1.0, PolynomialParser.Start).value.b
              && ParseQuadraticSpec(e).value.value.c == Walk(e, 1.0, PolynomialParser.Start).value.c
  {
  }

  /** Walking from nothing with sign 1 leaves the coefficients themselves,
      whose quadratic is the tree's value. */
  lemma StartWalkValue(q: Quad, s: Acc, t: Coef, d: real, v: real)
    requires q.a == s.a && q.b == s.b && q.c == s.c
    requires Added(PolynomialParser.Start, s, 1.0, t)
    requires d == PolynomialParser.QuadAt(t, v)
    ensures PolynomialParser.QuadValue(q, v) == d
  {
  }

  /** So on those trees `ParseQuadratic` succeeds and, when it records a
      parameter, it is x and a·v² + b·v + c is the tree's value at v. */
  lemma SignedParsed(e: Expr, x: string, v: real)
    requires SignedShape(e, x)
    ensures Plain(e) && ParseQuadraticSpec(e).Ok? && Denote(e, x, v).Some?
    ensures ParseQuadraticSpec(e).value.Some? ==> ParseQuadraticSpec(e).value.value.param == x
    ensures ParseQuadraticSpec(e).value.Some? ==>
              PolynomialParser.QuadValue(ParseQuadraticSpec(e).value.value, v) == Denote(e, x, v).value
  {
    SignedWalk(e, x, 1.0, PolynomialParser.Start);
    CoefficientsDenote(e, x, v);
    ParsedWalk(e);
    if ParseQuadraticSpec(e).value.Some? {
      StartWalkValue(ParseQuadraticSpec(e).value.value, Walk(e, 1.0, PolynomialParser.Start).value, Coefficients(e, x),
                     Denote(e, x, v).value, v);
    }
  }

  /** Coefficients for which `Solve` returns exact zeros: a is exactly 0,
      or far enough from 0 for the quadratic formula. */
  predicate Exact(q: Quad) {
    q.a == 0.0 || Abs(q.a) >= Tolerance
  }

  /** The roots `Solve` returns for such coefficients are zeros of
      a·x² + b·x + c, given a true square root. */
  lemma SolvedAreZeros(q: Quad, sqrt: real -> real)
    requires Exact(q) && IsSqrt(sqrt)
    ensures forall i | 0 <= i < |Solve(q, sqrt)| :: PolynomialParser.QuadValue(q, Solve(q, sqrt)[i].1) == 0.0
  {
    if Abs(q.a) >= Tolerance {
      QuadraticRootsAreZeros(q, sqrt);
    } else {
      LinearCase(q, sqrt);
    }
  }

  /** `SolveRoot` on those trees: every root belongs to x and, when the
      parsed coefficients are exact, the tree is 0 there. */
  lemma SolvedRootsAreZeros(e: Expr, x: string, sqrt: real -> real)
    requires SignedShape(e, x) && IsSqrt(sqrt)
    ensures Plain(e) && SolveRootSpec(e, sqrt).Ok?
    ensures forall i | 0 <= i < |SolveRootSpec(e, sqrt).value| :: SolveRootSpec(e, sqrt).value[i].0 == x
    ensures ParseQuadraticSpec(e).value.Some? && Exact(ParseQuadraticSpec(e).value.value) ==>
              forall i | 0 <= i < |SolveRootSpec(e, sqrt).value| :: Denote(e, x, SolveRootSpec(e, sqrt).value[i].1) == Some(0.0)
  {
    SignedParsed(e, x, 0.0);
    var p := ParseQuadraticSpec(e).value;
    if p.Some? {
      var q := p.value;
      AtMostTwoRoots(q, sqrt);
      if Exact(q) {
        SolvedAreZeros(q, sqrt);
        forall i | 0 <= i < |Solve(q, sqrt)|
          ensures Denote(e, x, Solve(q, sqrt)[i].1) == Some(0.0)
        {
          SignedParsed(e, x, Solve(q, sqrt)[i].1);
        }
      }
    }
  }

  /** Neither product branch records the parameter, so a denominator whose
      only bare x sits inside a product has no roots: x·x − 4 and 2·x − 6
      give none, while x − 2 gives 2. */
  lemma ProductsRecordNoParameter(sqrt: real -> real)
    ensures SolveRootSpec(Bin(Subtract, Bin(Multiply, Param("x"), Param("x")), Double(4.0)), sqrt) == Ok([])
    ensures SolveRootSpec(Bin(Subtract, Bin(Multiply, Double(2.0), Param("x")), Double(6.0)), sqrt) == Ok([])
    ensures SolveRootSpec(Bin(Subtract, Param("x"), Double(2.0)), sqrt) == Ok([("x", 2.0)])
  {
  }
}
