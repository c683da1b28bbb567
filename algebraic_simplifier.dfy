/** Simplifiers/AlgebraicSimplifier.cs: phase 1 of the pipeline ("clean
    first"). When the tree has a single parameter, `Pow` calls are expanded;
    then a bottom-up reduction turns a division of structurally equal
    operands into 1.0 and a division that the exact polynomial long
    division resolves into its reduced quotient. `ApplyPostRicis` is the
    identity. */
module AlgebraicSimplifier {
  import opened Wrappers
  import opened Expressions
  import opened Rationals
  import ParameterFinder
  import PowToMultiplicationVisitor
  import PolynomialLongDivision
  import PolynomialCoefficientCollector
  import ExpressionComparable
  import ExpressionStructuralComparer
  import Ordering

  /** The number of division nodes outside singularity nodes. */
  function Divisions(e: Expr): nat
    decreases e, 1
  {
    match e
    case Bin(op, l, r) => (if op == Divide then 1 else 0) + Divisions(l) + Divisions(r)
    case Unary(_, y) => Divisions(y)
    case Call(_, args) => DivisionsList(args)
    case Lambda(_, b) => Divisions(b)
    case _ => 0
  }

  function DivisionsList(args: seq<Expr>): nat
    decreases args
  {
    if args == [] then 0 else Divisions(args[0]) + DivisionsList(args[1..])
  }

  /** A sum of products of constants and the parameter: the shape of
      every quotient `BuildExpressionFromCoefficients` makes. */
  predicate SumOfProducts(e: Expr) {
    match e
    case Const(_) => true
    case Param(_) => true
    case Bin(op, l, r) => (op == Add || op == Multiply) && SumOfProducts(l) && SumOfProducts(r)
    case _ => false
  }

  lemma {:induction false} SumOfProductsIsPlain(e: Expr)
    requires SumOfProducts(e)
    ensures Plain(e) && Divisions(e) == 0
  {
    if e.Bin? {
      SumOfProductsIsPlain(e.left);
      SumOfProductsIsPlain(e.right);
    }
  }

  lemma {:induction false} ChainIsProduct(x: string, n: int)
    ensures SumOfProducts(PolynomialLongDivision.PowerChain(x, n))
    decreases n
  {
    if n > 1 {
      ChainIsProduct(x, n - 1);
    }
  }

  lemma {:induction false} JoinedIsSum(q: map<int, Rat>, x: string, degs: seq<int>)
    ensures PolynomialLongDivision.Joined(q, x, degs).Some? ==> SumOfProducts(PolynomialLongDivision.Joined(q, x, degs).value)
    decreases |degs|
  {
    if degs != [] {
      var d := degs[|degs| - 1];
      JoinedIsSum(q, x, degs[..|degs| - 1]);
      ChainIsProduct(x, d);
    }
  }

  /** A quotient that `TryDivide` returns is division-free and plain. */
  lemma QuotientIsSum(numerator: Expr, denominator: Expr, x: string)
    requires Plain(numerator) && Plain(denominator)
    requires PolynomialLongDivision.TryDivideSpec(numerator, denominator, x).Ok?
    requires PolynomialLongDivision.TryDivideSpec(numerator, denominator, x).value.Some?
    ensures Plain(PolynomialLongDivision.TryDivideSpec(numerator, denominator, x).value.value)
    ensures Divisions(PolynomialLongDivision.TryDivideSpec(numerator, denominator, x).value.value) == 0
  {
    PolynomialLongDivision.TryDivideExact(numerator, denominator, x);
    var num := PolynomialCoefficientCollector.Collect(x, numerator).value.1;
    var den := PolynomialCoefficientCollector.Collect(x, denominator).value.1;
    var q :| PolynomialLongDivision.ExactQuotient(num, den, q)
             && PolynomialLongDivision.TryDivideSpec(numerator, denominator, x).value.value == PolynomialLongDivision.Build(q, x);
    if q != map[] {
      JoinedIsSum(q, x, Ordering.Descending(q.Keys));
    }
    SumOfProductsIsPlain(PolynomialLongDivision.Build(q, x));
  }

  /** `AlgebraicReductionVisitor`: both operands are reduced first; a
      division of structurally equal results becomes 1.0; otherwise, when
      the original division has a single parameter and `TryDivide`
      succeeds, the quotient is reduced in turn; every other node is
      rebuilt from its reduced children. */
  function Reduce(e: Expr): (r: Result<Expr>)
    requires Plain(e)
    ensures r.Ok? ==> Plain(r.value)
    decreases Divisions(e), Size(e), 0
  {
    match e
    case Bin(op, l, rt) =>
      var left :- Reduce(l);
      var right :- Reduce(rt);
      if op != Divide then Ok(Bin(op, left, right))
      else if ExpressionComparable.Eq(Some(left), Some(right)) then Ok(Double(1.0))
      else
        var p := ParameterFinder.Track(None, Occurrences(e));
        if p.None? then Ok(Bin(op, left, right))
        else
          var divided :- PolynomialLongDivision.TryDivideSpec(left, right, p.value);
          if divided.None? then Ok(Bin(op, left, right))
          else
            QuotientIsSum(left, right, p.value);
            Reduce(divided.value)
    case Unary(u, y) =>
      var y' :- Reduce(y);
      Ok(Unary(u, y'))
    case Call(m, args) =>
      var args' :- ReduceList(args);
      Ok(Call(m, args'))
    case Lambda(p, b) =>
      var b' :- Reduce(b);
      Ok(Lambda(p, b'))
    case _ => Ok(e)
  }

  function ReduceList(args: seq<Expr>): (r: Result<seq<Expr>>)
    requires forall a | a in args :: Plain(a)
    ensures r.Ok? ==> |r.value| == |args| && forall a | a in r.value :: Plain(a)
    decreases DivisionsList(args), SizeList(args), 1
  {
    if args == [] then Ok([])
    else
      assert args[0] in args;
      var h :- Reduce(args[0]);
      var t :- ReduceList(args[1..]);
      Ok([h] + t)
  }

  /** `CleanFirst(expr)`: `Pow` expansion when `ParameterFinder` reports a
      single parameter, then the reduction. */
  function CleanFirst(e: Expr): Result<Expr>
    requires Plain(e)
  {
    var p := ParameterFinder.Track(None, Occurrences(e));
    var expanded := if p.Some? then PowToMultiplicationVisitor.Rewrite(e, p.value) else e;
    Reduce(expanded)
  }

  /** `ApplyPostRicis(expr)`: returns its argument. */
  function ApplyPostRicis(e: Expr): Expr {
    e
  }

  /** A division-free tree is left exactly as it is. */
  lemma {:induction false} DivisionFreeUnchanged(e: Expr)
    requires Plain(e) && Divisions(e) == 0
    ensures Reduce(e) == Ok(e)
    decreases e, 1
  {
    match e
    case Const(_) =>
    case Param(_) =>
    case Bin(_, l, r) =>
      DivisionFreeUnchanged(l);
      DivisionFreeUnchanged(r);
    case Unary(_, y) =>
      DivisionFreeUnchanged(y);
    case Call(_, args) =>
      DivisionFreeUnchangedList(args);
    case Lambda(_, b) =>
      DivisionFreeUnchanged(b);
  }

  lemma {:induction false} DivisionFreeUnchangedList(args: seq<Expr>)
    requires forall a | a in args :: Plain(a)
    requires DivisionsList(args) == 0
    ensures ReduceList(args) == Ok(args)
    decreases args
  {
    if args != [] {
      DivisionFreeUnchanged(args[0]);
      DivisionFreeUnchangedList(args[1..]);
      assert [args[0]] + args[1..] == args;
    }
  }

  /** What a division becomes, by case: 1.0 for structurally equal reduced
      operands; the exact quotient of their coefficient maps, unchanged by
      further reduction, when the division has one parameter and the long
      division succeeds; otherwise the division of the reduced operands. */
  lemma DivisionCases(l: Expr, r: Expr)
    requires Plain(l) && Plain(r) && Reduce(l).Ok? && Reduce(r).Ok?
    ensures Plain(Bin(Divide, l, r))
    ensures var left := Reduce(l).value;
            var right := Reduce(r).value;
            var p := ParameterFinder.Track(None, Occurrences(Bin(Divide, l, r)));
            if ExpressionComparable.Eq(Some(left), Some(right)) then Reduce(Bin(Divide, l, r)) == Ok(Double(1.0))
            else if p.None? then Reduce(Bin(Divide, l, r)) == Ok(Bin(Divide, left, right))
            else if PolynomialLongDivision.TryDivideSpec(left, right, p.value).Throw? then Reduce(Bin(Divide, l, r)).Throw?
            else if PolynomialLongDivision.TryDivideSpec(left, right, p.value).value.None? then
              Reduce(Bin(Divide, l, r)) == Ok(Bin(Divide, left, right))
            else
              Reduce(Bin(Divide, l, r)) == Ok(PolynomialLongDivision.TryDivideSpec(left, right, p.value).value.value)
              && PolynomialCoefficientCollector.Collect(p.value, left).Ok? && PolynomialCoefficientCollector.Collect(p.value, right).Ok?
              && exists q :: PolynomialLongDivision.ExactQuotient(PolynomialCoefficientCollector.Collect(p.value, left).value.1,
                                                               PolynomialCoefficientCollector.Collect(p.value, right).value.1, q)
                             && Reduce(Bin(Divide, l, r)).value == PolynomialLongDivision.Build(q, p.value)
  {
    var e := Bin(Divide, l, r);
    var left := Reduce(l).value;
    var right := Reduce(r).value;
    var p := ParameterFinder.Track(None, Occurrences(e));
    if !ExpressionComparable.Eq(Some(left), Some(right)) && p.Some?
       && PolynomialLongDivision.TryDivideSpec(left, right, p.value).Ok?
       && PolynomialLongDivision.TryDivideSpec(left, right, p.value).value.Some? {
      var q := PolynomialLongDivision.TryDivideSpec(left, right, p.value).value.value;
      QuotientIsSum(left, right, p.value);
      DivisionFreeUnchanged(q);
      PolynomialLongDivision.TryDivideExact(left, right, p.value);
    }
  }

  /** Other binary operators are rebuilt from their reduced operands. */
  lemma BottomUp(op: BinOp, l: Expr, r: Expr)
    requires op != Divide && Plain(l) && Plain(r)
    ensures Plain(Bin(op, l, r))
    ensures Reduce(l).Ok? && Reduce(r).Ok? ==> Reduce(Bin(op, l, r)) == Ok(Bin(op, Reduce(l).value, Reduce(r).value))
    ensures Reduce(l).Throw? ==> Reduce(Bin(op, l, r)) == Throw(Reduce(l).error)
  {
  }

  /** After the reduction no division has structurally equal operands. */
  lemma {:induction false} NoSelfDivisionLeft(e: Expr)
    requires Plain(e) && Reduce(e).Ok?
    ensures NoSelfDivision(Reduce(e).value)
    decreases Divisions(e), Size(e), 0
  {
    match e
    case Const(_) =>
    case Param(_) =>
    case Bin(op, l, r) =>
      NoSelfDivisionLeft(l);
      NoSelfDivisionLeft(r);
      if op == Divide {
        DivisionCases(l, r);
        var left := Reduce(l).value;
        var right := Reduce(r).value;
        var p := ParameterFinder.Track(None, Occurrences(e));
        if !ExpressionComparable.Eq(Some(left), Some(right)) && p.Some?
           && PolynomialLongDivision.TryDivideSpec(left, right, p.value).value.Some? {
          var q := PolynomialLongDivision.TryDivideSpec(left, right, p.value).value.value;
          QuotientIsSum(left, right, p.value);
          DivisionFreeNoSelfDivision(q);
        }
      }
    case Unary(_, y) =>
      NoSelfDivisionLeft(y);
    case Call(_, args) =>
      NoSelfDivisionLeftList(args);
    case Lambda(_, b) =>
      NoSelfDivisionLeft(b);
  }

  lemma {:induction false} NoSelfDivisionLeftList(args: seq<Expr>)
    requires forall a | a in args :: Plain(a)
    requires ReduceList(args).Ok?
    ensures forall a | a in ReduceList(args).value :: NoSelfDivision(a)
    decreases DivisionsList(args), SizeList(args), 1
  {
    if args != [] {
      assert args[0] in args;
      NoSelfDivisionLeft(args[0]);
      NoSelfDivisionLeftList(args[1..]);
    }
  }

  lemma {:induction false} DivisionFreeNoSelfDivision(e: Expr)
    requires Divisions(e) == 0
    ensures NoSelfDivision(e)
    decreases e, 1
  {
    match e
    case Bin(_, l, r) =>
      DivisionFreeNoSelfDivision(l);
      DivisionFreeNoSelfDivision(r);
    case Unary(_, y) =>
      DivisionFreeNoSelfDivision(y);
    case Call(_, args) =>
      forall a | a in args
        ensures NoSelfDivision(a)
      {
        DivisionsInList(args, a);
        DivisionFreeNoSelfDivision(a);
      }
    case Lambda(_, b) =>
      DivisionFreeNoSelfDivision(b);
    case _ =>
  }

  lemma {:induction false} DivisionsInList(args: seq<Expr>, a: Expr)
    requires a in args
    ensures Divisions(a) <= DivisionsList(args)
    decreases args
  {
    if args[0] != a {
      DivisionsInList(args[1..], a);
    }
  }

  /** No division node whose operands are structurally equal. */
  predicate NoSelfDivision(e: Expr)
    decreases e
  {
    match e
    case Bin(op, l, r) =>
      (op == Divide ==> !ExpressionComparable.Eq(Some(l), Some(r))) && NoSelfDivision(l) && NoSelfDivision(r)
    case Unary(_, y) => NoSelfDivision(y)
    case Call(_, args) => forall a | a in args :: NoSelfDivision(a)
    case Lambda(_, b) => NoSelfDivision(b)
    case _ => true
  }

  /** Pow(x, 2.0) / Pow(x, 2.0) cleans to 1.0: both sides expand to x * x,
      which compare equal. */
  lemma SquareOverSquare(x: string)
    ensures Plain(Bin(Divide, Call(Method(true, "Pow"), [Param(x), Double(2.0)]), Call(Method(true, "Pow"), [Param(x), Double(2.0)])))
    ensures CleanFirst(Bin(Divide, Call(Method(true, "Pow"), [Param(x), Double(2.0)]), Call(Method(true, "Pow"), [Param(x), Double(2.0)])))
            == Ok(Double(1.0))
  {
    var pow := Call(Method(true, "Pow"), [Param(x), Double(2.0)]);
    var e := Bin(Divide, pow, pow);
    assert Plain(pow);
    assert Plain(e);
    var args := [Param(x), Double(2.0)];
    assert args[1..] == [Double(2.0)];
    assert args[1..][1..] == [];
    assert OccurrencesList(args[1..]) == [] + [];
    assert OccurrencesList(args) == [x] + [];
    assert Occurrences(e) == [x, x];
    ParameterFinder.SingleNameFound([x, x], x);
    PowToMultiplicationVisitor.PowOfParameter(x, 2.0, 0.0);
    var square := Bin(Multiply, Param(x), Param(x));
    assert PowToMultiplicationVisitor.Rewrite(e, x) == Bin(Divide, square, square);
    assert Plain(square);
    DivisionFreeUnchanged(square);
    ExpressionStructuralComparer.Reflexive(square);
  }
}
