/** ZeroSolver/PolynomialCoefficientCollector.cs: a visitor that collects a
    degree → coefficient map of a tree seen as a polynomial in one parameter.

    The class's own `public void Visit` hides the framework's `Visit`, and the
    class calls it for the operands of +, −, * and unary minus; so every such
    sub-traversal starts by setting `IsPolynomial` and clearing the map, and
    empties the map again if the operand was not polynomial. Nodes the
    framework descends into on its own (a lambda's body and parameter) are
    visited without that reset. */
module PolynomialCoefficientCollector {
  import opened Wrappers
  import opened Expressions
  import opened Rationals
  import opened Ordering
  import RealMath

  /** The collector's fields: `_currentPower`, `_currentMultiplier`,
      `IsPolynomial` and `Coefficients`. */
  datatype State = State(power: int, mult: Rat, poly: bool, coeffs: map<int, Rat>)

  /** The fields of a freshly constructed collector. */
  const Initial: State := State(-1, One, true, map[])

  /** No zero coefficient is stored. */
  predicate NoZero(m: map<int, Rat>) {
    forall k | k in m :: m[k].num != 0
  }

  /** The coefficient a map gives degree k, absent meaning zero. */
  function CoefVal(m: map<int, Rat>, k: int): real {
    if k in m then Rationals.ToDouble(m[k]) else 0.0
  }

  /** `AddToCoefficients`: a zero input is ignored; otherwise it is added to
      the entry for that degree, which is removed if the sum is zero. */
  function AddTo(m: map<int, Rat>, k: int, c: Rat): (r: map<int, Rat>)
    ensures NoZero(m) ==> NoZero(r)
    ensures CoefVal(r, k) == CoefVal(m, k) + Rationals.ToDouble(c)
  {
    if c.num == 0 then m
    else
      var sum := if k in m then Rationals.Add(c, m[k]) else c;
      if sum.num == 0 then m - {k} else m[k := sum]
  }

  lemma AddToValue(m: map<int, Rat>, k0: int, c: Rat, k: int)
    ensures CoefVal(AddTo(m, k0, c), k) == CoefVal(m, k) + (if k == k0 then Rationals.ToDouble(c) else 0.0)
  {
    if k != k0 && c.num != 0 {
      var sum := if k0 in m then Rationals.Add(c, m[k0]) else c;
      if sum.num == 0 {
        assert CoefVal(m - {k0}, k) == CoefVal(m, k);
      } else {
        assert CoefVal(m[k0 := sum], k) == CoefVal(m, k);
      }
    }
  }

  /** `Math.Round` on doubles: the nearest integer, and of two equally near
      ones the even one. */
  function RoundHalfEven(d: real): (n: int)
    ensures -0.5 <= d - n as real <= 0.5
    ensures d == d.Floor as real ==> n == d.Floor
    ensures d - n as real == 0.5 || d - n as real == -0.5 ==> n % 2 == 0
  {
    var f := d.Floor;
    var frac := d - f as real;
    if frac < 0.5 then f else if frac > 0.5 then f + 1 else if f % 2 == 0 then f else f + 1
  }

  /** `(double)n` for a `long` n. Doubles are reals here, so the conversion
      is exact, except for `long.MaxValue`, 2^63 − 1, which no double holds
      and which becomes 2^63; it is what the saturated cast gives every
      double from 2^63 up. */
  function LongAsDouble(n: int): real {
    if n == LongMax then (LongMax + 1) as real else n as real
  }

  /** The doubles `ConvertConstantToRational` accepts: the integral ones
      from −2^63 to 2^63, as reals, except 2^63 − 1, the one the check
      `Math.Abs(db - intValue) == 0` compares with 2^63. */
  predicate LongConvertible(d: real) {
    d == d.Floor as real && LongMin as real <= d <= LongMax as real + 1.0 && d != LongMax as real
  }

  /** `ConvertConstantToRational`: the value, and whether the collector is
      still polynomial afterwards. A double is rounded and cast to `long`;
      when that `long` is the double again it converts, and otherwise the
      double clears `IsPolynomial` and gives zero. Null and unsupported
      types (float) throw. */
  function ConvertConstant(v: Value): (r: Result<(Rat, bool)>)
    ensures r.Throw? <==> v.NullV? || v.SingleV?
    ensures v.NullV? ==> r == Throw(ArgumentNull)
    ensures v.SingleV? ==> r == Throw(Argument)
    ensures r.Ok? ==> (!r.value.1 <==> v.DoubleV? && !LongConvertible(v.d))
    ensures r.Ok? && !r.value.1 ==> r.value.0 == Zero
    ensures r.Ok? && r.value.1 && v.DoubleV? ==> r.value.0 == FromInt(SaturatedLong(v.d.Floor))
  {
    match v
    case DoubleV(d) =>
      var intValue := SaturatedLong(RoundHalfEven(d));
      if RealMath.Abs(d - LongAsDouble(intValue)) == 0.0 then Ok((FromInt(intValue), true)) else Ok((Zero, false))
    case Int32V(i) => Ok((FromInt(i), true))
    case Int64V(l) => Ok((FromInt(l), true))
    case BigIntegerV(b) => Ok((FromInt(b), true))
    case DecimalV(m, s) => Ok((FromDecimal(m, s), true))
    case NullV => Throw(ArgumentNull)
    case SingleV(_) => Throw(Argument)
  }

  /** `VisitParameter`: the target parameter adds its current multiplier at
      the current power, a pending power of −1 first becoming 1; any other
      parameter clears `IsPolynomial`. */
  function ParameterStep(x: string, n: string, s: State): State {
    if n == x then
      var p := if s.power < 0 then 1 else s.power;
      s.(power := p, coeffs := AddTo(s.coeffs, p, s.mult))
    else s.(poly := false)
  }

  /** `VisitConstant`, after conversion. */
  function ConstantStep(value: Rat, s: State): State {
    if s.power < 0 then s.(coeffs := AddTo(s.coeffs, 0, value))
    else s.(coeffs := AddTo(s.coeffs, s.power, Mul(s.mult, value)))
  }

  /** The class's `public void Visit`. */
  function VisitSpec(x: string, e: Expr, s: State): Result<State>
    requires Plain(e)
    decreases e, 2
  {
    var after :- Dispatch(x, e, s.(poly := true, coeffs := map[]));
    Ok(if after.poly then after else after.(coeffs := map[]))
  }

  /** The framework's `Visit`, dispatching to the overridden `Visit*` methods. */
  function Dispatch(x: string, e: Expr, s: State): Result<State>
    requires Plain(e)
    decreases e, 1
  {
    match e
    case Const(v) =>
      var (value, poly) :- ConvertConstant(v);
      Ok(ConstantStep(value, s.(poly := s.poly && poly)))
    case Param(n) => Ok(ParameterStep(x, n, s))
    case Bin(op, l, r) =>
      if !s.poly then Ok(s)
      else if op == Add || op == Subtract then
        var left :- VisitSpec(x, l, s);
        var restored := State(s.power, if op == Subtract then Neg(s.mult) else s.mult, left.poly, s.coeffs);
        var right :- VisitSpec(x, r, restored);
        Ok(State(left.power, left.mult, right.poly, left.coeffs))
      else if op == Multiply then MultiplySpec(x, l, r, s)
      else Ok(s.(poly := false))
    case Unary(Negate, y) =>
      var inner :- VisitSpec(x, y, s.(mult := Neg(s.mult)));
      Ok(inner.(mult := Neg(inner.mult)))
    case Unary(_, _) => Ok(s.(poly := false))
    case Call(_, _) => Ok(s.(poly := false))
    case Lambda(p, b) =>
      var inner :- Dispatch(x, b, s);
      Ok(ParameterStep(x, p, inner))
  }

  /** `VisitMultiply`: collect each operand as its own polynomial and store
      their product; power and multiplier then reset to −1 and 1. */
  function MultiplySpec(x: string, l: Expr, r: Expr, s: State): Result<State>
    requires Plain(l) && Plain(r)
    decreases Bin(Multiply, l, r), 0
  {
    var left :- VisitSpec(x, l, s);
    if !left.poly then Ok(left)
    else
      var right :- VisitSpec(x, r, State(s.power, s.mult, left.poly, map[]));
      if !right.poly then Ok(right)
      else Ok(State(-1, One, true, Convolve(left.coeffs, right.coeffs)))
  }

  /** The steps of `MultiplySpec` one by one: the left operand, then the
      right one from a fresh polynomial state, then their product. */
  lemma MultiplySteps(x: string, l: Expr, r: Expr, s: State)
    requires Plain(l) && Plain(r)
    ensures VisitSpec(x, l, s).Throw? ==> MultiplySpec(x, l, r, s) == VisitSpec(x, l, s).PropagateFailure()
    ensures VisitSpec(x, l, s).Ok? && !VisitSpec(x, l, s).value.poly ==> MultiplySpec(x, l, r, s) == VisitSpec(x, l, s)
    ensures VisitSpec(x, l, s).Ok? && VisitSpec(x, l, s).value.poly ==>
              var right := VisitSpec(x, r, State(s.power, s.mult, true, map[]));
              && (right.Throw? ==> MultiplySpec(x, l, r, s) == right)
              && (right.Ok? && !right.value.poly ==> MultiplySpec(x, l, r, s) == right)
              && (right.Ok? && right.value.poly ==>
                    MultiplySpec(x, l, r, s) == Ok(State(-1, One, true, Convolve(VisitSpec(x, l, s).value.coeffs, right.value.coeffs))))
  {
  }

  // ---------------------------------------------------------------------
  // The product of two coefficient maps, built by the nested loops of
  // `VisitMultiply`. Both dictionaries are enumerated in ascending key order.
  // ---------------------------------------------------------------------

  /** The entry for degree k, absent meaning zero. */
  function Get(m: map<int, Rat>, k: int): (c: Rat)
    ensures Rationals.ToDouble(c) == CoefVal(m, k)
  {
    if k in m then m[k] else Zero
  }

  /** The inner loop: one left entry (a, av) times the right entries of degrees `bs`. */
  function Row(m: map<int, Rat>, a: int, av: Rat, right: map<int, Rat>, bs: seq<int>): map<int, Rat>
    decreases |bs|
  {
    if bs == [] then m
    else
      var b := bs[|bs| - 1];
      AddTo(Row(m, a, av, right, bs[..|bs| - 1]), a + b, Mul(av, Get(right, b)))
  }

  /** The outer loop over the left entries of degrees `as_`. */
  function Rows(m: map<int, Rat>, left: map<int, Rat>, as_: seq<int>, right: map<int, Rat>, bs: seq<int>): map<int, Rat>
    decreases |as_|
  {
    if as_ == [] then m
    else
      var a := as_[|as_| - 1];
      Row(Rows(m, left, as_[..|as_| - 1], right, bs), a, Get(left, a), right, bs)
  }

  lemma RowStep(m: map<int, Rat>, a: int, av: Rat, right: map<int, Rat>, bs: seq<int>, j: int)
    requires 0 <= j < |bs|
    ensures Row(m, a, av, right, bs[..j + 1]) == AddTo(Row(m, a, av, right, bs[..j]), a + bs[j], Mul(av, Get(right, bs[j])))
  {
    assert bs[..j + 1][..j] == bs[..j];
  }

  lemma RowsStep(left: map<int, Rat>, as_: seq<int>, right: map<int, Rat>, bs: seq<int>, i: int)
    requires 0 <= i < |as_|
    ensures Rows(map[], left, as_[..i + 1], right, bs)
            == Row(Rows(map[], left, as_[..i], right, bs), as_[i], Get(left, as_[i]), right, bs)
  {
    assert as_[..i + 1][..i] == as_[..i];
  }

  /** The map `VisitMultiply` stores for operand maps `left` and `right`. */
  function Convolve(left: map<int, Rat>, right: map<int, Rat>): map<int, Rat> {
    Rows(map[], left, Ascending(left.Keys), right, Ascending(right.Keys))
  }

  /** The sum of av · right[b] over the degrees b in `bs` with a + b == k. */
  function RowSum(a: int, av: Rat, right: map<int, Rat>, bs: seq<int>, k: int): real
    decreases |bs|
  {
    if bs == [] then 0.0
    else
      var b := bs[|bs| - 1];
      RowSum(a, av, right, bs[..|bs| - 1], k) + (if a + b == k then Rationals.ToDouble(Mul(av, Get(right, b))) else 0.0)
  }

  /** The sum of left[a] · right[b] over the degree pairs with a + b == k. */
  function PairSum(left: map<int, Rat>, as_: seq<int>, right: map<int, Rat>, bs: seq<int>, k: int): real
    decreases |as_|
  {
    if as_ == [] then 0.0
    else
      var a := as_[|as_| - 1];
      PairSum(left, as_[..|as_| - 1], right, bs, k) + RowSum(a, Get(left, a), right, bs, k)
  }

  lemma {:induction false} RowValue(m: map<int, Rat>, a: int, av: Rat, right: map<int, Rat>, bs: seq<int>, k: int)
    ensures NoZero(m) ==> NoZero(Row(m, a, av, right, bs))
    ensures CoefVal(Row(m, a, av, right, bs), k) == CoefVal(m, k) + RowSum(a, av, right, bs, k)
    decreases |bs|
  {
    if bs != [] {
      var b := bs[|bs| - 1];
      var before := Row(m, a, av, right, bs[..|bs| - 1]);
      RowValue(m, a, av, right, bs[..|bs| - 1], k);
      var c := Mul(av, Get(right, b));
      assert Row(m, a, av, right, bs) == AddTo(before, a + b, c);
      assert RowSum(a, av, right, bs, k) == RowSum(a, av, right, bs[..|bs| - 1], k) + (if a + b == k then Rationals.ToDouble(c) else 0.0);
      AddToValue(before, a + b, c, k);
    }
  }

  lemma {:induction false} RowsValue(m: map<int, Rat>, left: map<int, Rat>, as_: seq<int>, right: map<int, Rat>, bs: seq<int>, k: int)
    ensures NoZero(m) ==> NoZero(Rows(m, left, as_, right, bs))
    ensures CoefVal(Rows(m, left, as_, right, bs), k) == CoefVal(m, k) + PairSum(left, as_, right, bs, k)
    decreases |as_|
  {
    if as_ != [] {
      var a := as_[|as_| - 1];
      RowsValue(m, left, as_[..|as_| - 1], right, bs, k);
      RowValue(Rows(m, left, as_[..|as_| - 1], right, bs), a, Get(left, a), right, bs, k);
    }
  }

  /** The product map stores no zero, and its coefficient of degree k is
      the sum of left[a] · right[b] over the pairs of degrees with a + b == k. */
  lemma ConvolveMeaning(left: map<int, Rat>, right: map<int, Rat>, k: int)
    ensures NoZero(Convolve(left, right))
    ensures CoefVal(Convolve(left, right), k)
            == PairSum(left, Ascending(left.Keys), right, Ascending(right.Keys), k)
  {
    RowsValue(map[], left, Ascending(left.Keys), right, Ascending(right.Keys), k);
  }

  lemma MulNonzero(a: Rat, b: Rat)
    requires a.num != 0 && b.num != 0
    ensures Mul(a, b).num != 0
  {
    assert Rationals.ToDouble(a) != 0.0 && Rationals.ToDouble(b) != 0.0;
    assert Rationals.ToDouble(Mul(a, b)) != 0.0;
  }

  /** One term times one term: degrees add and coefficients multiply. */
  lemma MonomialProduct(a: int, av: Rat, b: int, bv: Rat)
    requires av.num != 0 && bv.num != 0
    ensures Convolve(map[a := av], map[b := bv]) == map[a + b := Mul(av, bv)]
  {
    var l, r := map[a := av], map[b := bv];
    assert l.Keys == {a} && r.Keys == {b};
    AscendingSingleton(a);
    AscendingSingleton(b);
    SingleRows(l, a, r, [b]);
    assert Get(l, a) == av && Get(r, b) == bv;
    SingleRow(map[], a, av, r, b);
    MulNonzero(av, bv);
    AddToEmpty(a + b, Mul(av, bv));
  }

  lemma SingleRows(left: map<int, Rat>, a: int, right: map<int, Rat>, bs: seq<int>)
    ensures Rows(map[], left, [a], right, bs) == Row(map[], a, Get(left, a), right, bs)
  {
    assert [a][..0] == [];
  }

  lemma SingleRow(m: map<int, Rat>, a: int, av: Rat, right: map<int, Rat>, b: int)
    ensures Row(m, a, av, right, [b]) == AddTo(m, a + b, Mul(av, Get(right, b)))
  {
    assert [b][..0] == [];
  }

  lemma AddToEmpty(k: int, c: Rat)
    requires c.num != 0
    ensures AddTo(map[], k, c) == map[k := c]
  {
  }

  // ---------------------------------------------------------------------
  // What a traversal computes.
  // ---------------------------------------------------------------------

  /** The map never holds a zero coefficient. */
  lemma {:induction false} VisitKeepsNoZero(x: string, e: Expr, s: State)
    requires Plain(e)
    ensures VisitSpec(x, e, s).Ok? ==> NoZero(VisitSpec(x, e, s).value.coeffs)
    decreases e, 2
  {
    DispatchKeepsNoZero(x, e, s.(poly := true, coeffs := map[]));
  }

  lemma {:induction false} DispatchKeepsNoZero(x: string, e: Expr, s: State)
    requires Plain(e) && NoZero(s.coeffs)
    ensures Dispatch(x, e, s).Ok? ==> NoZero(Dispatch(x, e, s).value.coeffs)
    decreases e, 1
  {
    match e
    case Const(_) =>
    case Param(_) =>
    case Bin(op, l, r) =>
      if s.poly && (op == Add || op == Subtract) {
        VisitKeepsNoZero(x, l, s);
      } else if s.poly && op == Multiply {
        var left := VisitSpec(x, l, s);
        VisitKeepsNoZero(x, l, s);
        if left.Ok? && left.value.poly {
          VisitKeepsNoZero(x, r, State(s.power, s.mult, true, map[]));
          var right := VisitSpec(x, r, State(s.power, s.mult, true, map[]));
          if right.Ok? && right.value.poly {
            ConvolveMeaning(left.value.coeffs, right.value.coeffs, 0);
          }
        }
      }
    case Unary(Negate, y) =>
      VisitKeepsNoZero(x, y, s.(mult := Neg(s.mult)));
    case Unary(_, _) =>
    case Call(_, _) =>
    case Lambda(_, b) =>
      DispatchKeepsNoZero(x, b, s);
  }

  /** What the caller sees of a traversal: `IsPolynomial` and `Coefficients`
      after `Visit` on a fresh collector. */
  function Collect(x: string, e: Expr): Result<(bool, map<int, Rat>)>
    requires Plain(e)
  {
    var s :- VisitSpec(x, e, Initial);
    Ok((s.poly, s.coeffs))
  }

  /** The outcome of `Visit` does not depend on the map or flag left by a
      previous traversal: every (sub-)traversal starts afresh. */
  lemma VisitForgetsPreviousMap(x: string, e: Expr, s: State, coeffs: map<int, Rat>, poly: bool)
    requires Plain(e)
    ensures VisitSpec(x, e, s) == VisitSpec(x, e, s.(coeffs := coeffs, poly := poly))
  {
    assert s.(poly := true, coeffs := map[]) == s.(coeffs := coeffs, poly := poly).(poly := true, coeffs := map[]);
  }

  /** A non-polynomial outcome always comes with an empty map. */
  lemma NotPolynomialEmpty(x: string, e: Expr, s: State)
    requires Plain(e) && VisitSpec(x, e, s).Ok? && !VisitSpec(x, e, s).value.poly
    ensures VisitSpec(x, e, s).value.coeffs == map[]
  {
  }

  /** A bare target parameter is degree 1 with the current multiplier; a
      constant with no pending power is degree 0 with its own value. */
  lemma Leaves(x: string, c: int)
    requires c != 0
    ensures Collect(x, Param(x)) == Ok((true, map[1 := One]))
    ensures Collect(x, Const(Int32V(c))) == Ok((true, map[0 := FromInt(c)]))
  {
    assert Initial.(poly := true, coeffs := map[]) == Initial;
    assert AddTo(map[], 1, One) == map[1 := One];
    assert Dispatch(x, Param(x), Initial) == Ok(State(1, One, true, map[1 := One]));
    assert VisitSpec(x, Param(x), Initial) == Ok(State(1, One, true, map[1 := One]));
    var v := FromInt(c);
    assert v.num == c;
    assert AddTo(map[], 0, v) == map[0 := v];
    assert Dispatch(x, Const(Int32V(c)), Initial) == Ok(State(-1, One, true, map[0 := v]));
    assert VisitSpec(x, Const(Int32V(c)), Initial) == Ok(State(-1, One, true, map[0 := v]));
  }

  /** Method calls, other parameters, unary operators other than minus,
      binaries other than +, −, * and non-integral doubles are not polynomial. */
  lemma NotPolynomialShapes(x: string, y: string, m: Method, args: seq<Expr>, d: real)
    requires y != x && d != d.Floor as real && forall a | a in args :: Plain(a)
    ensures Collect(x, Call(m, args)) == Ok((false, map[]))
    ensures Collect(x, Param(y)) == Ok((false, map[]))
    ensures Collect(x, Unary(UnaryPlus, Param(x))) == Ok((false, map[]))
    ensures Collect(x, Bin(Divide, Param(x), Param(x))) == Ok((false, map[]))
    ensures Collect(x, Double(d)) == Ok((false, map[]))
  {
    assert Initial.(poly := true, coeffs := map[]) == Initial;
    var off := Initial.(poly := false);
    assert Dispatch(x, Call(m, args), Initial) == Ok(off);
    assert VisitSpec(x, Call(m, args), Initial) == Ok(off.(coeffs := map[]));
    assert Dispatch(x, Param(y), Initial) == Ok(off);
    assert VisitSpec(x, Param(y), Initial) == Ok(off.(coeffs := map[]));
    assert Dispatch(x, Unary(UnaryPlus, Param(x)), Initial) == Ok(off);
    assert VisitSpec(x, Unary(UnaryPlus, Param(x)), Initial) == Ok(off.(coeffs := map[]));
    assert Dispatch(x, Bin(Divide, Param(x), Param(x)), Initial) == Ok(off);
    assert VisitSpec(x, Bin(Divide, Param(x), Param(x)), Initial) == Ok(off.(coeffs := map[]));
    assert ConvertConstant(DoubleV(d)) == Ok((Zero, false));
    assert AddTo(map[], 0, Zero) == map[];
    assert Dispatch(x, Double(d), Initial) == Ok(off);
    assert VisitSpec(x, Double(d), Initial) == Ok(off.(coeffs := map[]));
  }

  /** The cast at the ends of the `long` range: 1e20 clears the polynomial
      flag, while 2^63 is taken for 2^63 − 1. */
  lemma CastAtLongBounds()
    ensures ConvertConstant(DoubleV(100_000_000_000_000_000_000.0)) == Ok((Zero, false))
    ensures ConvertConstant(DoubleV(LongMax as real + 1.0)) == Ok((FromInt(LongMax), true))
  {
    assert !LongConvertible(100_000_000_000_000_000_000.0);
    assert LongConvertible(LongMax as real + 1.0);
  }

  /** Null and float constants throw. */
  lemma ConstantsThatThrow(x: string, f: real)
    ensures Collect(x, Const(NullV)) == Throw(ArgumentNull)
    ensures Collect(x, Const(SingleV(f))) == Throw(Argument)
  {
    assert Initial.(poly := true, coeffs := map[]) == Initial;
    assert Dispatch(x, Const(NullV), Initial) == Throw(ArgumentNull);
    assert VisitSpec(x, Const(NullV), Initial) == Throw(ArgumentNull);
    assert Dispatch(x, Const(SingleV(f)), Initial) == Throw(Argument);
    assert VisitSpec(x, Const(SingleV(f)), Initial) == Throw(Argument);
  }

  /** A sum or difference keeps the map of its left operand: the state saved
      after the left operand is restored after the right one. */
  lemma SumKeepsLeftMap(x: string, op: BinOp, l: Expr, r: Expr, s: State)
    requires op == Add || op == Subtract
    requires Plain(l) && Plain(r)
    requires VisitSpec(x, Bin(op, l, r), s).Ok? && VisitSpec(x, Bin(op, l, r), s).value.poly
    ensures VisitSpec(x, l, s.(poly := true, coeffs := map[])).Ok?
    ensures VisitSpec(x, Bin(op, l, r), s).value.coeffs
            == VisitSpec(x, l, s.(poly := true, coeffs := map[])).value.coeffs
  {
    var s0 := s.(poly := true, coeffs := map[]);
    var d := Dispatch(x, Bin(op, l, r), s0);
    assert d.Ok? && d.value.poly;
    var left := VisitSpec(x, l, s0);
    assert left.Ok?;
    assert d.value.coeffs == left.value.coeffs;
  }

  /** So x + 1 collects as x alone, and sin(x) + 1 is reported polynomial
      with an empty map. */
  lemma SumExamples(x: string)
    ensures Collect(x, Bin(Add, Param(x), Double(1.0))) == Ok((true, map[1 := One]))
    ensures Collect(x, Bin(Add, Math("Sin", [Param(x)]), Double(1.0))) == Ok((true, map[]))
  {
    assert Initial.(poly := true, coeffs := map[]) == Initial;
    XAlone(x);
    var one := Ok(State(-1, One, true, map[0 := One]));
    OneAlone(x, true);
    OneAlone(x, false);
    var sum := Bin(Add, Param(x), Double(1.0));
    assert Plain(Param(x)) && Plain(Double(1.0)) && Plain(sum);
    assert Dispatch(x, sum, Initial) == Ok(State(1, One, true, map[1 := One]));
    assert VisitSpec(x, sum, Initial) == Ok(State(1, One, true, map[1 := One]));
    var sin := Math("Sin", [Param(x)]);
    var off := Initial.(poly := false);
    assert Dispatch(x, sin, Initial) == Ok(off);
    assert VisitSpec(x, sin, Initial) == Ok(off);
    var sinSum := Bin(Add, sin, Double(1.0));
    assert Dispatch(x, sinSum, Initial) == Ok(State(-1, One, true, map[]));
    assert VisitSpec(x, sinSum, Initial) == Ok(State(-1, One, true, map[]));
  }

  /** The target parameter visited from the initial state. */
  lemma XAlone(x: string)
    ensures VisitSpec(x, Param(x), Initial) == Ok(State(1, One, true, map[1 := One]))
  {
    assert Initial.(poly := true, coeffs := map[]) == Initial;
    assert AddTo(map[], 1, One) == map[1 := One];
    assert Dispatch(x, Param(x), Initial) == Ok(State(1, One, true, map[1 := One]));
  }

  /** The constant 1.0 visited with no pending power. */
  lemma OneAlone(x: string, poly: bool)
    ensures VisitSpec(x, Double(1.0), State(-1, One, poly, map[])) == Ok(State(-1, One, true, map[0 := One]))
  {
    assert (1.0).Floor == 1;
    assert ConvertConstant(DoubleV(1.0)) == Ok((FromInt(1), true));
    assert FromInt(1) == One;
    assert AddTo(map[], 0, One) == map[0 := One];
    assert Dispatch(x, Double(1.0), State(-1, One, true, map[])) == Ok(State(-1, One, true, map[0 := One]));
  }

  /** A product stores the product of its operands' maps. */
  lemma ProductIsConvolution(x: string, l: Expr, r: Expr, s: State)
    requires Plain(l) && Plain(r)
    requires VisitSpec(x, Bin(Multiply, l, r), s).Ok? && VisitSpec(x, Bin(Multiply, l, r), s).value.poly
    ensures var sl := VisitSpec(x, l, s.(poly := true, coeffs := map[]));
            sl.Ok? && sl.value.poly &&
            var sr := VisitSpec(x, r, State(s.power, s.mult, true, map[]));
            sr.Ok? && sr.value.poly &&
            VisitSpec(x, Bin(Multiply, l, r), s).value
              == State(-1, One, true, Convolve(sl.value.coeffs, sr.value.coeffs))
  {
    var s0 := s.(poly := true, coeffs := map[]);
    var d := Dispatch(x, Bin(Multiply, l, r), s0);
    assert d.Ok? && d.value.poly;
    assert d == MultiplySpec(x, l, r, s0);
    var sl := VisitSpec(x, l, s0);
    assert sl.Ok? && sl.value.poly;
    assert State(s0.power, s0.mult, sl.value.poly, map[]) == State(s.power, s.mult, true, map[]);
  }

  /** x * x collects as {2: 1}. */
  lemma SquareExample(x: string)
    ensures Collect(x, Bin(Multiply, Param(x), Param(x))) == Ok((true, map[2 := One]))
  {
    assert Initial.(poly := true, coeffs := map[]) == Initial;
    XAlone(x);
    MonomialProduct(1, One, 1, One);
    assert Mul(One, One) == One by {
      ValueDeterminesRat(Mul(One, One), One);
    }
    var sq := Bin(Multiply, Param(x), Param(x));
    assert MultiplySpec(x, Param(x), Param(x), Initial) == Ok(State(-1, One, true, map[2 := One]));
    assert Dispatch(x, sq, Initial) == Ok(State(-1, One, true, map[2 := One]));
    assert VisitSpec(x, sq, Initial) == Ok(State(-1, One, true, map[2 := One]));
  }

  // ---------------------------------------------------------------------
  // The collector object.
  // ---------------------------------------------------------------------

  class Collector {
    const parameter: string
    var currentMultiplier: Rat
    var currentPower: int
    var isPolynomial: bool
    var coefficients: map<int, Rat>

    function Snapshot(): State
      reads this
    {
      State(currentPower, currentMultiplier, isPolynomial, coefficients)
    }

    constructor (parameterExpression: string)
      ensures parameter == parameterExpression && Snapshot() == Initial
    {
      parameter := parameterExpression;
      currentMultiplier := One;
      currentPower := -1;
      isPolynomial := true;
      coefficients := map[];
    }

    /** `public void Visit`. A thrown exception leaves the fields unspecified. */
    method Visit(e: Expr) returns (thrown: Option<Exn>)
      requires Plain(e)
      modifies this
      ensures var spec := VisitSpec(parameter, e, old(Snapshot()));
              (thrown.Some? <==> spec.Throw?) && (spec.Throw? ==> thrown.value == spec.error)
              && (spec.Ok? ==> Snapshot() == spec.value)
      decreases e, 3
    {
      isPolynomial := true;
      coefficients := map[];
      thrown := BaseVisit(e);
      if thrown.None? && !isPolynomial {
        coefficients := map[];
      }
    }

    /** The framework's `Visit`: dispatch on the node kind. */
    method BaseVisit(e: Expr) returns (thrown: Option<Exn>)
      requires Plain(e)
      modifies this
      ensures var spec := Dispatch(parameter, e, old(Snapshot()));
              (thrown.Some? <==> spec.Throw?) && (spec.Throw? ==> thrown.value == spec.error)
              && (spec.Ok? ==> Snapshot() == spec.value)
      decreases e, 2
    {
      thrown := None;
      match e
      case Const(v) =>
        thrown := VisitConstant(v);
      case Param(n) =>
        VisitParameter(n);
      case Bin(op, l, r) =>
        thrown := VisitBinary(op, l, r);
      case Unary(u, y) =>
        thrown := VisitUnary(u, y);
      case Call(_, _) =>
        isPolynomial := false;
      case Lambda(p, b) =>
        thrown := BaseVisit(b);
        if thrown.None? {
          VisitParameter(p);
        }
    }

    method VisitParameter(n: string)
      modifies this
      ensures Snapshot() == ParameterStep(parameter, n, old(Snapshot()))
    {
      if n == parameter {
        if currentPower < 0 {
          currentPower := 1;
        }
        AddToCoefficients(currentPower, currentMultiplier);
      } else {
        isPolynomial := false;
      }
    }

    method VisitConstant(v: Value) returns (thrown: Option<Exn>)
      modifies this
      ensures var conv := ConvertConstant(v);
              (thrown.Some? <==> conv.Throw?) && (conv.Throw? ==> thrown.value == conv.error)
              && (conv.Ok? ==> Snapshot() == ConstantStep(conv.value.0, old(Snapshot()).(poly := old(isPolynomial) && conv.value.1)))
    {
      var value;
      value, thrown := ConvertConstantToRational(v);
      if thrown.Some? {
        return;
      }
      if currentPower < 0 {
        AddToCoefficients(0, value);
      } else {
        AddToCoefficients(currentPower, Mul(currentMultiplier, value));
      }
    }

    method VisitBinary(op: BinOp, l: Expr, r: Expr) returns (thrown: Option<Exn>)
      requires Plain(l) && Plain(r)
      modifies this
      ensures var spec := Dispatch(parameter, Bin(op, l, r), old(Snapshot()));
              (thrown.Some? <==> spec.Throw?) && (spec.Throw? ==> thrown.value == spec.error)
              && (spec.Ok? ==> Snapshot() == spec.value)
      decreases Bin(op, l, r), 1
    {
      thrown := None;
      if !isPolynomial {
        return;
      }
      if op == Add || op == Subtract {
        var saved := SaveState();
        thrown := Visit(l);
        if thrown.Some? {
          return;
        }
        var leftState := SaveState();
        RestoreState(saved);
        if op == Subtract {
          currentMultiplier := Neg(currentMultiplier);
        }
        thrown := Visit(r);
        if thrown.Some? {
          return;
        }
        RestoreState(leftState);
      } else if op == Multiply {
        thrown := VisitMultiply(l, r);
      } else {
        isPolynomial := false;
      }
    }

    method VisitMultiply(l: Expr, r: Expr) returns (thrown: Option<Exn>)
      requires Plain(l) && Plain(r)
      modifies this
      ensures AsResult(thrown, Snapshot()) == MultiplySpec(parameter, l, r, old(Snapshot()))
      decreases Bin(Multiply, l, r), 0
    {
      MultiplySteps(parameter, l, r, Snapshot());
      var outerState := SaveState();
      thrown := Visit(l);
      if thrown.Some? || !isPolynomial {
        return;
      }
      var leftCoeffs := coefficients;
      RestoreState(outerState);
      coefficients := map[];
      thrown := VisitRightFactor(r, leftCoeffs);
    }

    /** The second half of `VisitMultiply`: collect the right operand and,
        when both are polynomials, store the product of the two maps. */
    method VisitRightFactor(r: Expr, leftCoeffs: map<int, Rat>) returns (thrown: Option<Exn>)
      requires Plain(r)
      modifies this
      ensures AsResult(thrown, Snapshot())
           == (var right :- VisitSpec(parameter, r, old(Snapshot()));
               if !right.poly then Ok(right) else Ok(State(-1, One, true, Convolve(leftCoeffs, right.coeffs))))
      decreases r, 4
    {
      thrown := Visit(r);
      if thrown.Some? || !isPolynomial {
        return;
      }
      ghost var right := Snapshot();
      var rightCoeffs := coefficients;
      StoreProduct(leftCoeffs, rightCoeffs);
      currentPower := -1;
      currentMultiplier := One;
      assert Snapshot() == State(-1, One, true, Convolve(leftCoeffs, right.coeffs));
    }

    /** The nested loops of `VisitMultiply`: clear the map, then add
        left[a] · right[b] at degree a + b for every pair of entries. */
    method StoreProduct(leftCoeffs: map<int, Rat>, rightCoeffs: map<int, Rat>)
      modifies this
      ensures coefficients == Convolve(leftCoeffs, rightCoeffs)
      ensures currentPower == old(currentPower) && currentMultiplier == old(currentMultiplier)
      ensures isPolynomial == old(isPolynomial)
    {
      coefficients := map[];
      var lks, rks := Ascending(leftCoeffs.Keys), Ascending(rightCoeffs.Keys);
      var i := 0;
      while i < |lks|
        invariant 0 <= i <= |lks|
        invariant coefficients == Rows(map[], leftCoeffs, lks[..i], rightCoeffs, rks)
        invariant currentPower == old(currentPower) && currentMultiplier == old(currentMultiplier)
        invariant isPolynomial == old(isPolynomial)
      {
        AddRow(lks[i], Get(leftCoeffs, lks[i]), rightCoeffs, rks);
        RowsStep(leftCoeffs, lks, rightCoeffs, rks, i);
        i := i + 1;
      }
      assert lks[..i] == lks;
    }

    /** The inner loop: one left entry (a, av) times every right entry. */
    method AddRow(a: int, av: Rat, rightCoeffs: map<int, Rat>, rks: seq<int>)
      modifies this
      ensures coefficients == Row(old(coefficients), a, av, rightCoeffs, rks)
      ensures currentPower == old(currentPower) && currentMultiplier == old(currentMultiplier)
      ensures isPolynomial == old(isPolynomial)
    {
      var j := 0;
      while j < |rks|
        invariant 0 <= j <= |rks|
        invariant coefficients == Row(old(coefficients), a, av, rightCoeffs, rks[..j])
        invariant currentPower == old(currentPower) && currentMultiplier == old(currentMultiplier)
        invariant isPolynomial == old(isPolynomial)
      {
        RowStep(old(coefficients), a, av, rightCoeffs, rks, j);
        AddToCoefficients(a + rks[j], Mul(av, Get(rightCoeffs, rks[j])));
        assert coefficients == Row(old(coefficients), a, av, rightCoeffs, rks[..j + 1]);
        j := j + 1;
      }
      assert rks[..j] == rks;
    }

    method VisitUnary(u: UnOp, y: Expr) returns (thrown: Option<Exn>)
      requires Plain(y)
      modifies this
      ensures var spec := Dispatch(parameter, Unary(u, y), old(Snapshot()));
              (thrown.Some? <==> spec.Throw?) && (spec.Throw? ==> thrown.value == spec.error)
              && (spec.Ok? ==> Snapshot() == spec.value)
      decreases Unary(u, y), 1
    {
      thrown := None;
      if u == Negate {
        currentMultiplier := Neg(currentMultiplier);
        thrown := Visit(y);
        if thrown.Some? {
          return;
        }
        currentMultiplier := Neg(currentMultiplier);
      } else {
        isPolynomial := false;
      }
    }

    method AddToCoefficients(power: int, coeff: Rat)
      modifies this
      ensures coefficients == AddTo(old(coefficients), power, coeff)
      ensures currentPower == old(currentPower) && currentMultiplier == old(currentMultiplier)
      ensures isPolynomial == old(isPolynomial)
    {
      if coeff.num == 0 {
        return;
      }
      var sum := coeff;
      if power in coefficients {
        sum := Rationals.Add(sum, coefficients[power]);
      }
      if sum.num == 0 {
        coefficients := coefficients - {power};
      } else {
        coefficients := coefficients[power := sum];
      }
    }

    method ConvertConstantToRational(v: Value) returns (value: Rat, thrown: Option<Exn>)
      modifies this
      ensures var conv := ConvertConstant(v);
              (thrown.Some? <==> conv.Throw?) && (conv.Throw? ==> thrown.value == conv.error)
              && (conv.Ok? ==>
                    value == conv.value.0 && Snapshot() == old(Snapshot()).(poly := old(isPolynomial) && conv.value.1))
    {
      thrown := None;
      value := Zero;
      match v
      case DoubleV(d) =>
        var intValue := SaturatedLong(RoundHalfEven(d));
        if RealMath.Abs(d - LongAsDouble(intValue)) == 0.0 {
          value := FromInt(intValue);
        } else {
          isPolynomial := false;
        }
      case Int32V(i) => value := FromInt(i);
      case Int64V(n) => value := FromInt(n);
      case BigIntegerV(b) => value := FromInt(b);
      case DecimalV(m, s) => value := FromDecimal(m, s);
      case NullV => thrown := Some(ArgumentNull);
      case SingleV(_) => thrown := Some(Argument);
    }

    method SaveState() returns (saved: State)
      ensures saved == Snapshot()
    {
      saved := Snapshot();
    }

    /** Restores power, multiplier and map; `IsPolynomial` is not part of
        the saved state. */
    method RestoreState(saved: State)
      modifies this
      ensures Snapshot() == State(saved.power, saved.mult, old(isPolynomial), saved.coeffs)
    {
      currentPower := saved.power;
      currentMultiplier := saved.mult;
      coefficients := saved.coeffs;
    }
  }
}
