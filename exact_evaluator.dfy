/** ExactEvaluator.cs: evaluates a tree exactly, in rationals, with one
    named parameter standing for a given rational. Only integer-valued
    constants, that parameter, + − * /, unary minus and Sin/Cos/Tan at an
    argument of exactly zero can be evaluated; anything else makes the
    evaluation fail. */
module ExactEvaluator {
  import opened Wrappers
  import opened Expressions
  import opened Rationals

  /** A constant the evaluator reads without leaving the `long` range: any
      constant but a double beyond it. */
  predicate ConstantInLongRange(c: Value) {
    c.DoubleV? ==> LongMin as real <= c.d <= LongMax as real
  }

  /** `VisitConstant`: int, long, decimal and BigInteger constants are exact;
      a double only when it is integral (`d == Math.Truncate(d)`), and then
      through the cast `(long)d`, which is exact only inside the `long`
      range; float and null constants fail. */
  function ConstantValue(c: Value): (r: Option<Rat>)
    ensures r.Some? ==> Number(c).Some?
    ensures r.Some? && ConstantInLongRange(c) ==> Rationals.ToDouble(r.value) == Number(c).value
    ensures r.Some? && c.DoubleV? ==> Rationals.ToDouble(r.value) == SaturatedLong(c.d.Floor) as real
    ensures r.None? <==> c.SingleV? || c.NullV? || (c.DoubleV? && c.d != c.d.Floor as real)
  {
    match c
    case Int32V(i) => Some(FromInt(i))
    case Int64V(l) => Some(FromInt(l))
    case DecimalV(m, s) =>
      Pow10Agree(s);
      Some(FromDecimal(m, s))
    case BigIntegerV(b) => Some(FromInt(b))
    case DoubleV(d) => if d == d.Floor as real then Some(FromInt(SaturatedLong(d.Floor))) else None
    case SingleV(_) => None
    case NullV => None
  }

  /** The two spellings of 10^k agree. */
  lemma {:induction false} Pow10Agree(k: nat)
    ensures Expressions.Pow10(k) == Rationals.Pow10(k)
  {
    if k > 0 {
      Pow10Agree(k - 1);
    }
  }

  /** What the visitor computes for a tree when it starts with `_ok` set:
      the value, or none when it clears `_ok`. */
  function Eval(e: Expr, name: string, value: Rat): Option<Rat> {
    match e
    case Const(c) => ConstantValue(c)
    case Param(n) => if n == name then Some(value) else None
    case Bin(op, l, r) =>
      if op == Modulo || op == Power then None
      else
        var a :- Eval(l, name, value);
        var b :- Eval(r, name, value);
        Arith(op, a, b)
    case Unary(Negate, y) =>
      var a :- Eval(y, name, value);
      Some(Sub(Zero, a))
    case Call(m, args) =>
      if m.isMath && |args| == 1 then
        var a :- Eval(args[0], name, value);
        AtZero(m.name, a)
      else None
    case _ => None
  }

  /** The `switch` of `VisitBinary`: exact + − *, and a division that fails
      instead of throwing when the divisor is zero. */
  function Arith(op: BinOp, a: Rat, b: Rat): (r: Option<Rat>)
    requires op != Modulo && op != Power
    ensures op == Divide ==> (r.None? <==> b.num == 0)
    ensures op != Divide ==> r.Some?
  {
    match op
    case Add => Some(Rationals.Add(a, b))
    case Subtract => Some(Sub(a, b))
    case Multiply => Some(Mul(a, b))
    case Divide => var q := Div(a, b); if q.Throw? then None else Some(q.value)
  }

  /** The `switch` of `VisitCall` once the argument is known: Sin and Tan of
      zero are zero, Cos of zero is one, everything else fails. */
  function AtZero(fn: string, a: Rat): (r: Option<Rat>)
    ensures r.Some? ==> a.num == 0
    ensures r.Some? <==> a.num == 0 && (fn == "Sin" || fn == "Tan" || fn == "Cos")
    ensures r.Some? ==> r.value == if fn == "Cos" then One else Zero
  {
    if a.num == 0 && (fn == "Sin" || fn == "Tan") then Some(Zero)
    else if a.num == 0 && fn == "Cos" then Some(One)
    else None
  }

  /** `TryEvaluate`'s out-parameter and return value. */
  function TryEvaluateSpec(e: Expr, name: string, value: Rat): (bool, Rat) {
    var r := Eval(e, name, value);
    if r.Some? then (true, r.value) else (false, Zero)
  }

  // ---------------------------------------------------------------------
  // What the evaluation means.
  // ---------------------------------------------------------------------

  /** The tree has no method call (so `Denote` is defined on the same shapes
      as `Eval`, apart from calls). */
  predicate NoCall(e: Expr) {
    match e
    case Call(_, _) => false
    case Bin(_, l, r) => NoCall(l) && NoCall(r)
    case Unary(_, y) => NoCall(y)
    case _ => true
  }

  /** Every constant of the tree is read without leaving the `long` range. */
  predicate InLongRange(e: Expr) {
    match e
    case Const(c) => ConstantInLongRange(c)
    case Bin(_, l, r) => InLongRange(l) && InLongRange(r)
    case Unary(_, y) => InLongRange(y)
    case _ => true
  }

  /** Soundness against exact real arithmetic: a successful evaluation of a
      call-free tree whose doubles lie in the `long` range is the value the
      tree denotes at the parameter's value. */
  lemma {:induction false} EvalSound(e: Expr, name: string, value: Rat)
    requires NoCall(e) && InLongRange(e)
    requires Eval(e, name, value).Some?
    ensures Denote(e, name, Rationals.ToDouble(value)).Some?
    ensures Denote(e, name, Rationals.ToDouble(value)).value == Rationals.ToDouble(Eval(e, name, value).value)
  {
    var v := Rationals.ToDouble(value);
    match e
    case Const(c) =>
    case Param(n) =>
    case Bin(op, l, r) =>
      EvalSound(l, name, value);
      EvalSound(r, name, value);
      BinSound(op, l, r, name, value);
    case Unary(u, y) =>
      EvalSound(y, name, value);
      NegSound(y, name, value);
  }

  lemma BinSound(op: BinOp, l: Expr, r: Expr, name: string, value: Rat)
    requires Eval(Bin(op, l, r), name, value).Some?
    requires Eval(l, name, value).Some? && Eval(r, name, value).Some?
    requires Denote(l, name, Rationals.ToDouble(value)).Some?
    requires Denote(l, name, Rationals.ToDouble(value)).value == Rationals.ToDouble(Eval(l, name, value).value)
    requires Denote(r, name, Rationals.ToDouble(value)).Some?
    requires Denote(r, name, Rationals.ToDouble(value)).value == Rationals.ToDouble(Eval(r, name, value).value)
    ensures Denote(Bin(op, l, r), name, Rationals.ToDouble(value)).Some?
    ensures Denote(Bin(op, l, r), name, Rationals.ToDouble(value)).value == Rationals.ToDouble(Eval(Bin(op, l, r), name, value).value)
  {
    var v := Rationals.ToDouble(value);
    var a := Eval(l, name, value).value;
    var b := Eval(r, name, value).value;
    var da := Denote(l, name, v);
    var db := Denote(r, name, v);
    assert Eval(Bin(op, l, r), name, value) == Arith(op, a, b);
    assert Denote(Bin(op, l, r), name, v) == Combine(op, da, db);
    ArithMeaning(op, a, b, da, db);
  }

  /** Exact rational arithmetic agrees with the real operation `Denote`
      applies. */
  lemma ArithMeaning(op: BinOp, a: Rat, b: Rat, da: Option<real>, db: Option<real>)
    requires op != Modulo && op != Power && Arith(op, a, b).Some?
    requires da.Some? && da.value == Rationals.ToDouble(a)
    requires db.Some? && db.value == Rationals.ToDouble(b)
    ensures Combine(op, da, db).Some?
    ensures Combine(op, da, db).value == Rationals.ToDouble(Arith(op, a, b).value)
  {
    if op == Divide {
      var q := Div(a, b).value;
      assert Arith(op, a, b).value == q;
      QuotientMeaning(Rationals.ToDouble(q), Rationals.ToDouble(a), Rationals.ToDouble(b));
    }
  }

  /** q · b = a with b ≠ 0 makes q the quotient a / b. */
  lemma QuotientMeaning(q: real, a: real, b: real)
    requires q * b == a
    requires b != 0.0
    ensures q == a / b
  {
  }

  lemma NegSound(y: Expr, name: string, value: Rat)
    requires Eval(Unary(Negate, y), name, value).Some?
    requires Eval(y, name, value).Some?
    requires Denote(y, name, Rationals.ToDouble(value)).Some?
    requires Denote(y, name, Rationals.ToDouble(value)).value == Rationals.ToDouble(Eval(y, name, value).value)
    ensures Denote(Unary(Negate, y), name, Rationals.ToDouble(value)).Some?
    ensures Denote(Unary(Negate, y), name, Rationals.ToDouble(value)).value == Rationals.ToDouble(Eval(Unary(Negate, y), name, value).value)
  {
  }

  /** The leaves: a parameter evaluates iff it is the named one, and to the
      given value. */
  lemma EvalParameter(n: string, name: string, value: Rat)
    ensures Eval(Param(n), name, value).Some? <==> n == name
    ensures n == name ==> Eval(Param(n), name, value).value == value
  {
  }

  /** Unary minus is 0 − operand. */
  lemma EvalNegate(y: Expr, name: string, value: Rat)
    ensures Eval(Unary(Negate, y), name, value).Some? <==> Eval(y, name, value).Some?
    ensures Eval(y, name, value).Some? ==>
              Rationals.ToDouble(Eval(Unary(Negate, y), name, value).value) == -Rationals.ToDouble(Eval(y, name, value).value)
  {
  }

  /** A division whose divisor evaluates to zero fails. */
  lemma DivisionByZeroFails(l: Expr, r: Expr, name: string, value: Rat)
    requires Eval(r, name, value).Some? && Eval(r, name, value).value.num == 0
    ensures Eval(Bin(Divide, l, r), name, value) == None
  {
  }

  /** Calls: only one-argument `System.Math` calls whose argument evaluates
      to zero, and only Sin, Tan (giving 0) and Cos (giving 1). */
  lemma EvalCall(m: Method, args: seq<Expr>, name: string, value: Rat)
    ensures Eval(Call(m, args), name, value).Some? ==>
              m.isMath && |args| == 1 && Eval(args[0], name, value).Some? && Eval(args[0], name, value).value.num == 0
              && (m.name == "Sin" || m.name == "Tan" || m.name == "Cos")
    ensures m.isMath && |args| == 1 && Eval(args[0], name, value) == Some(Zero) ==>
              Eval(Call(m, args), name, value) == (if m.name == "Cos" then Some(One) else if m.name == "Sin" || m.name == "Tan" then Some(Zero) else None)
  {
  }

  /** Nodes outside the supported kinds fail. */
  lemma OtherNodesFail(e: Expr, name: string, value: Rat)
    requires e.Lambda? || e.Infinity? || e.Bridged? || e.Monolith? || (e.Unary? && e.uop != Negate)
             || (e.Bin? && (e.op == Modulo || e.op == Power))
    ensures Eval(e, name, value) == None
  {
  }

  /** Beyond the `long` range the cast saturates: 1e20 evaluates to
      `long.MaxValue`, not to the number the constant denotes. */
  lemma LargeDoubleSaturates(name: string, value: Rat)
    ensures Eval(Const(DoubleV(100_000_000_000_000_000_000.0)), name, value) == Some(FromInt(LongMax))
    ensures Rationals.ToDouble(FromInt(LongMax)) != 100_000_000_000_000_000_000.0
  {
    assert ConstantValue(DoubleV(100_000_000_000_000_000_000.0)).Some?;
  }

  // ---------------------------------------------------------------------
  // The visitor object.
  // ---------------------------------------------------------------------

  /** `EvalVisitor`: `_last` holds the value of the last node visited and
      `_ok` whether evaluation is still possible. */
  class EvalVisitor {
    const paramName: string
    const paramValue: Rat
    var last: Rat
    var ok: bool

    /** `_last` starts as the default of the struct; it is never read before
        a visit sets it, so any value serves. */
    constructor (paramName: string, paramValue: Rat)
      ensures this.paramName == paramName && this.paramValue == paramValue
    {
      this.paramName := paramName;
      this.paramValue := paramValue;
      last := Zero;
      ok := false;
    }

    /** The visitor's own `TryEvaluate`. */
    method TryEvaluate(e: Expr) returns (success: bool, result: Rat)
      modifies this
      ensures (success, result) == TryEvaluateSpec(e, paramName, paramValue)
    {
      ok := true;
      Visit(e);
      result := if ok then last else Zero;
      success := ok;
    }

    /** `Visit`: a no-op once `_ok` is cleared; otherwise evaluate. */
    method Visit(e: Expr)
      modifies this
      ensures !old(ok) ==> !ok && last == old(last)
      ensures old(ok) ==> (ok <==> Eval(e, paramName, paramValue).Some?)
      ensures old(ok) && ok ==> last == Eval(e, paramName, paramValue).value
      decreases e, 1
    {
      if !ok {
        return;
      }
      match e
      case Const(c) =>
        VisitConstant(c);
      case Param(n) =>
        VisitParameter(n);
      case Bin(op, l, r) =>
        if op == Modulo || op == Power {
          ok := false;
        } else {
          VisitBinary(op, l, r);
        }
      case Unary(u, y) =>
        if u == Negate {
          VisitUnary(y);
        } else {
          ok := false;
        }
      case Call(m, args) =>
        VisitCall(m, args);
      case _ =>
        ok := false;
    }

    method VisitConstant(c: Value)
      requires ok
      modifies this
      ensures ok <==> ConstantValue(c).Some?
      ensures ok ==> last == ConstantValue(c).value
    {
      match c
      case Int32V(i) => last := FromInt(i);
      case Int64V(l) => last := FromInt(l);
      case DecimalV(m, s) => last := FromDecimal(m, s);
      case BigIntegerV(b) => last := FromInt(b);
      case DoubleV(d) =>
        if d == d.Floor as real {
          last := FromInt(SaturatedLong(d.Floor));
        } else {
          ok := false;
        }
      case _ => ok := false;
    }

    method VisitParameter(n: string)
      requires ok
      modifies this
      ensures ok <==> n == paramName
      ensures ok ==> last == paramValue
    {
      if n == paramName {
        last := paramValue;
      } else {
        ok := false;
      }
    }

    method VisitUnary(y: Expr)
      requires ok
      modifies this
      ensures ok <==> Eval(Unary(Negate, y), paramName, paramValue).Some?
      ensures ok ==> last == Eval(Unary(Negate, y), paramName, paramValue).value
      decreases Unary(Negate, y), 0
    {
      Visit(y);
      if !ok {
        return;
      }
      last := Sub(Zero, last);
    }

    method VisitBinary(op: BinOp, l: Expr, r: Expr)
      requires ok && op != Modulo && op != Power
      modifies this
      ensures ok <==> Eval(Bin(op, l, r), paramName, paramValue).Some?
      ensures ok ==> last == Eval(Bin(op, l, r), paramName, paramValue).value
      decreases Bin(op, l, r), 0
    {
      Visit(l);
      if !ok {
        return;
      }
      var left := last;
      Visit(r);
      if !ok {
        return;
      }
      var right := last;
      if op == Add {
        last := Rationals.Add(left, right);
      } else if op == Subtract {
        last := Sub(left, right);
      } else if op == Multiply {
        last := Mul(left, right);
      } else {
        var q := Div(left, right);
        if q.Throw? {
          ok := false;
        } else {
          last := q.value;
        }
      }
    }

    method VisitCall(m: Method, args: seq<Expr>)
      requires ok
      modifies this
      ensures ok <==> Eval(Call(m, args), paramName, paramValue).Some?
      ensures ok ==> last == Eval(Call(m, args), paramName, paramValue).value
      decreases Call(m, args), 0
    {
      if m.isMath && |args| == 1 {
        Visit(args[0]);
        if !ok {
          return;
        }
        if last.num == 0 {
          if m.name == "Sin" || m.name == "Tan" {
            last := Zero;
            return;
          } else if m.name == "Cos" {
            last := One;
            return;
          }
        }
      }
      ok := false;
    }
  }

  /** The static `TryEvaluate`: a fresh visitor over the tree. */
  method TryEvaluate(e: Expr, paramName: string, paramValue: Rat) returns (success: bool, result: Rat)
    ensures success <==> Eval(e, paramName, paramValue).Some?
    ensures success ==> result == Eval(e, paramName, paramValue).value
    ensures !success ==> result == Zero
  {
    var visitor := new EvalVisitor(paramName, paramValue);
    success, result := visitor.TryEvaluate(e);
  }
}
