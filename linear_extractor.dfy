/** LinearExtractor.cs: reads a tree as multiplier·param + offset for the
    trigonometric solvers. A visitor walks the tree. An Add or Subtract node
    sums the contributions of its two direct operands and stops there; a
    constant times the target parameter records (constant, 0); any other
    binary node passes the walk on to its operands, so a later match
    overwrites an earlier one. The condition at line 31 assigns `Success =
    true` rather than testing it, so every Add or Subtract node reports
    success, whatever its operands are. */
module LinearExtractor {
  import opened Wrappers
  import opened Expressions

  /** The (multiplier, offset) pair the extractor reports. */
  datatype Linear = Linear(multiplier: real, offset: real)

  /** What one direct operand of an Add or Subtract adds to the pair under
      `sign`: the target parameter adds sign to the multiplier, a constant
      adds sign·value to the offset (`Convert.ToDouble`, which throws on a
      `BigInteger`), and any other operand adds nothing. */
  function Term(ex: Expr, x: string, sign: real): Result<Linear> {
    if ex == Param(x) then Ok(Linear(sign, 0.0))
    else if ex.Const? then
      var d :- ToDouble(ex.value);
      Ok(Linear(0.0, sign * d))
    else Ok(Linear(0.0, 0.0))
  }

  /** The pair an Add or Subtract node records: left operand with sign +1,
      right operand with sign −1 under Subtract. */
  function SumPair(op: BinOp, l: Expr, r: Expr, x: string): Result<Linear> {
    var left :- Term(l, x, 1.0);
    var right :- Term(r, x, if op == Subtract then -1.0 else 1.0);
    Ok(Linear(left.multiplier + right.multiplier, left.offset + right.offset))
  }

  /** The recorded pair after the visitor walks `e`, starting from `found`
      (None while `Success` is still false). */
  function Walk(e: Expr, x: string, found: Option<Linear>): Result<Option<Linear>>
    requires Plain(e)
    decreases e, 1
  {
    match e
    case Bin(op, l, r) => WalkBinary(op, l, r, x, found)
    case Unary(_, y) => Walk(y, x, found)
    case Call(_, args) => WalkList(args, x, found)
    case Lambda(_, b) => Walk(b, x, found)
    case _ => Ok(found)
  }

  /** The overridden `VisitBinary`. */
  function WalkBinary(op: BinOp, l: Expr, r: Expr, x: string, found: Option<Linear>): Result<Option<Linear>>
    requires Plain(l) && Plain(r)
    decreases Bin(op, l, r), 0
  {
    if op == Add || op == Subtract then
      var pair :- SumPair(op, l, r, x);
      Ok(Some(pair))
    else if op == Multiply && l.Const? && r == Param(x) then
      var c :- ToDouble(l.value);
      Ok(Some(Linear(c, 0.0)))
    else
      var afterLeft :- Walk(l, x, found);
      Walk(r, x, afterLeft)
  }

  function WalkList(args: seq<Expr>, x: string, found: Option<Linear>): Result<Option<Linear>>
    requires forall a | a in args :: Plain(a)
    decreases args
  {
    if args == [] then Ok(found)
    else
      var afterFirst :- Walk(args[0], x, found);
      WalkList(args[1..], x, afterFirst)
  }

  /** `Extract`: the recorded pair if `Success` ended true, else null. */
  function Extraction(e: Expr, x: string): Result<Option<Linear>>
    requires Plain(e)
  {
    Walk(e, x, None)
  }

  class LinearVisitor {
    const param: string
    var success: bool
    var result: Linear

    /** The pair `Extract` would hand out now. */
    function Found(): Option<Linear>
      reads this
    {
      if success then Some(result) else None
    }

    constructor (param: string)
      ensures this.param == param && Found() == None
    {
      this.param := param;
      success := false;
      result := Linear(0.0, 0.0);
    }

    method Visit(e: Expr) returns (thrown: Option<Exn>)
      requires Plain(e)
      modifies this
      ensures var spec := Walk(e, param, old(Found()));
              (thrown.Some? <==> spec.Throw?) && (spec.Throw? ==> thrown.value == spec.error)
              && (spec.Ok? ==> Found() == spec.value)
      decreases e, 2
    {
      thrown := None;
      match e
      case Const(_) =>
      case Param(_) =>
      case Bin(op, l, r) =>
        thrown := VisitBinary(op, l, r);
      case Unary(_, y) =>
        thrown := Visit(y);
      case Call(_, args) =>
        thrown := VisitList(args);
      case Lambda(_, b) =>
        thrown := Visit(b);
    }

    method VisitBinary(op: BinOp, l: Expr, r: Expr) returns (thrown: Option<Exn>)
      requires Plain(l) && Plain(r)
      modifies this
      ensures var spec := WalkBinary(op, l, r, param, old(Found()));
              (thrown.Some? <==> spec.Throw?) && (spec.Throw? ==> thrown.value == spec.error)
              && (spec.Ok? ==> Found() == spec.value)
      decreases Bin(op, l, r), 1
    {
      if op == Add || op == Subtract {
        thrown := VisitSum(op, l, r);
      } else if op == Multiply && l.Const? && r.Param? && r.name == param {
        thrown := VisitScaled(l);
      } else {
        thrown := VisitOperands(op, l, r);
      }
    }

    /** An Add or Subtract node: the pair of its two direct operands. */
    method VisitSum(op: BinOp, l: Expr, r: Expr) returns (thrown: Option<Exn>)
      requires op == Add || op == Subtract
      modifies this
      ensures var spec := SumPair(op, l, r, param);
              (thrown.Some? <==> spec.Throw?) && (spec.Throw? ==> thrown.value == spec.error)
              && (spec.Ok? ==> Found() == Some(spec.value))
    {
      var coeff, constant := 0.0, 0.0;
      thrown, coeff, constant := ExtractLinear(l, 1.0, coeff, constant);
      if thrown.Some? {
        return;
      }
      var sign := if op == Subtract then -1.0 else 1.0;
      thrown, coeff, constant := ExtractLinear(r, sign, coeff, constant);
      if thrown.Some? {
        return;
      }
      // the condition assigns true and then tests the assigned value
      success := true;
      if success {
        result := Linear(coeff, constant);
      }
    }

    /** A constant times the target parameter: (constant, 0). */
    method VisitScaled(l: Expr) returns (thrown: Option<Exn>)
      requires l.Const?
      modifies this
      ensures var d := ToDouble(l.value);
              (thrown.Some? <==> d.Throw?) && (d.Throw? ==> thrown.value == d.error)
              && (d.Ok? ==> Found() == Some(Linear(d.value, 0.0)))
    {
      thrown := None;
      success := true;
      var d := ToDouble(l.value);
      if d.Throw? {
        return Some(d.error);
      }
      result := Linear(d.value, 0.0);
    }

    /** Any other binary node: the walk goes on into both operands. */
    method VisitOperands(op: BinOp, l: Expr, r: Expr) returns (thrown: Option<Exn>)
      requires Plain(l) && Plain(r)
      modifies this
      ensures var spec := (var afterLeft :- Walk(l, param, old(Found())); Walk(r, param, afterLeft));
              (thrown.Some? <==> spec.Throw?) && (spec.Throw? ==> thrown.value == spec.error)
              && (spec.Ok? ==> Found() == spec.value)
      decreases Bin(op, l, r), 0
    {
      thrown := Visit(l);
      if thrown.None? {
        thrown := Visit(r);
      }
    }

    method VisitList(args: seq<Expr>) returns (thrown: Option<Exn>)
      requires forall a | a in args :: Plain(a)
      modifies this
      ensures var spec := WalkList(args, param, old(Found()));
              (thrown.Some? <==> spec.Throw?) && (spec.Throw? ==> thrown.value == spec.error)
              && (spec.Ok? ==> Found() == spec.value)
      decreases args
    {
      thrown := None;
      if args != [] {
        thrown := Visit(args[0]);
        if thrown.None? {
          thrown := VisitList(args[1..]);
        }
      }
    }

    /** `ExtractLinear` with its two `ref` accumulators passed in and out;
        the two-argument overload is this one with sign 1. */
    method ExtractLinear(ex: Expr, sign: real, coeff: real, constant: real)
      returns (thrown: Option<Exn>, newCoeff: real, newConstant: real)
      ensures var t := Term(ex, param, sign);
              (thrown.Some? <==> t.Throw?) && (t.Throw? ==> thrown.value == t.error)
              && (t.Ok? ==> newCoeff == coeff + t.value.multiplier && newConstant == constant + t.value.offset)
    {
      thrown, newCoeff, newConstant := None, coeff, constant;
      if ex.Param? && ex.name == param {
        newCoeff := coeff + sign;
      } else if ex.Const? {
        var d := ToDouble(ex.value);
        if d.Throw? {
          thrown := Some(d.error);
          return;
        }
        newConstant := constant + sign * d.value;
      }
    }
  }

  /** `LinearExtractor.Extract`: a fresh visitor over the tree; null unless
      `Success` ended true. */
  method Extract(e: Expr, x: string) returns (r: Option<Linear>, thrown: Option<Exn>)
    requires Plain(e)
    ensures var spec := Extraction(e, x);
            (thrown.Some? <==> spec.Throw?) && (spec.Throw? ==> thrown.value == spec.error)
            && (spec.Ok? ==> r == spec.value)
  {
    var visitor := new LinearVisitor(x);
    thrown := visitor.Visit(e);
    r := if visitor.success then Some(visitor.result) else None;
  }

  /** A numeric constant other than a `BigInteger`: `Convert.ToDouble`
      reads it as the number it stands for. */
  predicate Numeric(c: Value) {
    Number(c).Some? && !c.BigIntegerV?
  }

  /** The operands an Add or Subtract reads exactly: the target parameter
      or a numeric constant. */
  predicate Atom(e: Expr, x: string) {
    e == Param(x) || (e.Const? && Numeric(e.value))
  }

  lemma TermMeaning(e: Expr, x: string, sign: real, v: real)
    requires Atom(e, x)
    ensures Term(e, x, sign).Ok? && Denote(e, x, v).Some?
    ensures Term(e, x, sign).value.multiplier * v + Term(e, x, sign).value.offset == sign * Denote(e, x, v).value
  {
    if e.Const? {
      assert ToDouble(e.value) == Ok(Number(e.value).value);
    }
  }

  /** A root Add or Subtract always reports success, whatever its operands
      are, as long as neither direct operand is a `BigInteger` constant. */
  lemma RootSumSucceeds(op: BinOp, l: Expr, r: Expr, x: string)
    requires op == Add || op == Subtract
    requires Plain(l) && Plain(r)
    requires !(l.Const? && l.value.BigIntegerV?) && !(r.Const? && r.value.BigIntegerV?)
    ensures Extraction(Bin(op, l, r), x).Ok? && Extraction(Bin(op, l, r), x).value.Some?
  {
    assert Plain(Bin(op, l, r));
    assert Term(l, x, 1.0).Ok?;
    assert Term(r, x, if op == Subtract then -1.0 else 1.0).Ok?;
    assert SumPair(op, l, r, x).Ok?;
    assert Walk(Bin(op, l, r), x, None) == WalkBinary(op, l, r, x, None);
  }

  /** On a sum or difference of two exactly read operands the pair is the
      line the tree denotes: multiplier·v + offset is its value at v. */
  lemma SumMeaning(op: BinOp, l: Expr, r: Expr, x: string, v: real)
    requires op == Add || op == Subtract
    requires Atom(l, x) && Atom(r, x)
    ensures Plain(Bin(op, l, r)) && Extraction(Bin(op, l, r), x).Ok? && Extraction(Bin(op, l, r), x).value.Some?
    ensures Denote(Bin(op, l, r), x, v).Some?
    ensures Extraction(Bin(op, l, r), x).value.value.multiplier * v + Extraction(Bin(op, l, r), x).value.value.offset
            == Denote(Bin(op, l, r), x, v).value
  {
    var sign := if op == Subtract then -1.0 else 1.0;
    TermMeaning(l, x, 1.0, v);
    TermMeaning(r, x, sign, v);
    var e := Bin(op, l, r);
    assert Plain(l) && Plain(r);
    assert Plain(e);
    var pair := Linear(Term(l, x, 1.0).value.multiplier + Term(r, x, sign).value.multiplier,
                       Term(l, x, 1.0).value.offset + Term(r, x, sign).value.offset);
    assert SumPair(op, l, r, x) == Ok(pair);
    assert Walk(e, x, None) == WalkBinary(op, l, r, x, None);
    assert Extraction(e, x) == Ok(Some(pair));
    assert pair.multiplier * v + pair.offset
        == (Term(l, x, 1.0).value.multiplier * v + Term(l, x, 1.0).value.offset)
         + (Term(r, x, sign).value.multiplier * v + Term(r, x, sign).value.offset);
  }

  /** A constant times the target parameter records (constant, 0), which is
      the line it denotes. */
  lemma ScaledParameter(c: Value, x: string, v: real)
    requires Numeric(c)
    ensures Plain(Bin(Multiply, Const(c), Param(x)))
    ensures Extraction(Bin(Multiply, Const(c), Param(x)), x) == Ok(Some(Linear(Number(c).value, 0.0)))
    ensures Denote(Bin(Multiply, Const(c), Param(x)), x, v).Some?
    ensures Denote(Bin(Multiply, Const(c), Param(x)), x, v).value == Number(c).value * v + 0.0
  {
    assert ToDouble(c) == Ok(Number(c).value);
    assert Plain(Const(c)) && Plain(Param(x));
    assert Plain(Bin(Multiply, Const(c), Param(x)));
    assert Walk(Bin(Multiply, Const(c), Param(x)), x, None) == WalkBinary(Multiply, Const(c), Param(x), x, None);
  }

  /** No binary node anywhere in the tree. */
  predicate NoBinary(e: Expr)
    decreases e
  {
    match e
    case Bin(_, _, _) => false
    case Unary(_, y) => NoBinary(y)
    case Call(_, args) => forall a | a in args :: NoBinary(a)
    case Lambda(_, b) => NoBinary(b)
    case _ => true
  }

  /** `Success` is only set in `VisitBinary`: a tree without a binary node,
      such as a bare parameter or constant, leaves the record untouched, so
      `Extract` returns null on it. */
  lemma {:induction false} NoBinaryKeepsRecord(e: Expr, x: string, found: Option<Linear>)
    requires Plain(e) && NoBinary(e)
    ensures Walk(e, x, found) == Ok(found)
    decreases e, 1
  {
    match e
    case Const(_) =>
    case Param(_) =>
    case Unary(_, y) =>
      NoBinaryKeepsRecord(y, x, found);
    case Call(_, args) =>
      NoBinaryKeepsRecordList(args, x, found);
    case Lambda(_, b) =>
      NoBinaryKeepsRecord(b, x, found);
  }

  lemma {:induction false} NoBinaryKeepsRecordList(args: seq<Expr>, x: string, found: Option<Linear>)
    requires forall a | a in args :: Plain(a) && NoBinary(a)
    ensures WalkList(args, x, found) == Ok(found)
    decreases args
  {
    if args != [] {
      NoBinaryKeepsRecord(args[0], x, found);
      NoBinaryKeepsRecordList(args[1..], x, found);
    }
  }

  lemma NoBinaryGivesNull(e: Expr, x: string)
    requires Plain(e) && NoBinary(e)
    ensures Extraction(e, x) == Ok(None)
  {
    NoBinaryKeepsRecord(e, x, None);
  }

  /** A walk started from `found` ends as a walk from nothing does, except
      that a walk that records nothing leaves `found` in place. */
  function Resume(walked: Result<Option<Linear>>, found: Option<Linear>): Result<Option<Linear>> {
    if walked.Ok? && walked.value.None? then Ok(found) else walked
  }

  /** The record is the last match in visit order: what a walk finds
      overwrites whatever was recorded before it. */
  lemma {:induction false} LastMatchWins(e: Expr, x: string, found: Option<Linear>)
    requires Plain(e)
    ensures Walk(e, x, found) == Resume(Walk(e, x, None), found)
    decreases e, 1
  {
    match e
    case Const(_) =>
    case Param(_) =>
    case Bin(op, l, r) =>
      if !(op == Add || op == Subtract) && !(op == Multiply && l.Const? && r == Param(x)) {
        LastMatchWins(l, x, found);
        LastMatchWins(l, x, None);
        if Walk(l, x, None).Ok? {
          LastMatchWins(r, x, Walk(l, x, found).value);
          LastMatchWins(r, x, Walk(l, x, None).value);
        }
      }
    case Unary(_, y) =>
      LastMatchWins(y, x, found);
    case Call(_, args) =>
      LastMatchWinsList(args, x, found);
    case Lambda(_, b) =>
      LastMatchWins(b, x, found);
  }

  lemma {:induction false} LastMatchWinsList(args: seq<Expr>, x: string, found: Option<Linear>)
    requires forall a | a in args :: Plain(a)
    ensures WalkList(args, x, found) == Resume(WalkList(args, x, None), found)
    decreases args
  {
    if args != [] {
      LastMatchWins(args[0], x, found);
      LastMatchWins(args[0], x, None);
      if Walk(args[0], x, None).Ok? {
        LastMatchWinsList(args[1..], x, Walk(args[0], x, found).value);
        LastMatchWinsList(args[1..], x, Walk(args[0], x, None).value);
      }
    }
  }

  /** Under a binary node that is neither a sum nor constant × parameter, a
      match in the right operand overwrites one in the left. */
  lemma RightMatchOverwrites(op: BinOp, l: Expr, r: Expr, x: string, p: Linear)
    requires Plain(l) && Plain(r)
    requires op != Add && op != Subtract && op != Multiply
    requires Extraction(l, x).Ok? && Extraction(r, x) == Ok(Some(p))
    ensures Extraction(Bin(op, l, r), x) == Ok(Some(p))
  {
    assert Plain(Bin(op, l, r));
    assert Walk(Bin(op, l, r), x, None) == WalkBinary(op, l, r, x, None);
    LastMatchWins(r, x, Extraction(l, x).value);
  }

  /** No record, or a record with multiplier 0. */
  predicate FlatRecord(found: Option<Linear>) {
    found.None? || found.value.multiplier == 0.0
  }

  /** Without the target parameter in the tree every recorded multiplier
      is 0: only the parameter itself adds to it. */
  lemma {:induction false} AbsentParameterFlat(e: Expr, x: string, found: Option<Linear>)
    requires Plain(e) && x !in Occurrences(e) && FlatRecord(found)
    ensures Walk(e, x, found).Ok? ==> FlatRecord(Walk(e, x, found).value)
    decreases e, 1
  {
    match e
    case Const(_) =>
    case Param(_) =>
    case Bin(op, l, r) =>
      assert Walk(e, x, found) == WalkBinary(op, l, r, x, found);
      if !(op == Add || op == Subtract) && !(op == Multiply && l.Const? && r == Param(x)) {
        AbsentParameterFlat(l, x, found);
        if Walk(l, x, found).Ok? {
          AbsentParameterFlat(r, x, Walk(l, x, found).value);
        }
      }
    case Unary(_, y) =>
      AbsentParameterFlat(y, x, found);
    case Call(_, args) =>
      AbsentParameterFlatList(args, x, found);
    case Lambda(_, b) =>
      AbsentParameterFlat(b, x, found);
  }

  lemma {:induction false} AbsentParameterFlatList(args: seq<Expr>, x: string, found: Option<Linear>)
    requires forall a | a in args :: Plain(a)
    requires x !in OccurrencesList(args) && FlatRecord(found)
    ensures WalkList(args, x, found).Ok? ==> FlatRecord(WalkList(args, x, found).value)
    decreases args
  {
    if args != [] {
      AbsentParameterFlat(args[0], x, found);
      if Walk(args[0], x, found).Ok? {
        AbsentParameterFlatList(args[1..], x, Walk(args[0], x, found).value);
      }
    }
  }

  /** Worked cases: in (x + 1) / (2·x) the later 2·x wins; in 2·x + 3 the
      product is not a direct operand, so only the 3 is read; and y + z
      reports success with the pair (0, 0). */
  lemma Examples()
    ensures Extraction(Bin(Divide, Bin(Add, Param("x"), Double(1.0)), Bin(Multiply, Double(2.0), Param("x"))), "x")
            == Ok(Some(Linear(2.0, 0.0)))
    ensures Extraction(Bin(Add, Bin(Multiply, Double(2.0), Param("x")), Double(3.0)), "x")
            == Ok(Some(Linear(0.0, 3.0)))
    ensures Extraction(Bin(Add, Param("y"), Param("z")), "x") == Ok(Some(Linear(0.0, 0.0)))
  {
    var sum := Bin(Add, Param("x"), Double(1.0));
    var product := Bin(Multiply, Double(2.0), Param("x"));
    assert Plain(sum) && Plain(product);
    assert Extraction(sum, "x") == Ok(Some(Linear(1.0, 1.0)));
    assert Extraction(product, "x") == Ok(Some(Linear(2.0, 0.0)));
    RightMatchOverwrites(Divide, sum, product, "x", Linear(2.0, 0.0));
    assert Plain(Bin(Add, product, Double(3.0)));
    assert Plain(Bin(Add, Param("y"), Param("z")));
  }
}
