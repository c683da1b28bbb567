/** LogSolver.cs: zeros of a natural logarithm. ln(u) = 0 when u = 1, so a
    `Math.Log` call at the root whose argument holds the target parameter
    first reports the single root 1.0 outright; otherwise the argument u of
    the first `Math.Log` call the `LogFinder` meets is solved as u − 1 = 0
    by the `UniversalZeroSolver` cascade. No solver calls this one. */
module LogSolver {
  import opened Wrappers
  import opened Expressions
  import opened Roots
  import opened Rationals
  import ZeroSolverUtils
  import UniversalZeroSolver
  import PolynomialZeroSolver
  import ExactEvaluator

  /** A single-argument `System.Math.Log` call. */
  predicate IsLogCall(e: Expr) {
    e.Call? && e.fn.isMath && e.fn.name == "Log" && |e.args| == 1
  }

  /** The argument of the first single-argument `Math.Log` call in visit
      order; it is a strict part of the tree. */
  function FirstLog(e: Expr): (r: Option<Expr>)
    requires Plain(e)
    ensures r.Some? ==> Size(r.value) < Size(e) && Plain(r.value)
    decreases e, 1
  {
    match e
    case Bin(_, l, r) => Or(FirstLog(l), FirstLog(r))
    case Unary(_, y) => FirstLog(y)
    case Call(_, args) =>
      if IsLogCall(e) then
        assert args[0] in args;
        assert SizeList(args) == Size(args[0]) + SizeList(args[1..]);
        Some(args[0])
      else FirstLogList(args)
    case Lambda(_, b) => FirstLog(b)
    case _ => None
  }

  function FirstLogList(args: seq<Expr>): (r: Option<Expr>)
    requires forall a | a in args :: Plain(a)
    ensures r.Some? ==> Size(r.value) < SizeList(args) && Plain(r.value)
    decreases args
  {
    if args == [] then None
    else
      assert args[0] in args;
      Or(FirstLog(args[0]), FirstLogList(args[1..]))
  }

  /** The first of two findings. */
  function Or(a: Option<Expr>, b: Option<Expr>): Option<Expr> {
    if a.Some? then a else b
  }

  /** `LogFinder`: `VisitMethodCall` records the argument of a Log call
      while nothing is recorded and returns without visiting that call's
      arguments; any other call is visited as usual. */
  class LogFinder {
    var foundLogArgument: Option<Expr>

    constructor ()
      ensures foundLogArgument == None
    {
      foundLogArgument := None;
    }

    method Visit(e: Expr)
      requires Plain(e)
      modifies this
      ensures foundLogArgument == Or(old(foundLogArgument), FirstLog(e))
      decreases e, 1
    {
      match e
      case Const(_) =>
      case Param(_) =>
      case Bin(_, l, r) =>
        Visit(l);
        Visit(r);
      case Unary(_, y) =>
        Visit(y);
      case Call(_, args) =>
        if foundLogArgument == None && IsLogCall(e) {
          foundLogArgument := Some(args[0]);
        } else {
          VisitList(args);
        }
      case Lambda(_, b) =>
        Visit(b);
    }

    method VisitList(args: seq<Expr>)
      requires forall a | a in args :: Plain(a)
      modifies this
      ensures foundLogArgument == Or(old(foundLogArgument), FirstLogList(args))
      decreases args
    {
      if args != [] {
        Visit(args[0]);
        VisitList(args[1..]);
      }
    }
  }

  /** The root case: a Log call at the root whose argument is the target
      parameter, or whose first parameter is the target. */
  predicate LogOfTarget(e: Expr, x: string) {
    IsLogCall(e) && (e.args[0] == Param(x) || ZeroSolverUtils.FirstParameter(e.args[0]) == Some(x))
  }

  /** The equation u − 1 = 0 handed to the cascade for ln(u) = 0. */
  function ArgumentIsOne(u: Expr): (r: Expr)
    requires Plain(u)
    ensures Plain(r)
  {
    assert Plain(Double(1.0));
    Bin(Subtract, u, Double(1.0))
  }

  /** `FindRoots(expr, parameter)`. */
  function FindRootsSpec(e: Expr, x: string): Result<seq<Root>>
    requires Plain(e)
  {
    if LogOfTarget(e, x) then Ok([FromDouble(x, 1.0)])
    else
      var inner := FirstLog(e);
      if inner.None? then Ok([])
      else UniversalZeroSolver.FindExactRoots(ArgumentIsOne(inner.value), x)
  }

  /** `FindRoots` as the source runs it: the root case, then the finder,
      then the cascade's roots copied one by one. */
  method FindRoots(e: Expr, x: string) returns (roots: seq<Root>, thrown: Option<Exn>)
    requires Plain(e)
    ensures FindRootsSpec(e, x).Throw? <==> thrown.Some?
    ensures thrown.Some? ==> thrown.value == FindRootsSpec(e, x).error
    ensures FindRootsSpec(e, x).Ok? ==> roots == FindRootsSpec(e, x).value
  {
    roots := [];
    thrown := None;
    if IsLogCall(e) {
      var arg := e.args[0];
      assert arg in e.args;
      if arg == Param(x) {
        roots := roots + [FromDouble(x, 1.0)];
        return;
      }
      var pf := ZeroSolverUtils.FindFirstParameter(arg);
      if pf == Some(x) {
        roots := roots + [FromDouble(x, 1.0)];
        return;
      }
    }
    var finder := new LogFinder();
    finder.Visit(e);
    if finder.foundLogArgument.Some? {
      var inner := finder.foundLogArgument.value;
      var innerRoots := UniversalZeroSolver.FindExactRoots(ArgumentIsOne(inner), x);
      if innerRoots.Throw? {
        thrown := Some(innerRoots.error);
        return;
      }
      roots := CopyRoots(innerRoots.value);
    }
  }

  /** The `foreach` that adds the cascade's roots to the empty list. */
  method CopyRoots(source: seq<Root>) returns (roots: seq<Root>)
    ensures roots == source
  {
    roots := [];
    var i := 0;
    while i < |source|
      invariant 0 <= i <= |source|
      invariant roots == source[..i]
    {
      roots := roots + [source[i]];
      i := i + 1;
    }
  }

  /** `Solve(expr)`: the shared adapter around `FindRoots`. */
  function Solve(e: Expr): Result<Option<(string, real)>>
    requires Plain(e)
  {
    ZeroSolverUtils.FindFirstRootFromFindRoots((g, p) requires Plain(g) => FindRootsSpec(g, p), e)
  }

  /** ln(x) = 0 at x = 1: the root case reports exactly 1.0, and there the
      argument is one. */
  lemma LogOfParameter(x: string)
    ensures Plain(Math("Log", [Param(x)]))
    ensures FindRootsSpec(Math("Log", [Param(x)]), x) == Ok([FromDouble(x, 1.0)])
    ensures Denote(Param(x), x, FindRootsSpec(Math("Log", [Param(x)]), x).value[0].doubleValue) == Some(1.0)
    ensures Solve(Math("Log", [Param(x)])) == Ok(Some((x, 1.0)))
  {
    var e := Math("Log", [Param(x)]);
    assert Plain(e);
    assert [Param(x)][1..] == [];
    assert OccurrencesList([Param(x)]) == [x] + [];
    assert Occurrences(e) == [x];
  }

  /** The root case answers 1.0 whenever the target comes first in the
      argument, without solving it: for ln(x + 1) it reports x = 1, where
      the argument is 2 and the logarithm is not zero. */
  lemma ShiftedArgumentReportsOne(x: string)
    ensures Plain(Math("Log", [Bin(Add, Param(x), Double(1.0))]))
    ensures FindRootsSpec(Math("Log", [Bin(Add, Param(x), Double(1.0))]), x) == Ok([FromDouble(x, 1.0)])
    ensures Denote(Bin(Add, Param(x), Double(1.0)), x, 1.0).Some?
    ensures Denote(Bin(Add, Param(x), Double(1.0)), x, 1.0).value == 2.0
  {
    var u := Bin(Add, Param(x), Double(1.0));
    assert Plain(Param(x)) && Plain(Double(1.0));
    assert Plain(u);
    assert Plain(Math("Log", [u]));
    assert Occurrences(u) == [x];
  }

  /** Past the root case, the first Log argument u is solved as u − 1 = 0
      by the cascade, and nothing else is added. */
  lemma NestedLogSolvesArgument(e: Expr, x: string)
    requires Plain(e) && !LogOfTarget(e, x) && FirstLog(e).Some?
    ensures FindRootsSpec(e, x) == UniversalZeroSolver.FindExactRoots(ArgumentIsOne(FirstLog(e).value), x)
    ensures FindRootsSpec(e, x).Ok? ==> UniversalZeroSolver.NoTwoEqual(FindRootsSpec(e, x).value)
  {
    if FindRootsSpec(e, x).Ok? {
      UniversalZeroSolver.ResultDistinct(ArgumentIsOne(FirstLog(e).value), x);
    }
  }

  /** When the polynomial solver finds roots of u − 1, those are the roots
      reported, and at each one u − 1 evaluates exactly to zero, so u is
      one and ln(u) vanishes. */
  lemma PolynomialArgumentRoots(e: Expr, x: string)
    requires Plain(e) && !LogOfTarget(e, x) && FirstLog(e).Some?
    requires PolynomialZeroSolver.FindRootsSpec(ArgumentIsOne(FirstLog(e).value), x).Ok?
    requires PolynomialZeroSolver.FindRootsSpec(ArgumentIsOne(FirstLog(e).value), x).value != []
    ensures FindRootsSpec(e, x) == PolynomialZeroSolver.FindRootsSpec(ArgumentIsOne(FirstLog(e).value), x)
    ensures forall r | r in FindRootsSpec(e, x).value ::
              r.parameter == x && r.rationalValue.Some?
              && ExactEvaluator.Eval(ArgumentIsOne(FirstLog(e).value), x, r.rationalValue.value) == Some(Zero)
  {
    var g := ArgumentIsOne(FirstLog(e).value);
    UniversalZeroSolver.PolynomialRootsAlone(g, x);
    forall r | r in FindRootsSpec(e, x).value
      ensures r.parameter == x && r.rationalValue.Some?
              && ExactEvaluator.Eval(g, x, r.rationalValue.value) == Some(Zero)
    {
      PolynomialZeroSolver.RootsAreZeros(g, x, r);
    }
  }

  /** The first Log call in visit order is the one solved: in
      ln(a) + ln(b) it is a. */
  lemma FirstCallWins(a: Expr, b: Expr)
    requires Plain(a) && Plain(b)
    ensures Plain(Bin(Add, Math("Log", [a]), Math("Log", [b])))
    ensures FirstLog(Bin(Add, Math("Log", [a]), Math("Log", [b]))) == Some(a)
  {
    assert Plain(Math("Log", [a])) && Plain(Math("Log", [b]));
    assert Plain(Bin(Add, Math("Log", [a]), Math("Log", [b])));
  }

  /** A tree without a Log call has no roots here. */
  lemma NoLogNoRoots(e: Expr, x: string)
    requires Plain(e) && NoLogCall(e)
    ensures FindRootsSpec(e, x) == Ok([])
  {
    NoLogNothing(e);
  }

  lemma {:induction false} NoLogNothing(e: Expr)
    requires Plain(e) && NoLogCall(e)
    ensures FirstLog(e) == None
    decreases e, 1
  {
    match e
    case Const(_) =>
    case Param(_) =>
    case Bin(_, l, r) =>
      NoLogNothing(l);
      NoLogNothing(r);
    case Unary(_, y) =>
      NoLogNothing(y);
    case Call(_, args) =>
      NoLogNothingList(args);
    case Lambda(_, b) =>
      NoLogNothing(b);
  }

  lemma {:induction false} NoLogNothingList(args: seq<Expr>)
    requires forall a | a in args :: Plain(a) && NoLogCall(a)
    ensures FirstLogList(args) == None
    decreases args
  {
    if args != [] {
      NoLogNothing(args[0]);
      NoLogNothingList(args[1..]);
    }
  }

  /** No single-argument `Math.Log` call anywhere in the tree. */
  predicate NoLogCall(e: Expr)
    decreases e
  {
    match e
    case Bin(_, l, r) => NoLogCall(l) && NoLogCall(r)
    case Unary(_, y) => NoLogCall(y)
    case Call(_, args) => !IsLogCall(e) && forall a | a in args :: NoLogCall(a)
    case Lambda(_, b) => NoLogCall(b)
    case _ => true
  }
}
