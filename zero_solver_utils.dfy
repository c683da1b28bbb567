/** ZeroSolver/ZeroSolverUtils.cs: the helpers the zero solvers share. A
    visitor that records the first parameter it meets, and an adapter that
    calls a `FindRoots` implementation with that parameter and returns the
    first root it reports as a (parameter, value) pair. */
module ZeroSolverUtils {
  import opened Wrappers
  import opened Expressions
  import opened Roots

  /** The first parameter in visit order, or null when the tree has none. */
  function FirstParameter(e: Expr): Option<string> {
    if Occurrences(e) == [] then None else Some(Occurrences(e)[0])
  }

  /** The parameter handed to a solver call whose parameter argument the
      source leaves out: the tree's first parameter, or a name that occurs
      nowhere in it when it has none. */
  function KnownParameter(e: Expr): string {
    var p := FirstParameter(e);
    if p.Some? then p.value else ""
  }

  /** The record after meeting `names` in visit order: the first one met
      stays, later ones are ignored. */
  function Keep(found: Option<string>, names: seq<string>): Option<string> {
    if found.Some? || names == [] then found else Some(names[0])
  }

  lemma KeepAppend(found: Option<string>, a: seq<string>, b: seq<string>)
    ensures Keep(Keep(found, a), b) == Keep(found, a + b)
  {
    if found.None? && a != [] {
      assert (a + b)[0] == a[0];
    }
  }

  /** `ParamFinder`: `VisitParameter` records a parameter only while none is
      recorded yet. */
  class ParamFinder {
    var parameter: Option<string>

    constructor ()
      ensures parameter == None
    {
      parameter := None;
    }

    method VisitParameter(name: string)
      modifies this
      ensures parameter == Keep(old(parameter), [name])
    {
      if parameter == None {
        parameter := Some(name);
      }
    }

    method Visit(e: Expr)
      requires Plain(e)
      modifies this
      ensures parameter == Keep(old(parameter), Occurrences(e))
      decreases e, 1
    {
      match e
      case Const(_) =>
      case Param(n) =>
        VisitParameter(n);
      case Bin(_, l, r) =>
        Visit(l);
        Visit(r);
        KeepAppend(old(parameter), Occurrences(l), Occurrences(r));
      case Unary(_, x) =>
        Visit(x);
      case Call(_, args) =>
        VisitList(args);
      case Lambda(p, b) =>
        Visit(b);
        VisitParameter(p);
        KeepAppend(old(parameter), Occurrences(b), [p]);
    }

    method VisitList(args: seq<Expr>)
      requires forall a | a in args :: Plain(a)
      modifies this
      ensures parameter == Keep(old(parameter), OccurrencesList(args))
      decreases args
    {
      if args != [] {
        Visit(args[0]);
        VisitList(args[1..]);
        KeepAppend(old(parameter), Occurrences(args[0]), OccurrencesList(args[1..]));
      }
    }
  }

  /** `FindFirstParameter`: a fresh finder over the tree reports the first
      parameter in visit order, and null when there is none. */
  method FindFirstParameter(e: Expr) returns (p: Option<string>)
    requires Plain(e)
    ensures p.Some? <==> Occurrences(e) != []
    ensures p.Some? ==> p.value == Occurrences(e)[0]
  {
    var finder := new ParamFinder();
    finder.Visit(e);
    p := finder.parameter;
  }

  /** `FindFirstRootFromFindRoots`: no parameter, or an empty root list,
      gives null; otherwise the first root's parameter and value. The
      `NormalizeZero` step is the identity here, since reals have no −0. */
  function FindFirstRootFromFindRoots(findRoots: (Expr, string) --> Result<seq<Root>>, e: Expr): Result<Option<(string, real)>>
    requires forall p :: findRoots.requires(e, p)
  {
    var param := FirstParameter(e);
    if param.None? then Ok(None)
    else
      var roots :- findRoots(e, param.value);
      if roots == [] then Ok(None)
      else Ok(Some((roots[0].parameter, roots[0].doubleValue)))
  }

  /** The adapter reports a pair exactly when the tree has a parameter and
      the solver, called with the first one, finds at least one root; the
      pair is then the first root's. */
  lemma AdapterReportsFirstRoot(findRoots: (Expr, string) --> Result<seq<Root>>, e: Expr)
    requires forall p :: findRoots.requires(e, p)
    requires FindFirstRootFromFindRoots(findRoots, e).Ok?
    ensures FindFirstRootFromFindRoots(findRoots, e).value.Some?
            <==> Occurrences(e) != [] && findRoots(e, Occurrences(e)[0]).value != []
    ensures FindFirstRootFromFindRoots(findRoots, e).value.Some? ==>
              var first := findRoots(e, Occurrences(e)[0]).value[0];
              FindFirstRootFromFindRoots(findRoots, e).value.value == (first.parameter, first.doubleValue)
  {
  }
}
