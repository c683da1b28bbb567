/** Simplifiers/ParameterFinder.cs: a visitor that tracks whether the tree
    has a single parameter. The first parameter met is recorded; a different
    one clears the record; the next one is recorded again. */
module ParameterFinder {
  import opened Wrappers
  import opened Expressions

  /** The record after meeting the parameters `names` in visit order,
      starting from `found`. */
  function Track(found: Option<string>, names: seq<string>): Option<string>
    decreases |names|
  {
    if names == [] then found
    else
      var n := names[|names| - 1];
      var before := Track(found, names[..|names| - 1]);
      if before == None then Some(n) else if before != Some(n) then None else before
  }

  lemma {:induction false} TrackAppend(found: Option<string>, a: seq<string>, b: seq<string>)
    ensures Track(found, a + b) == Track(Track(found, a), b)
    decreases |b|
  {
    if b == [] {
      assert a + b == a;
    } else {
      assert (a + b)[..|a + b| - 1] == a + b[..|b| - 1];
      TrackAppend(found, a, b[..|b| - 1]);
    }
  }

  class ParameterFinder {
    var foundParameter: Option<string>

    constructor ()
      ensures foundParameter == None
    {
      foundParameter := None;
    }

    method VisitParameter(name: string)
      modifies this
      ensures foundParameter == Track(old(foundParameter), [name])
    {
      if foundParameter == None {
        foundParameter := Some(name);
      } else if foundParameter != Some(name) {
        foundParameter := None;
      }
    }

    /** The stock traversal with the overridden `VisitParameter`. */
    method Visit(e: Expr)
      requires Plain(e)
      modifies this
      ensures foundParameter == Track(old(foundParameter), Occurrences(e))
      decreases e, 1
    {
      match e
      case Const(_) =>
      case Param(n) =>
        VisitParameter(n);
      case Bin(_, l, r) =>
        Visit(l);
        Visit(r);
        TrackAppend(old(foundParameter), Occurrences(l), Occurrences(r));
      case Unary(_, x) =>
        Visit(x);
      case Call(_, args) =>
        VisitList(args);
      case Lambda(p, b) =>
        Visit(b);
        VisitParameter(p);
        TrackAppend(old(foundParameter), Occurrences(b), [p]);
    }

    method VisitList(args: seq<Expr>)
      requires forall a | a in args :: Plain(a)
      modifies this
      ensures foundParameter == Track(old(foundParameter), OccurrencesList(args))
      decreases args
    {
      if args != [] {
        Visit(args[0]);
        VisitList(args[1..]);
        TrackAppend(old(foundParameter), Occurrences(args[0]), OccurrencesList(args[1..]));
      }
    }
  }

  /** A fresh finder run over a tree, as `AlgebraicSimplifier` uses it. */
  method FindSingleParameter(e: Expr) returns (p: Option<string>)
    requires Plain(e)
    ensures p == Track(None, Occurrences(e))
  {
    var finder := new ParameterFinder();
    finder.Visit(e);
    p := finder.foundParameter;
  }

  /** A tree whose parameters all carry one name yields that name. */
  lemma {:induction false} SingleNameFound(names: seq<string>, x: string)
    requires names != [] && forall i | 0 <= i < |names| :: names[i] == x
    ensures Track(None, names) == Some(x)
    decreases |names|
  {
    if |names| > 1 {
      SingleNameFound(names[..|names| - 1], x);
    }
  }

  /** No parameter at all yields null. */
  lemma NoParameterNoResult(e: Expr)
    requires Occurrences(e) == []
    ensures Track(None, Occurrences(e)) == None
  {
  }

  /** A recorded name is always one of the names met. */
  lemma {:induction false} FoundIsMet(names: seq<string>)
    ensures Track(None, names).Some? ==> Track(None, names).value in names
    decreases |names|
  {
    if names != [] {
      FoundIsMet(names[..|names| - 1]);
    }
  }

  /** A second, different parameter clears the record, and a third one is
      recorded again: x + y + z reports z. */
  lemma ThreeNamesReportLast()
    ensures Track(None, ["x", "y"]) == None
    ensures Track(None, ["x", "y", "z"]) == Some("z")
  {
    assert ["x", "y", "z"][..2] == ["x", "y"];
    assert ["x", "y"][..1] == ["x"];
    assert ["x"][..0] == [];
  }
}
