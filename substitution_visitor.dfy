/** SubstitutionVisitor.cs: a rebuilding `ExpressionVisitor` that replaces
    every parameter named `paramName` by the double constant `value`. */
module SubstitutionVisitor {
  import opened Wrappers
  import opened Expressions

  /** Every occurrence of the name removed, every other one kept in order. */
  function Without(names: seq<string>, name: string): (r: seq<string>)
    ensures name !in r
    ensures forall n :: n in r <==> n in names && n != name
  {
    if names == [] then []
    else (if names[0] == name then [] else [names[0]]) + Without(names[1..], name)
  }

  lemma WithoutAppend(a: seq<string>, b: seq<string>, name: string)
    ensures Without(a + b, name) == Without(a, name) + Without(b, name)
  {
    if a == [] {
      assert a + b == b;
    } else {
      assert (a + b)[1..] == a[1..] + b;
      WithoutAppend(a[1..], b, name);
    }
  }

  /** Visiting a lambda also visits its parameter list, and a parameter
      rewritten into a constant makes `VisitAndConvert` throw. */
  function Substitute(e: Expr, paramName: string, value: real): (r: Result<Expr>)
    requires Plain(e)
    ensures r.Ok? ==> Plain(r.value) && Size(r.value) == Size(e)
    ensures r.Ok? ==> Occurrences(r.value) == Without(Occurrences(e), paramName)
    ensures r.Throw? ==> r.error == InvalidOperation
    decreases e, 1
  {
    match e
    case Const(_) => Ok(e)
    case Param(n) => Ok(if n == paramName then Double(value) else e)
    case Bin(op, l, rt) =>
      var l' :- Substitute(l, paramName, value);
      var r' :- Substitute(rt, paramName, value);
      WithoutAppend(Occurrences(l), Occurrences(rt), paramName);
      Ok(Bin(op, l', r'))
    case Unary(u, x) =>
      var x' :- Substitute(x, paramName, value);
      Ok(Unary(u, x'))
    case Call(m, args) =>
      var args' :- SubstituteList(args, paramName, value);
      Ok(Call(m, args'))
    case Lambda(p, b) =>
      var b' :- Substitute(b, paramName, value);
      if p == paramName then Throw(InvalidOperation)
      else
        WithoutAppend(Occurrences(b), [p], paramName);
        Ok(Lambda(p, b'))
  }

  function SubstituteList(args: seq<Expr>, paramName: string, value: real): (r: Result<seq<Expr>>)
    requires forall a | a in args :: Plain(a)
    ensures r.Ok? ==> |r.value| == |args| && (forall a | a in r.value :: Plain(a))
    ensures r.Ok? ==> SizeList(r.value) == SizeList(args)
    ensures r.Ok? ==> OccurrencesList(r.value) == Without(OccurrencesList(args), paramName)
    ensures r.Throw? ==> r.error == InvalidOperation
    decreases args
  {
    if args == [] then Ok([])
    else
      var h :- Substitute(args[0], paramName, value);
      var t :- SubstituteList(args[1..], paramName, value);
      WithoutAppend(Occurrences(args[0]), OccurrencesList(args[1..]), paramName);
      assert ([h] + t)[1..] == t;
      Ok([h] + t)
  }

  /** Substitution into a tree without lambdas always succeeds and leaves
      no parameter of that name behind. */
  lemma {:induction false} NoLambdaSucceeds(e: Expr, paramName: string, value: real)
    requires Plain(e) && NoLambda(e)
    ensures Substitute(e, paramName, value).Ok?
    ensures paramName !in Occurrences(Substitute(e, paramName, value).value)
    decreases e, 1
  {
    match e
    case Const(_) =>
    case Param(_) =>
    case Bin(_, l, r) =>
      NoLambdaSucceeds(l, paramName, value);
      NoLambdaSucceeds(r, paramName, value);
    case Unary(_, x) =>
      NoLambdaSucceeds(x, paramName, value);
    case Call(_, args) =>
      NoLambdaListSucceeds(args, paramName, value);
  }

  lemma {:induction false} NoLambdaListSucceeds(args: seq<Expr>, paramName: string, value: real)
    requires forall a | a in args :: Plain(a) && NoLambda(a)
    ensures SubstituteList(args, paramName, value).Ok?
    decreases args
  {
    if args != [] {
      NoLambdaSucceeds(args[0], paramName, value);
      NoLambdaListSucceeds(args[1..], paramName, value);
    }
  }

  predicate NoLambda(e: Expr) {
    match e
    case Bin(_, l, r) => NoLambda(l) && NoLambda(r)
    case Unary(_, x) => NoLambda(x)
    case Call(_, args) => forall a | a in args :: NoLambda(a)
    case Lambda(_, _) => false
    case _ => true
  }
}
