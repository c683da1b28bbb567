/** The tree-shape tests that the known-limit tables share: a call over
    the parameter, f(x) / x, and the exponential shape (exp(x) − 1) / x.
    Parameters are one object per name, so the source's reference tests
    `node == param` are equalities with `Param(x)`. Indexing the argument
    list of a call that has none throws, as `Arguments[0]` does. */
module SimplifierShapes {
  import opened Wrappers
  import opened Expressions
  import Text

  /** `args[0] == param`, evaluated on a possibly empty argument list. */
  function FirstArgumentIs(args: seq<Expr>, x: string): (r: Result<bool>)
    ensures r.Throw? <==> args == []
    ensures r.Throw? ==> r.error == ArgumentOutOfRange
    ensures r.Ok? ==> (r.value <==> args[0] == Param(x))
  {
    if args == [] then Throw(ArgumentOutOfRange) else Ok(args[0] == Param(x))
  }

  /** f(x) / x: a call named `f` (of any declaring class) whose first
      argument is the parameter, over the bare parameter. */
  predicate CallShape(num: Expr, den: Expr, f: string, x: string) {
    num.Call? && num.fn.name == f && |num.args| > 0 && num.args[0] == Param(x) && den == Param(x)
  }

  /** (exp(x) − c) / x where c renders as "1". */
  predicate ExpMinusOneShape(num: Expr, den: Expr, x: string) {
    num.Bin? && num.op == Subtract && num.left.Call? && num.left.fn.name == "Exp"
    && |num.left.args| > 0 && num.left.args[0] == Param(x)
    && Render(num.right) == "1" && den == Param(x)
  }

  /** A numerator that makes the call test throw: a call named `f` without
      arguments. */
  predicate BareCall(num: Expr, f: string) {
    num.Call? && num.fn.name == f && num.args == []
  }

  /** A numerator that makes the exponential test throw. */
  predicate BareExpMinus(num: Expr) {
    num.Bin? && num.op == Subtract && num.left.Call? && num.left.fn.name == "Exp" && num.left.args == []
  }

  /** `num is MethodCallExpression { Method.Name: f } c && c.Arguments[0]
      == param && den == param`, with C#'s left-to-right short circuit. */
  function CallOver(num: Expr, den: Expr, f: string, x: string): (r: Result<bool>)
    ensures r == Ok(true) <==> CallShape(num, den, f, x)
    ensures r.Throw? <==> BareCall(num, f)
  {
    if num.Call? && num.fn.name == f then
      var first :- FirstArgumentIs(num.args, x);
      Ok(first && den == Param(x))
    else Ok(false)
  }

  /** `IsExpMinus1Match` and its copies: a Subtract whose left operand is a
      call named Exp, its first argument the parameter, its right operand
      rendering as "1", over the parameter. */
  function ExpMinusOneOver(num: Expr, den: Expr, x: string): (r: Result<bool>)
    ensures r == Ok(true) <==> ExpMinusOneShape(num, den, x)
    ensures r.Throw? <==> BareExpMinus(num)
  {
    if num.Bin? && num.op == Subtract && num.left.Call? && num.left.fn.name == "Exp" then
      var first :- FirstArgumentIs(num.left.args, x);
      Ok(first && Render(num.right) == "1" && den == Param(x))
    else Ok(false)
  }

  /** The text test accepts a double constant exactly when it is 1.0; it
      also accepts the integer constant 1 and a parameter named "1". */
  lemma RendersAsOne(d: real)
    ensures Render(Double(d)) == "1" <==> d == 1.0
    ensures Render(Const(Int32V(1))) == "1" && Render(Const(Int64V(1))) == "1"
    ensures Render(Param("1")) == "1"
  {
    assert Text.IntText(1) == "1";
    if Render(Double(d)) == "1" {
      assert '.' !in "1";
      assert d == d.Floor as real;
      Text.IntTextInjective(d.Floor, 1);
    }
  }
}
