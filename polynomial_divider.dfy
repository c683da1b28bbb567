/** PolynomialDivider.cs: an older, purely syntactic divider. A
    denominator L − c (c a constant) over a numerator that is a difference
    gives L + c when the numerator's right operand is a constant (read as
    L² − c²) and L when it is not (read as a factor L taken out); every
    other shape gives null. The numerator's own operands are never
    inspected. The file's second `SubstitutionVisitor` has the same body as
    the one of SubstitutionVisitor.cs, which `SubstitutionVisitor.Substitute`
    models. */
module PolynomialDivider {
  import opened Wrappers
  import opened Expressions
  import PolynomialLongDivision

  /** `TryDivide(numerator, denominator)`. */
  function TryDivide(num: Expr, den: Expr): (r: Option<Expr>)
    ensures r.Some? <==> den.Bin? && den.op == Subtract && den.right.Const? && num.Bin? && num.op == Subtract
    ensures r.Some? && num.right.Const? ==> r.value == Bin(Add, den.left, den.right)
    ensures r.Some? && !num.right.Const? ==> r.value == den.left
  {
    if den.Bin? && den.op == Subtract && den.right.Const? then
      if num.Bin? && num.op == Subtract && num.right.Const? then Some(Bin(Add, den.left, den.right))
      else if num.Bin? && num.op == Subtract && !num.right.Const? then Some(den.left)
      else None
    else None
  }

  /** `IsX3(expr, x)`: (x * x) * x, all three the parameter. */
  predicate IsX3(e: Expr, x: string) {
    e.Bin? && e.op == Multiply && e.left.Bin? && e.left.op == Multiply
    && e.left.left == Param(x) && e.left.right == Param(x) && e.right == Param(x)
  }

  /** The cube test recognises exactly the product chain of three copies
      of the parameter that long division builds, which denotes v³. */
  lemma CubeIsChain(e: Expr, x: string, v: real)
    ensures IsX3(e, x) <==> e == PolynomialLongDivision.PowerChain(x, 3)
    ensures IsX3(e, x) ==> Denote(e, x, v) == Some(v * v * v)
  {
    var square := Bin(Multiply, Param(x), Param(x));
    assert PolynomialLongDivision.PowerChain(x, 2) == square;
    assert PolynomialLongDivision.PowerChain(x, 3) == Bin(Multiply, square, Param(x));
    DenoteProduct(Param(x), Param(x), x, v);
    DenoteProduct(square, Param(x), x, v);
  }

  /** (a² − c²)/(a − c) = a + c where a ≠ c. */
  lemma SquaresQuotient(a: real, c: real)
    requires a != c
    ensures (a * a - c * c) / (a - c) == a + c
  {
    assert a * a - c * c == (a + c) * (a - c);
  }

  /** (v² − v)/(v − 1) = v where v ≠ 1. */
  lemma FactorQuotient(v: real)
    requires v != 1.0
    ensures (v * v - v) / (v - 1.0) == v
  {
    assert v * v - v == v * (v - 1.0);
    Quotient(v * v - v, v - 1.0, v);
  }

  lemma Quotient(a: real, b: real, q: real)
    requires b != 0.0 && a == q * b
    ensures a / b == q
  {
  }

  lemma DenoteDifference(l: Expr, r: Expr, x: string, v: real)
    requires Denote(l, x, v).Some? && Denote(r, x, v).Some?
    ensures Denote(Bin(Subtract, l, r), x, v).Some?
    ensures Denote(Bin(Subtract, l, r), x, v).value == Denote(l, x, v).value - Denote(r, x, v).value
  {
  }

  lemma DenoteQuotient(l: Expr, r: Expr, x: string, v: real)
    requires Denote(l, x, v).Some? && Denote(r, x, v).Some? && Denote(r, x, v).value != 0.0
    ensures Denote(Bin(Divide, l, r), x, v).Some?
    ensures Denote(Bin(Divide, l, r), x, v).value == Denote(l, x, v).value / Denote(r, x, v).value
  {
  }

  /** Where its reading holds the first rule is right: (L·L − c·c)/(L − c)
      denotes what L + c denotes wherever L ≠ c. */
  lemma DifferenceOfSquares(l: Expr, c: real, x: string, v: real)
    requires Denote(l, x, v).Some? && Denote(l, x, v).value != c
    ensures var num := Bin(Subtract, Bin(Multiply, l, l), Double(c * c));
            var den := Bin(Subtract, l, Double(c));
            && TryDivide(num, den) == Some(Bin(Add, l, Double(c)))
            && Denote(Bin(Divide, num, den), x, v).Some?
            && Denote(Bin(Divide, num, den), x, v).value == Denote(l, x, v).value + c
  {
    var a := Denote(l, x, v).value;
    var square := Bin(Multiply, l, l);
    var num := Bin(Subtract, square, Double(c * c));
    var den := Bin(Subtract, l, Double(c));
    assert Denote(Double(c), x, v).value == c;
    assert Denote(Double(c * c), x, v).value == c * c;
    DenoteProduct(l, l, x, v);
    DenoteDifference(square, Double(c * c), x, v);
    assert Denote(num, x, v).value == a * a - c * c;
    DenoteDifference(l, Double(c), x, v);
    assert Denote(den, x, v).value == a - c;
    DenoteQuotient(num, den, x, v);
    assert Denote(Bin(Divide, num, den), x, v).value == (a * a - c * c) / (a - c);
    SquaresQuotient(a, c);
  }

  /** The numerator is not read: (x − 5)/(x − 1) also becomes x + 1, which
      at x = 2 is 3 while the quotient is −3. */
  lemma NumeratorNotRead(x: string)
    ensures TryDivide(Bin(Subtract, Param(x), Double(5.0)), Bin(Subtract, Param(x), Double(1.0))) == Some(Bin(Add, Param(x), Double(1.0)))
    ensures Denote(Bin(Divide, Bin(Subtract, Param(x), Double(5.0)), Bin(Subtract, Param(x), Double(1.0))), x, 2.0) == Some(-3.0)
    ensures Denote(Bin(Add, Param(x), Double(1.0)), x, 2.0) == Some(3.0)
  {
    assert Denote(Param(x), x, 2.0) == Some(2.0);
    assert Denote(Double(5.0), x, 2.0) == Some(5.0);
    assert Denote(Double(1.0), x, 2.0) == Some(1.0);
    assert Denote(Bin(Subtract, Param(x), Double(5.0)), x, 2.0) == Some(-3.0);
    assert Denote(Bin(Subtract, Param(x), Double(1.0)), x, 2.0) == Some(1.0);
  }

  /** Factor rule: (x·x − x)/(x − 1) becomes x, which agrees with the
      quotient wherever x ≠ 1. */
  lemma FactorTakenOut(x: string, v: real)
    requires v != 1.0
    ensures var num := Bin(Subtract, Bin(Multiply, Param(x), Param(x)), Param(x));
            var den := Bin(Subtract, Param(x), Double(1.0));
            && TryDivide(num, den) == Some(Param(x))
            && Denote(Bin(Divide, num, den), x, v).Some?
            && Denote(Bin(Divide, num, den), x, v).value == v
  {
    var square := Bin(Multiply, Param(x), Param(x));
    var num := Bin(Subtract, square, Param(x));
    var den := Bin(Subtract, Param(x), Double(1.0));
    assert Denote(Param(x), x, v).value == v;
    assert Denote(Double(1.0), x, v).value == 1.0;
    DenoteProduct(Param(x), Param(x), x, v);
    DenoteDifference(square, Param(x), x, v);
    DenoteDifference(Param(x), Double(1.0), x, v);
    DenoteQuotient(num, den, x, v);
    FactorQuotient(v);
  }
}
