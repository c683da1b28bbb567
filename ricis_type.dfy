/** RicisType.cs: the type signatures of the value-level prototype. A type
    is a signature string and a composite flag; only the signature takes
    part in equality, in compatibility and in the algebra of `*` and `/`,
    and two types added together form a tuple type. */
module RicisTypes {
  import opened Wrappers

  datatype RicisType = RicisType(signature: string, isComposite: bool)

  /** `RicisType.Scalar`. */
  const Scalar: RicisType := RicisType("Scalar", false)

  /** `Equals(other)`: a null other is unequal; otherwise the signatures are
      compared and the flag is not looked at. */
  predicate Equals(a: RicisType, other: Option<RicisType>) {
    other.Some? && a.signature == other.value.signature
  }

  /** Equality ignores the composite flag, so it is an equivalence that
      can hold between two different values. */
  lemma EqualsBySignature(a: RicisType, b: RicisType)
    ensures Equals(a, Some(b)) <==> a.signature == b.signature
    ensures Equals(a, Some(b)) <==> Equals(b, Some(a))
    ensures !Equals(a, None)
    ensures Equals(RicisType("T", true), Some(RicisType("T", false)))
  {
  }

  /** `IsCompatibleWith(other)`: a scalar is compatible with everything;
      otherwise only an equal signature is. */
  predicate IsCompatibleWith(a: RicisType, other: RicisType) {
    a.signature == "Scalar" || other.signature == "Scalar" || a.signature == other.signature
  }

  /** Compatibility is symmetric, and two types that are not scalar are
      compatible exactly when they are `Equals`. */
  lemma CompatibleSymmetric(a: RicisType, b: RicisType)
    ensures IsCompatibleWith(a, b) <==> IsCompatibleWith(b, a)
    ensures a.signature != "Scalar" && b.signature != "Scalar" ==> (IsCompatibleWith(a, b) <==> Equals(a, Some(b)))
    ensures IsCompatibleWith(a, Scalar) && IsCompatibleWith(Scalar, a)
  {
  }

  /** `Operate(a, b, op)`: a scalar operand gives the other one, left
      tested first; "/" of two equal signatures gives `Scalar`; otherwise
      the composite "(a op b)". */
  function Operate(a: RicisType, b: RicisType, op: string): (r: RicisType)
    ensures a.signature == "Scalar" ==> r == b
    ensures a.signature != "Scalar" && b.signature == "Scalar" ==> r == a
    ensures a.signature != "Scalar" && b.signature != "Scalar" ==>
              (if op == "/" && a.signature == b.signature then r == Scalar
               else r.isComposite && r.signature == "(" + a.signature + op + b.signature + ")")
  {
    if a.signature == "Scalar" then b
    else if b.signature == "Scalar" then a
    else if op == "/" && a.signature == b.signature then Scalar
    else RicisType("(" + a.signature + op + b.signature + ")", true)
  }

  /** The composite signature "(a op b)" gives its operands back once the
      length of the left one is known. */
  lemma {:induction false} OperateInjective(a: RicisType, b: RicisType, c: RicisType, d: RicisType, op: string)
    requires a.signature != "Scalar" && b.signature != "Scalar" && c.signature != "Scalar" && d.signature != "Scalar"
    requires |a.signature| == |c.signature| && op != "/"
    requires Operate(a, b, op) == Operate(c, d, op)
    ensures a.signature == c.signature && b.signature == d.signature
  {
    Operands(a.signature, op, b.signature);
    Operands(c.signature, op, d.signature);
  }

  /** The operands sit at fixed places in "(x op y)". */
  lemma Operands(x: string, op: string, y: string)
    ensures var s := "(" + x + op + y + ")";
            s[1..1 + |x|] == x && s[1 + |x| + |op|..|s| - 1] == y
  {
    var s := "(" + x + op + y + ")";
    assert forall i | 0 <= i < |x| :: s[1 + i] == x[i];
    assert forall i | 0 <= i < |y| :: s[1 + |x| + |op| + i] == y[i];
  }

  /** Without that length it does not: a signature holding the operator
      makes two different pairs print alike. */
  lemma OperateAmbiguous()
    ensures Operate(RicisType("x*y", false), RicisType("z", false), "*")
         == Operate(RicisType("x", false), RicisType("y*z", false), "*")
  {
    assert "(" + "x*y" + "*" + "z" + ")" == "(" + "x" + "*" + "y*z" + ")";
  }

  /** x / x: two types of one non-scalar signature divide to `Scalar`,
      and a scalar is the unit of both operations (on the right, a left
      operand that is itself named "Scalar" gives way to `Scalar`). */
  lemma OperateUnits(a: RicisType, op: string)
    ensures a.signature != "Scalar" ==> Operate(a, a, "/") == Scalar
    ensures Operate(Scalar, a, op) == a
    ensures Operate(a, Scalar, op) == if a.signature == "Scalar" then Scalar else a
  {
  }

  /** A string comparison as `OrderBy` uses it: negative, zero or positive.
      The culture-sensitive comparer is not part of this model; callers
      supply one. */
  type Comparer = (string, string) -> int

  /** The two signatures in the order a stable sort by `compare` leaves
      them: the first stays first unless it compares above the second. */
  function Sorted(compare: Comparer, x: string, y: string): (r: seq<string>)
    ensures compare(x, y) > 0 ==> r == [y, x]
    ensures compare(x, y) <= 0 ==> r == [x, y]
  {
    if compare(x, y) > 0 then [y, x] else [x, y]
  }

  /** `CreateTuple(a, b)`: "Tuple<s,t>" with the two signatures sorted,
      always composite. */
  function CreateTuple(compare: Comparer, a: RicisType, b: RicisType): (r: RicisType)
    ensures r.isComposite
    ensures r.signature == "Tuple<" + a.signature + "," + b.signature + ">"
         || r.signature == "Tuple<" + b.signature + "," + a.signature + ">"
  {
    var parts := Sorted(compare, a.signature, b.signature);
    RicisType("Tuple<" + parts[0] + "," + parts[1] + ">", true)
  }

  /** A comparison that agrees with itself in both directions and ties
      only equal strings, on the two given strings. */
  predicate Antisymmetric(compare: Comparer, x: string, y: string) {
    && (compare(x, y) > 0 <==> compare(y, x) < 0)
    && (compare(x, y) < 0 <==> compare(y, x) > 0)
    && (compare(x, y) == 0 ==> x == y)
  }

  /** (Space, Time) and (Time, Space) give one tuple type when the
      comparison orders the two signatures strictly. */
  lemma TupleOrderIndependent(compare: Comparer, a: RicisType, b: RicisType)
    requires Antisymmetric(compare, a.signature, b.signature)
    ensures CreateTuple(compare, a, b) == CreateTuple(compare, b, a)
  {
    var x, y := a.signature, b.signature;
    if compare(x, y) > 0 {
      assert Sorted(compare, y, x) == [y, x];
    } else if compare(x, y) < 0 {
      assert Sorted(compare, y, x) == [x, y];
    }
  }

  /** A comparison that ties two different signatures (as a culture may,
      for strings differing only in ignorable characters) keeps them in
      argument order, and the tuple type then depends on that order. */
  lemma TieKeepsArgumentOrder(compare: Comparer, a: RicisType, b: RicisType)
    requires compare(a.signature, b.signature) == 0 && compare(b.signature, a.signature) == 0
    requires a.signature == "x" && b.signature == "y"
    ensures CreateTuple(compare, a, b) != CreateTuple(compare, b, a)
  {
    assert CreateTuple(compare, a, b).signature[6] == 'x';
    assert CreateTuple(compare, b, a).signature[6] == 'y';
  }
}
