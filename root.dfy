/** `Root`: one root of an equation, an immutable value that always carries
    a double and, when it was found exactly, the rational it came from. */
module Roots {
  import opened Wrappers
  import opened Rationals
  import Text

  /** A parameter is identified by its name (one parameter object per
      name). */
  datatype Root = Root(parameter: string, rationalValue: Option<Rat>, doubleValue: real)

  /** `new Root(param, Rational value)`: keeps the rational and its double
      conversion. */
  function FromRational(param: string, value: Rat): (r: Root)
    ensures r.rationalValue.Some? && ToDouble(r.rationalValue.value) == r.doubleValue
    ensures r.rationalValue.value == value && r.parameter == param
  {
    Root(param, Some(value), ToDouble(value))
  }

  /** `new Root(param, double value)`: no rational is attached. */
  function FromDouble(param: string, value: real): (r: Root)
    ensures r.rationalValue.None?
    ensures r.parameter == param && r.doubleValue == value
  {
    Root(param, None, value)
  }

  function AbsReal(x: real): real {
    if x < 0.0 then -x else x
  }

  /** `Equals`: same parameter and no difference between the doubles; the
      rational part plays no role. */
  predicate Equals(a: Root, b: Root) {
    a.parameter == b.parameter && AbsReal(a.doubleValue - b.doubleValue) == 0.0
  }

  /** Equality is an equivalence: it coincides with equality of the
      (parameter, double) pair. */
  lemma EqualsMeansSameKey(a: Root, b: Root)
    ensures Equals(a, b) <==> (a.parameter, a.doubleValue) == (b.parameter, b.doubleValue)
  {
  }

  /** An exactly found root equals the approximate root with the same
      double value. */
  lemma RationalPartIgnored(param: string, value: Rat)
    ensures Equals(FromRational(param, value), FromDouble(param, ToDouble(value)))
    ensures FromRational(param, value) != FromDouble(param, ToDouble(value))
  {
  }

  /** Two exact roots of the same parameter are equal exactly when their
      rationals are. */
  lemma RationalRootsEqual(param: string, a: Rat, b: Rat)
    ensures Equals(FromRational(param, a), FromRational(param, b)) <==> a == b
  {
    if ToDouble(a) == ToDouble(b) {
      ValueDeterminesRat(a, b);
    }
  }

  /** `GetHashCode`: `HashCode.Combine(Parameter, DoubleValue)`, with the
      combining function left as a parameter. */
  function HashCode(r: Root, combine: (string, real) -> int): int {
    combine(r.parameter, r.doubleValue)
  }

  /** Equal roots hash alike, whatever the combining function. */
  lemma EqualRootsHashAlike(a: Root, b: Root, combine: (string, real) -> int)
    requires Equals(a, b)
    ensures HashCode(a, combine) == HashCode(b, combine)
  {
    EqualsMeansSameKey(a, b);
  }

  /** `ToString`: "x = p/q" for an exact root, "x ≈ v" otherwise. */
  function ToString(r: Root): (s: string)
    ensures |s| > |r.parameter| + 2 && s[..|r.parameter|] == r.parameter
    ensures s[|r.parameter|] == ' ' && s[|r.parameter| + 2] == ' '
    ensures s[|r.parameter| + 1] == (if r.rationalValue.Some? then '=' else '≈')
    ensures r.rationalValue.Some? ==> s[|r.parameter| + 3..] == Rationals.ToString(r.rationalValue.value)
    ensures r.rationalValue.None? ==> s[|r.parameter| + 3..] == Text.RealText(r.doubleValue)
  {
    var value := if r.rationalValue.Some? then Rationals.ToString(r.rationalValue.value) else Text.RealText(r.doubleValue);
    var sep := if r.rationalValue.Some? then " = " else " ≈ ";
    var s := r.parameter + sep + value;
    assert s[..|r.parameter|] == r.parameter;
    assert s[|r.parameter| + 3..] == value;
    s
  }
}
