/** RicisEntity.cs and EntityState.cs: the value-level prototype. An entity
    is a magnitude with a type, a state (finite, typed zero, indexed
    infinity or monolith) and an index symbol; the operators `+ - * /`
    decide the state of their result from the operands' states before
    looking at magnitudes, and return a new entity (or, for `+`, one of the
    operands itself). A monolith keeps its two components in a list it
    fills right after construction. */
module RicisEntities {
  import opened Wrappers
  import opened RicisTypes
  import RealMath
  import Text

  /** `EntityState`. */
  datatype EntityState = Finite | TypedZero | IndexedInfinity | Monolith

  /** An IEEE double without rounding: a real, either infinity or NaN. */
  datatype Double = Num(x: real) | PositiveInfinity | NegativeInfinity | NaN

  function Negated(a: Double): Double {
    match a
    case Num(x) => Num(-x)
    case PositiveInfinity => NegativeInfinity
    case NegativeInfinity => PositiveInfinity
    case NaN => NaN
  }

  /** IEEE addition: NaN spreads, opposite infinities give NaN, an infinity
      absorbs any number. */
  function Sum(a: Double, b: Double): Double {
    if a.NaN? || b.NaN? then NaN
    else if a.Num? && b.Num? then Num(a.x + b.x)
    else if a.Num? then b
    else if b.Num? || a == b then a
    else NaN
  }

  /** IEEE subtraction: a + (−b). */
  function Difference(a: Double, b: Double): Double {
    Sum(a, Negated(b))
  }

  /** The sign of a value that is not NaN: −1, 0 or 1. */
  function Sign(a: Double): int
    requires !a.NaN?
  {
    match a
    case Num(x) => if x > 0.0 then 1 else if x < 0.0 then -1 else 0
    case PositiveInfinity => 1
    case NegativeInfinity => -1
  }

  function Infinite(sign: int): Double {
    if sign < 0 then NegativeInfinity else PositiveInfinity
  }

  /** IEEE multiplication: NaN spreads, an infinity times zero is NaN, and
      otherwise an infinite operand gives the infinity of the product's
      sign. */
  function Product(a: Double, b: Double): Double {
    if a.NaN? || b.NaN? then NaN
    else if a.Num? && b.Num? then Num(a.x * b.x)
    else if Sign(a) == 0 || Sign(b) == 0 then NaN
    else Infinite(Sign(a) * Sign(b))
  }

  /** IEEE division, zero taken as +0: NaN spreads, ∞/∞ and 0/0 are NaN, a
      number over an infinity is 0, and a nonzero value over 0 or an
      infinity over a number is the infinity of the sign. */
  function Quotient(a: Double, b: Double): Double {
    if a.NaN? || b.NaN? then NaN
    else if a.Num? && b.Num? then
      if b.x != 0.0 then Num(a.x / b.x)
      else if a.x == 0.0 then NaN
      else Infinite(Sign(a))
    else if b.Num? then Infinite(if Sign(b) == 0 then Sign(a) else Sign(a) * Sign(b))
    else if a.Num? then Num(0.0)
    else NaN
  }

  /** `double.ToString()`, which the source takes in the current culture;
      the model fixes the invariant culture ('.' as decimal separator). */
  function DoubleText(a: Double): string {
    match a
    case Num(x) => Text.RealText(x)
    case PositiveInfinity => "Infinity"
    case NegativeInfinity => "-Infinity"
    case NaN => "NaN"
  }

  /** The threshold of the typed-zero test, 1e-10. */
  const ZeroThreshold: real := 0.0000000001

  /** What an entity holds, apart from the components of a monolith:
      `listed` tells whether the `Components` list exists at all (the
      private constructor makes an empty one, the public one leaves it
      null). */
  datatype EntityValue = EntityValue(state: EntityState, magnitude: Double, category: RicisType, symbol: string, listed: bool)

  /** The public constructor: a value within 1e-10 of zero is a typed
      zero, every other value (NaN and the infinities too) is finite, and
      the symbol defaults to the value's text. */
  function Made(value: Double, category: RicisType, symbol: Option<string>): (v: EntityValue)
    ensures v.state == TypedZero <==> value.Num? && RealMath.Abs(value.x) < ZeroThreshold
    ensures v.state == Finite || v.state == TypedZero
    ensures v.magnitude == value && v.category == category && !v.listed
    ensures v.symbol == if symbol.Some? then symbol.value else DoubleText(value)
  {
    var state := if value.Num? && RealMath.Abs(value.x) < ZeroThreshold then TypedZero else Finite;
    EntityValue(state, value, category, if symbol.Some? then symbol.value else DoubleText(value), false)
  }

  /** The private constructor. */
  function InternalValue(state: EntityState, category: RicisType, magnitude: Double, symbol: string): EntityValue {
    EntityValue(state, magnitude, category, symbol, true)
  }

  /** `CreateMonolith(a, b)` before the components are added: state
      monolith, magnitude 0, the tuple of the two types, and "(s, t)". */
  function MonolithOf(compare: Comparer, a: EntityValue, b: EntityValue): (v: EntityValue)
    ensures v.state == Monolith && v.category == CreateTuple(compare, a.category, b.category)
    ensures v.category.isComposite && v.listed
  {
    InternalValue(Monolith, CreateTuple(compare, a.category, b.category), Num(0.0), "(" + a.symbol + ", " + b.symbol + ")")
  }

  /** What `a + b` returns: a monolith of the two, one of the operands
      itself, or a new entity. */
  datatype SumResult = Pair | LeftOperand | RightOperand | Fresh(value: EntityValue)

  /** `operator +`: incompatible types give a monolith; otherwise an
      indexed infinity is returned as it is, the left one first; otherwise
      the magnitudes are added under the left operand's type. */
  function SumOf(a: EntityValue, b: EntityValue): (r: SumResult)
    ensures r == Pair <==> !IsCompatibleWith(a.category, b.category)
    ensures r == LeftOperand <==> IsCompatibleWith(a.category, b.category) && a.state == IndexedInfinity
    ensures r == RightOperand <==> IsCompatibleWith(a.category, b.category) && a.state != IndexedInfinity && b.state == IndexedInfinity
    ensures r.Fresh? ==> r.value == Made(Sum(a.magnitude, b.magnitude), a.category, None)
  {
    if !IsCompatibleWith(a.category, b.category) then Pair
    else if a.state == IndexedInfinity then LeftOperand
    else if b.state == IndexedInfinity then RightOperand
    else Fresh(Made(Sum(a.magnitude, b.magnitude), a.category, None))
  }

  /** `operator -`: incompatible types throw; ∞_F − ∞_G is ∞ indexed by
      "F-G"; otherwise the magnitudes are subtracted under the left
      operand's type. */
  function DifferenceOf(a: EntityValue, b: EntityValue): (r: Result<EntityValue>)
    ensures r.Throw? <==> !IsCompatibleWith(a.category, b.category)
    ensures r.Throw? ==> r.error == InvalidOperation
    ensures r.Ok? && a.state == IndexedInfinity && b.state == IndexedInfinity ==>
              r.value == InternalValue(IndexedInfinity, a.category, PositiveInfinity, a.symbol + "-" + b.symbol)
    ensures r.Ok? && !(a.state == IndexedInfinity && b.state == IndexedInfinity) ==>
              r.value == Made(Difference(a.magnitude, b.magnitude), a.category, None)
  {
    if !IsCompatibleWith(a.category, b.category) then Throw(InvalidOperation)
    else if a.state == IndexedInfinity && b.state == IndexedInfinity then
      Ok(InternalValue(IndexedInfinity, a.category, PositiveInfinity, a.symbol + "-" + b.symbol))
    else Ok(Made(Difference(a.magnitude, b.magnitude), a.category, None))
  }

  /** `operator *`, rule by rule in the source's order: A6 identity
      recovery for a typed zero times an indexed infinity (either order),
      A10 a typed zero for any other zero operand, an indexed infinity for
      any other infinite operand, and otherwise the product. */
  function ProductOf(a: EntityValue, b: EntityValue): (v: EntityValue)
    ensures v.category == Operate(a.category, b.category, "*")
  {
    var newType := Operate(a.category, b.category, "*");
    var newSymbol := a.symbol + "*" + b.symbol;
    if (a.state == TypedZero && b.state == IndexedInfinity) || (a.state == IndexedInfinity && b.state == TypedZero) then
      Made(Num(1.0), newType, Some("Recovered_Identity"))
    else if a.state == TypedZero || b.state == TypedZero then InternalValue(TypedZero, newType, Num(0.0), newSymbol)
    else if a.state == IndexedInfinity || b.state == IndexedInfinity then
      InternalValue(IndexedInfinity, newType, PositiveInfinity, newSymbol)
    else Made(Product(a.magnitude, b.magnitude), newType, Some(newSymbol))
  }

  /** `operator /`, rule by rule in the source's order: A4 0/0 and then any
      x/0 give an indexed infinity, A5 ∞/∞ gives 1 "Index_Ratio", and
      otherwise the quotient. */
  function QuotientOf(a: EntityValue, b: EntityValue): (v: EntityValue)
    ensures v.category == Operate(a.category, b.category, "/")
  {
    var newType := Operate(a.category, b.category, "/");
    var newSymbol := a.symbol + "/" + b.symbol;
    if a.state == TypedZero && b.state == TypedZero then
      InternalValue(IndexedInfinity, newType, PositiveInfinity, newSymbol)
    else if b.state == TypedZero then InternalValue(IndexedInfinity, newType, PositiveInfinity, newSymbol)
    else if a.state == IndexedInfinity && b.state == IndexedInfinity then Made(Num(1.0), newType, Some("Index_Ratio"))
    else Made(Quotient(a.magnitude, b.magnitude), newType, Some(newSymbol))
  }

  /** What every entity built by the constructors and operators satisfies:
      an indexed infinity has magnitude +∞, a typed zero a magnitude within
      1e-10 of zero and a finite entity any other, and a monolith magnitude
      0 with a component list. */
  predicate Coherent(v: EntityValue) {
    match v.state
    case Finite => !(v.magnitude.Num? && RealMath.Abs(v.magnitude.x) < ZeroThreshold)
    case TypedZero => v.magnitude.Num? && RealMath.Abs(v.magnitude.x) < ZeroThreshold
    case IndexedInfinity => v.magnitude == PositiveInfinity
    case Monolith => v.magnitude == Num(0.0) && v.listed
  }

  /** The public constructor and `CreateMonolith` give coherent entities. */
  lemma ConstructorsCoherent(compare: Comparer, a: EntityValue, b: EntityValue, value: Double, category: RicisType, symbol: Option<string>)
    ensures Coherent(Made(value, category, symbol))
    ensures Coherent(MonolithOf(compare, a, b))
  {
  }

  /** Every entity the four operators build is coherent, whatever the
      operands. */
  lemma SumCoherent(a: EntityValue, b: EntityValue)
    ensures SumOf(a, b).Fresh? ==> Coherent(SumOf(a, b).value)
  {
  }

  lemma DifferenceCoherent(a: EntityValue, b: EntityValue)
    ensures DifferenceOf(a, b).Ok? ==> Coherent(DifferenceOf(a, b).value)
  {
  }

  lemma ProductCoherent(a: EntityValue, b: EntityValue)
    ensures Coherent(ProductOf(a, b))
  {
  }

  lemma QuotientCoherent(a: EntityValue, b: EntityValue)
    ensures Coherent(QuotientOf(a, b))
  {
  }

  /** A6: a typed zero times an indexed infinity, in either order, is the
      finite entity 1 named "Recovered_Identity", whatever their types. */
  lemma RecoveredIdentity(a: EntityValue, b: EntityValue)
    requires (a.state == TypedZero && b.state == IndexedInfinity) || (a.state == IndexedInfinity && b.state == TypedZero)
    ensures var v := ProductOf(a, b);
            v.state == Finite && v.magnitude == Num(1.0) && v.symbol == "Recovered_Identity"
    ensures ProductOf(a, b).state == ProductOf(b, a).state && ProductOf(a, b).symbol == ProductOf(b, a).symbol
  {
  }

  /** The rules of `*` after A6, in their order: A10 a typed zero operand
      (the other not an indexed infinity) gives a typed zero of magnitude 0,
      any other indexed infinity operand gives an indexed infinity of
      magnitude +∞, and two operands of neither state give the product of
      the magnitudes, its state chosen from that product by the public
      constructor. Every case but A6 is named "a*b". */
  lemma ProductRules(a: EntityValue, b: EntityValue)
    ensures (a.state == TypedZero && b.state != IndexedInfinity) || (b.state == TypedZero && a.state != IndexedInfinity) ==>
              ProductOf(a, b) == InternalValue(TypedZero, Operate(a.category, b.category, "*"), Num(0.0), a.symbol + "*" + b.symbol)
    ensures a.state != TypedZero && b.state != TypedZero && (a.state == IndexedInfinity || b.state == IndexedInfinity) ==>
              ProductOf(a, b) == InternalValue(IndexedInfinity, Operate(a.category, b.category, "*"), PositiveInfinity, a.symbol + "*" + b.symbol)
    ensures a.state !in {TypedZero, IndexedInfinity} && b.state !in {TypedZero, IndexedInfinity} ==>
              ProductOf(a, b) == Made(Product(a.magnitude, b.magnitude), Operate(a.category, b.category, "*"), Some(a.symbol + "*" + b.symbol))
    ensures !((a.state == TypedZero && b.state == IndexedInfinity) || (a.state == IndexedInfinity && b.state == TypedZero)) ==>
              ProductOf(a, b).symbol == a.symbol + "*" + b.symbol
  {
  }

  /** The state and magnitude of a product do not depend on the operands'
      order; its type and symbol do. */
  lemma ProductStateCommutes(a: EntityValue, b: EntityValue)
    ensures ProductOf(a, b).state == ProductOf(b, a).state
    ensures ProductOf(a, b).magnitude == ProductOf(b, a).magnitude
  {
    assert Product(a.magnitude, b.magnitude) == Product(b.magnitude, a.magnitude);
  }

  /** The rules of `/` in their order: 0/0 and x/0 give an indexed
      infinity (an indexed infinity over a typed zero too, before A5 is
      looked at), ∞/∞ gives 1 "Index_Ratio", a coherent finite entity
      over an indexed infinity is a typed zero, and an indexed infinity
      over a nonzero finite entity is a finite entity of infinite
      magnitude. */
  lemma QuotientRules(a: EntityValue, b: EntityValue)
    requires Coherent(a) && Coherent(b)
    ensures b.state == TypedZero ==> QuotientOf(a, b).state == IndexedInfinity
    ensures a.state == IndexedInfinity && b.state == IndexedInfinity ==>
              QuotientOf(a, b).state == Finite && QuotientOf(a, b).magnitude == Num(1.0) && QuotientOf(a, b).symbol == "Index_Ratio"
    ensures a.state == Finite && a.magnitude.Num? && b.state == IndexedInfinity ==>
              QuotientOf(a, b).state == TypedZero
    ensures a.state == IndexedInfinity && b.state == Finite && b.magnitude.Num? ==>
              QuotientOf(a, b).state == Finite && !QuotientOf(a, b).magnitude.Num?
  {
  }

  /** ∞_F − ∞_G is indexed by "F-G", but an indexed infinity minus a
      finite entity is a finite entity of magnitude +∞: unlike `+`, `-`
      keeps no index for a single infinite operand. */
  lemma InfinityMinusFinite(a: EntityValue, b: EntityValue)
    requires IsCompatibleWith(a.category, b.category) && Coherent(a) && Coherent(b)
    requires a.state == IndexedInfinity && b.state == Finite && b.magnitude.Num?
    ensures DifferenceOf(a, b).Ok?
    ensures DifferenceOf(a, b).value.state == Finite
    ensures DifferenceOf(a, b).value.magnitude == PositiveInfinity
    ensures SumOf(a, b) == LeftOperand
  {
  }

  /** `RicisEntity`: the immutable properties are constants; the
      `Components` list (null unless the private constructor made it) is
      the one thing changed after construction. */
  class RicisEntity {
    const magnitude: Double
    /** `Type`. */
    const category: RicisType
    const state: EntityState
    /** `IndexSymbol`. */
    const symbol: string
    var components: Option<seq<RicisEntity>>

    function Value(): EntityValue
      reads this
    {
      EntityValue(state, magnitude, category, symbol, components.Some?)
    }

    /** `RicisEntity(value, type, symbol)`. */
    constructor (value: Double, category: RicisType, symbol: Option<string>)
      ensures Value() == Made(value, category, symbol) && components == None
    {
      var v := Made(value, category, symbol);
      this.magnitude := value;
      this.category := category;
      this.symbol := v.symbol;
      this.state := v.state;
      this.components := None;
    }

    /** The private `RicisEntity(state, type, mag, symbol)`. */
    constructor Internal(state: EntityState, category: RicisType, magnitude: Double, symbol: string)
      ensures Value() == InternalValue(state, category, magnitude, symbol) && components == Some([])
    {
      this.state := state;
      this.category := category;
      this.magnitude := magnitude;
      this.symbol := symbol;
      this.components := Some([]);
    }

    /** `CreateMonolith(a, b)`: a new monolith whose list holds a and then
        b. */
    static method CreateMonolith(compare: Comparer, a: RicisEntity, b: RicisEntity) returns (m: RicisEntity)
      ensures fresh(m)
      ensures m.Value() == MonolithOf(compare, a.Value(), b.Value())
      ensures m.components == Some([a, b])
    {
      m := new RicisEntity.Internal(Monolith, CreateTuple(compare, a.category, b.category), Num(0.0),
                                    "(" + a.symbol + ", " + b.symbol + ")");
      m.components := Some(m.components.value + [a]);
      assert m.components.value == [a];
      m.components := Some(m.components.value + [b]);
      assert m.components.value == [a, b];
    }

    /** `operator +`. */
    static method Add(compare: Comparer, a: RicisEntity, b: RicisEntity) returns (r: RicisEntity)
      ensures SumOf(a.Value(), b.Value()) == Pair ==>
                fresh(r) && r.Value() == MonolithOf(compare, a.Value(), b.Value()) && r.components == Some([a, b])
      ensures SumOf(a.Value(), b.Value()) == LeftOperand ==> r == a
      ensures SumOf(a.Value(), b.Value()) == RightOperand ==> r == b
      ensures SumOf(a.Value(), b.Value()).Fresh? ==>
                fresh(r) && r.Value() == SumOf(a.Value(), b.Value()).value && r.components == None
    {
      if !IsCompatibleWith(a.category, b.category) {
        r := CreateMonolith(compare, a, b);
        return;
      }
      if a.state == IndexedInfinity {
        return a;
      }
      if b.state == IndexedInfinity {
        return b;
      }
      r := new RicisEntity(Sum(a.magnitude, b.magnitude), a.category, None);
    }

    /** `operator -`. */
    static method Subtract(a: RicisEntity, b: RicisEntity) returns (r: Result<RicisEntity>)
      ensures DifferenceOf(a.Value(), b.Value()).Throw? ==> r == Throw(InvalidOperation)
      ensures DifferenceOf(a.Value(), b.Value()).Ok? ==>
                && r.Ok? && fresh(r.value)
                && r.value.Value() == DifferenceOf(a.Value(), b.Value()).value
                && r.value.components == (if r.value.Value().listed then Some([]) else None)
    {
      if !IsCompatibleWith(a.category, b.category) {
        return Throw(InvalidOperation);
      }
      var e;
      if a.state == IndexedInfinity && b.state == IndexedInfinity {
        e := new RicisEntity.Internal(IndexedInfinity, a.category, PositiveInfinity, a.symbol + "-" + b.symbol);
      } else {
        e := new RicisEntity(Difference(a.magnitude, b.magnitude), a.category, None);
      }
      r := Ok(e);
    }

    /** `operator *`. */
    static method Multiply(a: RicisEntity, b: RicisEntity) returns (r: RicisEntity)
      ensures fresh(r) && r.Value() == ProductOf(a.Value(), b.Value())
      ensures r.components == if r.Value().listed then Some([]) else None
    {
      var newType := Operate(a.category, b.category, "*");
      var newSymbol := a.symbol + "*" + b.symbol;
      if (a.state == TypedZero && b.state == IndexedInfinity) || (a.state == IndexedInfinity && b.state == TypedZero) {
        r := new RicisEntity(Num(1.0), newType, Some("Recovered_Identity"));
      } else if a.state == TypedZero || b.state == TypedZero {
        r := new RicisEntity.Internal(TypedZero, newType, Num(0.0), newSymbol);
      } else if a.state == IndexedInfinity || b.state == IndexedInfinity {
        r := new RicisEntity.Internal(IndexedInfinity, newType, PositiveInfinity, newSymbol);
      } else {
        r := new RicisEntity(Product(a.magnitude, b.magnitude), newType, Some(newSymbol));
      }
    }

    /** `operator /`. */
    static method Divide(a: RicisEntity, b: RicisEntity) returns (r: RicisEntity)
      ensures fresh(r) && r.Value() == QuotientOf(a.Value(), b.Value())
      ensures r.components == if r.Value().listed then Some([]) else None
    {
      var newType := Operate(a.category, b.category, "/");
      var newSymbol := a.symbol + "/" + b.symbol;
      if a.state == TypedZero && b.state == TypedZero {
        r := new RicisEntity.Internal(IndexedInfinity, newType, PositiveInfinity, newSymbol);
      } else if b.state == TypedZero {
        r := new RicisEntity.Internal(IndexedInfinity, newType, PositiveInfinity, newSymbol);
      } else if a.state == IndexedInfinity && b.state == IndexedInfinity {
        r := new RicisEntity(Num(1.0), newType, Some("Index_Ratio"));
      } else {
        r := new RicisEntity(Quotient(a.magnitude, b.magnitude), newType, Some(newSymbol));
      }
    }
  }
}
