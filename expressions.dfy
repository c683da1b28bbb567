/** The expression trees the engine rewrites: the `System.Linq.Expressions`
    node kinds it meets (constants, parameters, arithmetic binaries, unary
    minus/plus/convert, static method calls and one-parameter lambdas) and the
    three singularity extension nodes of the RICIS model (`Infinity`,
    `Bridged`, `Monolith`), together with what the framework computes about a
    node: its CLR `Type`, its `NodeType`, its `ToString()` text and the order
    in which an `ExpressionVisitor` meets its parameters. */
module Expressions {
  import opened Wrappers
  import Text

  /** The CLR types a node can have. */
  datatype ClrType = DoubleT | SingleT | Int32T | Int64T | DecimalT | BigIntegerT | ObjectT | VoidT | FuncT(result: ClrType)

  /** The boxed value of a `ConstantExpression`; a decimal is its mantissa
      over 10^scale, and doubles are modelled as reals. */
  datatype Value =
    | DoubleV(d: real)
    | SingleV(f: real)
    | Int32V(i: int)
    | Int64V(l: int)
    | DecimalV(mantissa: int, scale: nat)
    | BigIntegerV(b: int)
    | NullV

  datatype BinOp = Add | Subtract | Multiply | Divide | Modulo | Power

  datatype UnOp = Negate | UnaryPlus | ConvertTo(target: ClrType)

  /** A static method; `isMath` says it is declared on `System.Math`. */
  datatype Method = Method(isMath: bool, name: string)

  /** Which of the two same-named node classes a `Bridged` or `Monolith` node
      is: `Scoped` is the one in namespace `SimplifierConsole`
      (InfinityExpression.cs), `Global` the one in the global namespace
      (BridgedExpression.cs, SingularityMonolithExpression.cs). */
  datatype Decl = Scoped | Global

  datatype Expr =
    | Const(value: Value)
    | Param(name: string)
    | Bin(op: BinOp, left: Expr, right: Expr)
    | Unary(uop: UnOp, operand: Expr)
    | Call(fn: Method, args: seq<Expr>)
    | Lambda(param: string, body: Expr)
    | Infinity(inf: Inf)
    | Bridged(decl: Decl, content: Expr, variable: string, point: real)
    | Monolith(decl: Decl, parts: seq<Inf>)

  /** `InfinityExpression`: an indexed infinity ∞_{numerator} at variable = point. */
  datatype Inf = Inf(numerator: Expr, variable: string, point: real)

  /** `ExpressionType`, as far as the engine distinguishes node kinds. */
  datatype NodeType = ConstantN | ParameterN | BinaryN(op: BinOp) | NegateN | UnaryPlusN | ConvertN | CallN | LambdaN | ExtensionN

  function Double(d: real): Expr { Const(DoubleV(d)) }

  function Math(name: string, args: seq<Expr>): Expr { Call(Method(true, name), args) }

  function KindOf(e: Expr): NodeType {
    match e
    case Const(_) => ConstantN
    case Param(_) => ParameterN
    case Bin(op, _, _) => BinaryN(op)
    case Unary(Negate, _) => NegateN
    case Unary(UnaryPlus, _) => UnaryPlusN
    case Unary(ConvertTo(_), _) => ConvertN
    case Call(_, _) => CallN
    case Lambda(_, _) => LambdaN
    case _ => ExtensionN
  }

  function ValueType(v: Value): ClrType {
    match v
    case DoubleV(_) => DoubleT
    case SingleV(_) => SingleT
    case Int32V(_) => Int32T
    case Int64V(_) => Int64T
    case DecimalV(_, _) => DecimalT
    case BigIntegerV(_) => BigIntegerT
    case NullV => ObjectT
  }

  /** `Expression.Type`. Parameters and `Math` calls are double; an
      arithmetic node has its operands' type; `Infinity` and `Bridged` take
      the type of what they wrap and a `Monolith` that of its first
      component, or `void` when it has none. */
  function TypeOf(e: Expr): ClrType {
    match e
    case Const(v) => ValueType(v)
    case Param(_) => DoubleT
    case Bin(_, l, _) => TypeOf(l)
    case Unary(ConvertTo(t), _) => t
    case Unary(_, x) => TypeOf(x)
    case Call(_, _) => DoubleT
    case Lambda(_, b) => FuncT(TypeOf(b))
    case Infinity(i) => TypeOf(i.numerator)
    case Bridged(_, c, _, _) => TypeOf(c)
    case Monolith(_, parts) => if |parts| == 0 then VoidT else TypeOf(parts[0].numerator)
  }

  /** `object.Equals` on two boxed constant values: same CLR type and equal
      value; decimals compare by numeric value (1.0m equals 1.00m). */
  predicate ValueEquals(a: Value, b: Value) {
    match (a, b)
    case (DecimalV(m1, s1), DecimalV(m2, s2)) =>
      m1 * Pow10(s2) == m2 * Pow10(s1)
    case _ => a == b
  }

  function Pow10(k: nat): (p: nat)
    ensures p > 0
  {
    if k == 0 then 1 else 10 * Pow10(k - 1)
  }

  /** `Convert.ToDouble(object)`: null gives 0, a `BigInteger` is not
      `IConvertible` and throws. */
  function ToDouble(v: Value): (r: Result<real>)
    ensures r.Throw? <==> v.BigIntegerV?
    ensures r.Throw? ==> r.error == InvalidCast
  {
    match v
    case DoubleV(d) => Ok(d)
    case SingleV(f) => Ok(f)
    case Int32V(i) => Ok(i as real)
    case Int64V(l) => Ok(l as real)
    case DecimalV(m, s) => Ok(m as real / Pow10(s) as real)
    case BigIntegerV(_) => Throw(InvalidCast)
    case NullV => Ok(0.0)
  }

  /** `value.ToString()` as `ExpressionStringBuilder` prints a constant. */
  function ValueText(v: Value): string {
    match v
    case DoubleV(d) => Text.RealText(d)
    case SingleV(f) => Text.RealText(f)
    case Int32V(i) => Text.IntText(i)
    case Int64V(l) => Text.IntText(l)
    case DecimalV(m, s) => Text.DecimalText(m, s)
    case BigIntegerV(b) => Text.IntText(b)
    case NullV => "null"
  }

  function OpText(op: BinOp): string {
    match op
    case Add => "+"
    case Subtract => "-"
    case Multiply => "*"
    case Divide => "/"
    case Modulo => "%"
    case Power => "**"
  }

  function TypeName(t: ClrType): string {
    match t
    case DoubleT => "Double"
    case SingleT => "Single"
    case Int32T => "Int32"
    case Int64T => "Int64"
    case DecimalT => "Decimal"
    case BigIntegerT => "BigInteger"
    case ObjectT => "Object"
    case VoidT => "Void"
    case FuncT(r) => "Func`2"
  }

  /** `Expression.ToString()`: the `ExpressionStringBuilder` text of a
      standard node, and the overridden `ToString()` of an extension node. */
  function Render(e: Expr): string
    decreases e, 1
  {
    match e
    case Const(v) => ValueText(v)
    case Param(n) => n
    case Bin(op, l, r) => "(" + Render(l) + " " + OpText(op) + " " + Render(r) + ")"
    case Unary(Negate, x) => "-" + Render(x)
    case Unary(UnaryPlus, x) => "+" + Render(x)
    case Unary(ConvertTo(t), x) => "Convert(" + Render(x) + ", " + TypeName(t) + ")"
    case Call(m, args) => m.name + "(" + RenderList(args) + ")"
    case Lambda(p, b) => p + " => " + Render(b)
    case Infinity(i) => RenderInf(i)
    case Bridged(_, c, x, v) => Render(c) + " [bridged at " + x + "=" + Text.RealText(v) + "]"
    case Monolith(Scoped, parts) =>
      if |parts| == 0 then "Monolith { empty }" else "Monolith { " + RenderInfs(parts) + " }"
    case Monolith(Global, parts) => "Monolith { " + RenderInfs(parts) + " }"
  }

  /** `InfinityExpression.ToString()`: ∞_{N} при x = v. */
  function RenderInf(i: Inf): string
    decreases i, 0
  {
    "∞_{" + Render(i.numerator) + "} при " + i.variable + " = " + Text.RealText(i.point)
  }

  /** Arguments joined by ", ". */
  function RenderList(args: seq<Expr>): string
    decreases args
  {
    if |args| == 0 then ""
    else if |args| == 1 then Render(args[0])
    else Render(args[0]) + ", " + RenderList(args[1..])
  }

  /** `string.Join(", ", singularities)`. */
  function RenderInfs(parts: seq<Inf>): string
    decreases parts
  {
    if |parts| == 0 then ""
    else if |parts| == 1 then RenderInf(parts[0])
    else RenderInf(parts[0]) + ", " + RenderInfs(parts[1..])
  }

  /** No singularity extension node anywhere in the tree: the trees a stock
      `ExpressionVisitor` can walk without its `VisitExtension` throwing. */
  predicate Plain(e: Expr) {
    match e
    case Const(_) => true
    case Param(_) => true
    case Bin(_, l, r) => Plain(l) && Plain(r)
    case Unary(_, x) => Plain(x)
    case Call(_, args) => forall a | a in args :: Plain(a)
    case Lambda(_, b) => Plain(b)
    case _ => false
  }

  /** The parameter names in the order an `ExpressionVisitor` visits
      parameter nodes: left before right, arguments in order, and a lambda's
      body before its parameter. */
  function Occurrences(e: Expr): seq<string>
    decreases e, 1
  {
    match e
    case Const(_) => []
    case Param(n) => [n]
    case Bin(_, l, r) => Occurrences(l) + Occurrences(r)
    case Unary(_, x) => Occurrences(x)
    case Call(_, args) => OccurrencesList(args)
    case Lambda(p, b) => Occurrences(b) + [p]
    case _ => []
  }

  function OccurrencesList(args: seq<Expr>): seq<string>
    decreases args
  {
    if |args| == 0 then [] else Occurrences(args[0]) + OccurrencesList(args[1..])
  }

  /** Number of nodes, for termination arguments. */
  function Size(e: Expr): (n: nat)
    ensures n >= 1
    decreases e, 1
  {
    match e
    case Const(_) => 1
    case Param(_) => 1
    case Bin(_, l, r) => 1 + Size(l) + Size(r)
    case Unary(_, x) => 1 + Size(x)
    case Call(_, args) => 1 + SizeList(args)
    case Lambda(_, b) => 1 + Size(b)
    case Infinity(i) => 1 + Size(i.numerator)
    case Bridged(_, c, _, _) => 1 + Size(c)
    case Monolith(_, parts) => 1 + SizeInfs(parts)
  }

  function SizeList(args: seq<Expr>): nat
    decreases args
  {
    if |args| == 0 then 0 else Size(args[0]) + SizeList(args[1..])
  }

  function SizeInfs(parts: seq<Inf>): nat
    decreases parts
  {
    if |parts| == 0 then 0 else Size(parts[0].numerator) + SizeInfs(parts[1..])
  }

  /** v to the power n. */
  function RealPow(v: real, n: nat): real {
    if n == 0 then 1.0 else RealPow(v, n - 1) * v
  }

  /** The number a constant stands for; null stands for none. */
  function Number(c: Value): Option<real> {
    match c
    case DoubleV(d) => Some(d)
    case SingleV(f) => Some(f)
    case Int32V(i) => Some(i as real)
    case Int64V(l) => Some(l as real)
    case DecimalV(m, s) => Some(m as real / Pow10(s) as real)
    case BigIntegerV(b) => Some(b as real)
    case NullV => None
  }

  /** `long.MinValue` and `long.MaxValue`. */
  const LongMin: int := -0x8000_0000_0000_0000
  const LongMax: int := 0x7FFF_FFFF_FFFF_FFFF

  /** The cast `(long)` of an integral double n. Inside the `long` range it
      is exact. Outside it C# leaves the result unspecified; the model takes
      the saturating conversion of .NET 9, which gives the nearer bound. */
  function SaturatedLong(n: int): (r: int)
    ensures LongMin <= r <= LongMax
    ensures r == n <==> LongMin <= n <= LongMax
  {
    if n < LongMin then LongMin else if n > LongMax then LongMax else n
  }

  /** The value a tree denotes in exact real arithmetic when the parameter
      named x stands for v: numeric constants, that parameter, +, −, *, /
      (none for a zero divisor) and unary minus and plus. Other parameters,
      calls, lambdas, remainders, powers, conversions and singularity nodes
      denote nothing here. It is the reference meaning of the arithmetic
      trees the engine builds, free of floating-point rounding. */
  function Denote(e: Expr, x: string, v: real): Option<real> {
    match e
    case Const(c) => Number(c)
    case Param(n) => if n == x then Some(v) else None
    case Bin(op, l, r) => Combine(op, Denote(l, x, v), Denote(r, x, v))
    case Unary(Negate, y) => Negated(Denote(y, x, v))
    case Unary(UnaryPlus, y) => Denote(y, x, v)
    case _ => None
  }

  /** A binary operator applied to two operand values, if both exist. */
  function Combine(op: BinOp, a: Option<real>, b: Option<real>): Option<real> {
    if a.None? || b.None? then None
    else
      match op
      case Add => Some(a.value + b.value)
      case Subtract => Some(a.value - b.value)
      case Multiply => Some(a.value * b.value)
      case Divide => if b.value == 0.0 then None else Some(a.value / b.value)
      case _ => None
  }

  function Negated(a: Option<real>): Option<real> {
    if a.None? then None else Some(-a.value)
  }

  lemma DenoteSum(l: Expr, r: Expr, x: string, v: real)
    requires Denote(l, x, v).Some? && Denote(r, x, v).Some?
    ensures Denote(Bin(Add, l, r), x, v).Some?
    ensures Denote(Bin(Add, l, r), x, v).value == Denote(l, x, v).value + Denote(r, x, v).value
  {
  }

  lemma DenoteProduct(l: Expr, r: Expr, x: string, v: real)
    requires Denote(l, x, v).Some? && Denote(r, x, v).Some?
    ensures Denote(Bin(Multiply, l, r), x, v).Some?
    ensures Denote(Bin(Multiply, l, r), x, v).value == Denote(l, x, v).value * Denote(r, x, v).value
  {
  }
}
