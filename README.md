# SimplifierConsole in Dafny: the RICIS engine

SimplifierConsole rewrites expression trees that divide by zero. Such a
point is a singularity, and the engine, called RICIS, replaces it by a
node that names it:

- an indexed infinity ∞_F at x = p, whose numerator F does not vanish at p;
- a bridged node, where a 0/0 form is resolved to a finite expression;
- a monolith, which holds several singularities of one division.

This project models the engine's core as Dafny modules and proves what
each part promises. There is one module per C# file. Each module's doc
comment names the file it models.

- **Exact arithmetic.** `Rationals` models normalised big-integer
  fractions. `Divisibility` supplies the gcd facts behind them.
- **Polynomial algebra.**
  - The stateful coefficient collector is a class. Its `Visit` re-clears
    the map in every sub-traversal.
  - Exact long division is a loop proved against a step function.
  - The exact evaluator is a class whose fields are threaded through the
    walk.
  - The rational-root candidates are built by loops proved against set
    specifications.
  - The exact polynomial zero solver tests those candidates.
  - Two double-valued quadratic parsers.
- **The root-finding cascade.**
  - The trigonometric, logarithmic and exponential solvers.
  - `UniversalZeroSolver`.
  - Both `SingularitySolver` drafts.
  - The `Root` value.
- **Tree model and utilities.**
  - `Expressions` defines the tree, its CLR type, node type and text.
  - The singularity nodes of both namespaces.
  - The structural and identity comparers.
  - Substitution and the parameter finders.
- **Rewrite phases.**
  - `Pow` expansion.
  - Clean-first reduction.
  - The known-limit tables.
  - Both division classifiers.
  - The standard-identity pass.
  - The type-check pass.
  - The five-phase pipeline of `Phases/RicisPhasePipeline.cs`.
- **Sector rendering.**
  - The continued-fraction best rational approximation.
  - The sector phrases.
  - The polar reading of an infinity.
- **The value-level prototype.** `RicisType` is a signature algebra.
  `RicisEntity` is a class with a state table for `+ - * /`.

Imperative parts of the source are imperative here too: visitors that
update fields, loops and hash sets filled in place. Each of them is a
class or a method proved against a specification function. Pure parts
are functions and lemmas.

Where the code can throw, the model returns a `Result` whose error names
the .NET exception. A null reference is `Option.None`. A parameter is one
object per name, so the source's reference tests `node == param` become
name equality.

**Modelling assumptions**

- A double is modelled as a real.
  - The thresholds 1e-10, 1e-12 and `double.Epsilon` are real constants.
  - `Math.PI` is the real that the literal 3.141592653589793 denotes.
  - `Math.Sqrt` is a function the caller passes in. A lemma that needs it
    to be a square root says so in its `requires`.
- Compiling and running a substituted tree is an `Evaluator` the caller
  passes in. It reports a finite value, a non-finite value or an
  exception.
- The culture-sensitive string order of `RicisType.CreateTuple` is a
  `Comparer` the caller passes in. It is taken to be a total order.
- `HashSet` and dictionary contents are sets and maps.
  - Where the source enumerates a dictionary, the model uses ascending key
    order.
  - Where it enumerates a hash set, the model leaves the order open. It
    states only which elements the list holds, each once.

**Where the model follows the code over the design**

- `LinearExtractor.cs:31` assigns `Success = true` instead of comparing.
  So every root `+` or `−` node reports a linear form, whatever its
  operands are.
- In `SingularitySolver.cs` (global namespace), the duplicate parser's
  product cases never record the parameter. So x·x − 4 and 2·x − 6 give no
  roots. See `SingularitySolver.ProductsRecordNoParameter`.
- In `ZeroSolver/SingularitySolver.cs`, a sum or difference whose left
  operand is a quadratic with a constant term loses that constant. See
  `ZeroSingularitySolver.LeftConstantDropped`.
- `LogSolver.FindRoots` reports 1.0 for ln(x + 1), because it only asks
  whether the argument holds the parameter. See
  `LogSolver.ShiftedArgumentReportsOne`.
- `PolynomialDivider.TryDivide` never looks at the numerator's operands.
- The collector's `(long)Math.Round(db)` holds 2^63 as `long.MaxValue`, and `(double)long.MaxValue` is 2^63 again. So the constant 2^63 passes the integrality test and becomes 2^63 − 1. See `PolynomialCoefficientCollector.CastAtLongBounds`.
- The collector's Add/Subtract case restores the state saved after the
  left operand. So a sum's map is its left operand's map.
- `RationalRootTheorem` takes the leading coefficient's denominator and
  only distinct prime factors.
- The exponent test of `PowToMultiplicationVisitor` compares the truncated
  exponent with itself, so 2.5 expands as x·x.
- `TrigonometricZeroSolver` uses π as the base angle of Sin, while
  `TrigSolver` uses 0.
- Some calls have no matching declaration. The model passes the
  expression's first parameter and drops any other argument:
  - `TrigSolver.Solve(x)` with one argument, at
    `Simplifiers/ExpressionSimplifier.cs:46` and
    `ZeroSolver/TrigSingularityExtension.cs:19,31`;
  - `SolveRoot(den, param)` with two arguments, at
    `ExpressionSimplifier.cs:55`.
- The unqualified `SingularitySolver` at
  `Simplifiers/ExpressionSimplifier.cs:36` resolves to the global class.
- Two `PolynomialParser` classes exist. The global `SingularitySolver` uses
  its own copy. `ZeroSolver/SingularitySolver.cs` uses the one in
  `PolynomialParser.cs`.

## Model

| member | source | states |
|---|---|---|
| Wrappers.AsResult | ZeroSolver/PolynomialCoefficientCollector.cs:56-70 | a visit that stored an exception reports that exception, and otherwise reports the state it left |
| Expressions.ToDouble | LinearExtractor.cs:52 | `Convert.ToDouble` of a boxed constant fails exactly on a `BigInteger`, and then with an invalid-cast error |
| InfinityExpression.NewInfinity | InfinityExpression.cs:7-23 | the new node keeps numerator, variable and point, has node type Extension and the numerator's type, and prints as `∞_{numerator} при x = point` |
| InfinityExpression.NewMonolith | InfinityExpression.cs:29-44 | the namespaced monolith keeps its list, has the first singularity's type or `void`, and prints `Monolith { empty }` for an empty list and the comma-joined singularities otherwise |
| InfinityExpression.NewBridged | InfinityExpression.cs:50-66 | the namespaced bridged node keeps content, variable and point, has the content's type, and prints as `content [bridged at x=point]` |
| InfinityExpression.RenderInfsAppend | InfinityExpression.cs:43 | a monolith's text lists its singularities in list order, joined by ", " |
| InfinityExpression.SingleMonolith | InfinityExpression.cs:38-44 | a one-element monolith prints exactly its singularity inside the braces |
| BridgedExpression.NewBridged | BridgedExpression.cs:9-21 | the global bridged node keeps content, variable and point, has node type Extension and the content's type, and prints as `content [bridged at x=point]` |
| BridgedExpression.SameTextBothDeclarations | BridgedExpression.cs:20-21 | the global and the namespaced bridged classes print the same text and have the same type, but they are different nodes |
| SingularityMonolithExpression.NewMonolith | SingularityMonolithExpression.cs:7-18 | the global monolith keeps its list, has the first singularity's type or `void`, and always prints `Monolith { … }`, even when the list is empty |
| SingularityMonolithExpression.TextDiffersOnlyWhenEmpty | SingularityMonolithExpression.cs:15-18 | the global and the namespaced monolith print the same text exactly when the list is not empty |
| Text.NatText | InfinityExpression.cs:22 | a natural number prints as at least one decimal digit, and as two or more exactly when it is at least 10 |
| Text.IntText | Rational.cs:89 | an integer prints as non-empty text that starts with '-' exactly when the number is negative |
| Text.NatTextInjective | Simplifiers/ExponentialSimplifier.cs:19 | two different natural numbers never print alike |
| Text.IntTextInjective | Simplifiers/ExponentialSimplifier.cs:19 | two different integers never print alike |
| Text.DecimalText | Simplifiers/ExponentialSimplifier.cs:19 | a decimal prints as its integer when its scale is 0, and with a decimal point otherwise |
| Text.RealText | InfinityExpression.cs:22 | a double prints as its integer when it is integral, and with a decimal point otherwise |
| Text.RealTextOne | Simplifiers/ExponentialSimplifier.cs:19 | the text "1" comes from exactly one double, 1.0 |
| Text.DecimalTextOne | Simplifiers/ExponentialSimplifier.cs:19 | a decimal prints "1" exactly when it is 1 with scale 0, so 1.0m does not |
| Text.IntTextOne | Simplifiers/ExponentialSimplifier.cs:19 | an integer prints "1" exactly when it is 1 |
| SubstitutionVisitor.Substitute | SubstitutionVisitor.cs:3-8 | substitution keeps the tree's size and removes every occurrence of the parameter while keeping the others in order; its only failure is `InvalidOperation`, for a lambda whose own parameter is the one replaced |
| SubstitutionVisitor.SubstituteList | SubstitutionVisitor.cs:8 | the arguments of a call are substituted one by one: same length, same total size, and the parameter's occurrences removed |
| SubstitutionVisitor.NoLambdaSucceeds | SubstitutionVisitor.cs:8 | a tree without lambdas is always substituted, and no parameter of that name is left in it |
| SubstitutionVisitor.NoLambdaListSucceeds | SubstitutionVisitor.cs:8 | a list of lambda-free arguments is always substituted |
| ParameterFinder.TrackAppend | Simplifiers/ParameterFinder.cs:9-16 | tracking the names of two runs in a row is tracking the first run and then the second from where the first left off |
| ParameterFinder.ParameterFinder.constructor | Simplifiers/ParameterFinder.cs:7 | a new finder has no parameter recorded |
| ParameterFinder.ParameterFinder.VisitParameter | Simplifiers/ParameterFinder.cs:9-16 | meeting a parameter records it when nothing is recorded, clears a record of a different one, and keeps a record of the same one |
| ParameterFinder.ParameterFinder.Visit | Simplifiers/ParameterFinder.cs:5-16 | after a traversal the record is what tracking the tree's parameters in visit order gives |
| ParameterFinder.ParameterFinder.VisitList | Simplifiers/ParameterFinder.cs:9-16 | after visiting a list of arguments the record is what tracking their parameters in order gives |
| ParameterFinder.FindSingleParameter | Simplifiers/AlgebraicSimplifier.cs:14-16 | a fresh finder over a tree reports what tracking the tree's parameters from an empty record gives |
| ParameterFinder.SingleNameFound | Simplifiers/ParameterFinder.cs:9-16 | a tree whose parameters all have one name reports that name |
| ParameterFinder.NoParameterNoResult | Simplifiers/ParameterFinder.cs:7 | a tree without parameters reports none |
| ParameterFinder.FoundIsMet | Simplifiers/ParameterFinder.cs:9-16 | a reported name is always one of the parameters met |
| ParameterFinder.ThreeNamesReportLast | Simplifiers/ParameterFinder.cs:13-14 | a second, different parameter clears the record and a third one is recorded again, so x + y + z reports z |
| ExpressionStructuralComparer.Reflexive | ExpressionStructuralComparer.cs:6-26 | every tree built only from the node kinds the comparer lists is equal to itself |
| ExpressionStructuralComparer.ListReflexive | ExpressionStructuralComparer.cs:43-53 | every list of such trees, as a call's arguments, is equal to itself |
| ExpressionStructuralComparer.MonolithReflexive | ExpressionStructuralComparer.cs:89-97 | every list of such singularities, as a monolith's contents, is equal to itself |
| ExpressionStructuralComparer.Symmetric | ExpressionStructuralComparer.cs:6-26 | structural equality does not depend on the order of its arguments |
| ExpressionStructuralComparer.ExtensionSymmetric | ExpressionStructuralComparer.cs:66-82 | the comparison of two extension nodes does not depend on their order, the same-class fallback included |
| ExpressionStructuralComparer.ListSymmetric | ExpressionStructuralComparer.cs:43-53 | the argument-by-argument comparison of calls does not depend on their order |
| ExpressionStructuralComparer.MonolithSymmetric | ExpressionStructuralComparer.cs:89-97 | the element-by-element comparison of monoliths does not depend on their order |
| ExpressionStructuralComparer.EqualSameKind | ExpressionStructuralComparer.cs:10-11 | equal trees have the same node type and the same CLR type |
| ExpressionStructuralComparer.ScopedMonolithsAlwaysEqual | ExpressionStructuralComparer.cs:73-81 | two namespaced monoliths of the same type fall to the same-class fallback and are equal whatever they hold, while two global ones with different points are not |
| ExpressionIdentityComparer.ApplySelfIdentity | ExpressionIdentityComparer.cs:116-123 | X/X gives the double constant 1.0 exactly when numerator and denominator are self-identical (two nulls included), and null otherwise |
| ExpressionIdentityComparer.StructuralImpliesIdentical | ExpressionIdentityComparer.cs:12-104 | on trees without extension nodes, every pair the structural comparer accepts is self-identical |
| ExpressionIdentityComparer.ListImpliesIdentical | ExpressionIdentityComparer.cs:82-94 | on such trees, argument lists the structural comparer accepts are identical one by one |
| ExpressionIdentityComparer.PowerNodesDiffer | ExpressionIdentityComparer.cs:28-36 | a power node is self-identical to a copy of itself, although the structural comparer rejects the pair |
| ExpressionComparable.GetHashCode | ExpressionComparable.cs:34-35 | the hash is taken from the wrapped tree's text, and is the hash of null (0) exactly for a null tree |
| ExpressionComparable.OperatorsAgree | ExpressionComparable.cs:22-32 | `!=` is the negation of `==`, `Equals` on a wrapper agrees with `==`, and `Equals` on any other object is false |
| ExpressionComparable.EqualButHashDiffers | ExpressionComparable.cs:22-35 | two namespaced bridged nodes over x and over y are equal under `==`, but their texts, and so the inputs of their hashes, differ |
| ExpressionComparable.CorrectedHashAgreesWithEquality | ExpressionComparable.cs:34-35 | with the corrected hash, wrappers that are equal under `==` always hash alike |
| PolynomialCoefficientCollector.AddTo | ZeroSolver/PolynomialCoefficientCollector.cs:165-176 | adding a coefficient never leaves a zero entry in the map, and the degree's value grows by exactly the coefficient |
| PolynomialCoefficientCollector.AddToValue | ZeroSolver/PolynomialCoefficientCollector.cs:165-176 | adding at one degree changes that degree's value by the coefficient and leaves every other degree as it was |
| PolynomialCoefficientCollector.ConvertConstant | ZeroSolver/PolynomialCoefficientCollector.cs:178-204 | null throws `ArgumentNullException` and float throws `ArgumentException`, and nothing else throws; a double keeps the polynomial flag exactly when `(long)Math.Round` gives it back unchanged (integral, at least −2^63 and at most 2^63, not 2^63 − 1), and then converts to the saturated `long`; any other double clears the flag and gives zero |
| PolynomialCoefficientCollector.RoundHalfEven | ZeroSolver/PolynomialCoefficientCollector.cs:183 | `Math.Round` gives an integer within 1/2, the integer itself for an integral double, and the even one of two equally near |
| PolynomialCoefficientCollector.CastAtLongBounds | ZeroSolver/PolynomialCoefficientCollector.cs:183-191 | 1e20 clears the polynomial flag and gives zero, while 2^63 is accepted as `long.MaxValue` |
| Expressions.SaturatedLong | ExactEvaluator.cs:86 | the `(long)` cast of an integral double lies in the `long` range and is the number itself exactly when it is in range |
| PolynomialCoefficientCollector.MultiplySteps | ZeroSolver/PolynomialCoefficientCollector.cs:101-138 | a product is collected as the left operand, then the right operand from a fresh polynomial state, and then the product of the two maps; either side failing or not being a polynomial ends it early |
| PolynomialCoefficientCollector.Get | ZeroSolver/PolynomialCoefficientCollector.cs:169 | reading a degree gives its value, with an absent degree reading as zero |
| PolynomialCoefficientCollector.RowValue | ZeroSolver/PolynomialCoefficientCollector.cs:128-133 | one pass of the inner loop adds av · right[b] at degree a + b for every right entry, and never leaves a zero entry |
| PolynomialCoefficientCollector.RowsValue | ZeroSolver/PolynomialCoefficientCollector.cs:127-133 | the two nested loops add left[a] · right[b] at degree a + b for every pair of entries |
| PolynomialCoefficientCollector.ConvolveMeaning | ZeroSolver/PolynomialCoefficientCollector.cs:125-133 | the product map stores no zero, and its coefficient of degree k is the sum of left[a] · right[b] over the pairs with a + b == k |
| PolynomialCoefficientCollector.MonomialProduct | ZeroSolver/PolynomialCoefficientCollector.cs:127-133 | one term times one term: the degrees add and the coefficients multiply |
| PolynomialCoefficientCollector.VisitKeepsNoZero | ZeroSolver/PolynomialCoefficientCollector.cs:165-176 | a traversal never leaves a zero coefficient in the map |
| PolynomialCoefficientCollector.DispatchKeepsNoZero | ZeroSolver/PolynomialCoefficientCollector.cs:31-159 | each node visit keeps the map free of zero coefficients |
| PolynomialCoefficientCollector.VisitForgetsPreviousMap | ZeroSolver/PolynomialCoefficientCollector.cs:20-29 | the outcome of `Visit` does not depend on the map or flag a previous traversal left, because every traversal starts afresh |
| PolynomialCoefficientCollector.NotPolynomialEmpty | ZeroSolver/PolynomialCoefficientCollector.cs:27-28 | a non-polynomial outcome always comes with an empty map |
| PolynomialCoefficientCollector.Leaves | ZeroSolver/PolynomialCoefficientCollector.cs:31-61 | the bare target parameter collects as degree 1 with coefficient 1, and a non-zero integer constant as degree 0 with its own value |
| PolynomialCoefficientCollector.NotPolynomialShapes | ZeroSolver/PolynomialCoefficientCollector.cs:40-44 | method calls, other parameters, unary operators other than minus, binaries other than +, − and *, and non-integral doubles are not polynomial, and leave an empty map |
| PolynomialCoefficientCollector.ConstantsThatThrow | ZeroSolver/PolynomialCoefficientCollector.cs:201-202 | a null constant throws `ArgumentNullException` and a float constant throws `ArgumentException` |
| PolynomialCoefficientCollector.SumKeepsLeftMap | ZeroSolver/PolynomialCoefficientCollector.cs:69-86 | a sum or difference ends with the map of its left operand alone, because the state saved after the left operand is restored after the right one |
| PolynomialCoefficientCollector.SumExamples | ZeroSolver/PolynomialCoefficientCollector.cs:69-86 | so x + 1 collects as x alone, and sin(x) + 1 is reported as a polynomial with an empty map |
| PolynomialCoefficientCollector.XAlone | ZeroSolver/PolynomialCoefficientCollector.cs:33-38 | the target parameter visited from the initial state records power 1 and the map {1: 1} |
| PolynomialCoefficientCollector.OneAlone | ZeroSolver/PolynomialCoefficientCollector.cs:53-55 | the constant 1.0 with no pending power records {0: 1} |
| PolynomialCoefficientCollector.ProductIsConvolution | ZeroSolver/PolynomialCoefficientCollector.cs:101-138 | a polynomial product stores the product of its operands' maps and resets power and multiplier |
| PolynomialCoefficientCollector.SquareExample | ZeroSolver/PolynomialCoefficientCollector.cs:101-138 | x * x collects as {2: 1} |
| PolynomialCoefficientCollector.Collector.constructor | ZeroSolver/PolynomialCoefficientCollector.cs:8-18 | a new collector has power −1, multiplier 1, the polynomial flag set and an empty map |
| PolynomialCoefficientCollector.Collector.Visit | ZeroSolver/PolynomialCoefficientCollector.cs:20-29 | the public `Visit` throws exactly when the traversal specification throws, with the same exception, and otherwise leaves the state that specification gives |
| PolynomialCoefficientCollector.Collector.BaseVisit | ZeroSolver/PolynomialCoefficientCollector.cs:31-159 | dispatch on the node kind leaves the state the node's step specification gives, or throws what it throws |
| PolynomialCoefficientCollector.Collector.VisitParameter | ZeroSolver/PolynomialCoefficientCollector.cs:31-47 | the target parameter adds the multiplier at the current power, or at 1 if no power is pending; another parameter clears the polynomial flag |
| PolynomialCoefficientCollector.Collector.VisitConstant | ZeroSolver/PolynomialCoefficientCollector.cs:49-61 | a constant adds its value at degree 0, or multiplier × value at the pending power, and throws what the conversion throws |
| PolynomialCoefficientCollector.Collector.VisitBinary | ZeroSolver/PolynomialCoefficientCollector.cs:63-99 | a binary node leaves the state of its specification: nothing after a cleared flag, left-then-right for + and −, the product for *, and a cleared flag otherwise |
| PolynomialCoefficientCollector.Collector.VisitMultiply | ZeroSolver/PolynomialCoefficientCollector.cs:101-138 | a product leaves the state, or throws the exception, that the product specification gives |
| PolynomialCoefficientCollector.Collector.VisitRightFactor | ZeroSolver/PolynomialCoefficientCollector.cs:118-137 | the second half of a product collects the right operand and, when it is a polynomial, stores the product of the two maps and resets power and multiplier |
| PolynomialCoefficientCollector.Collector.StoreProduct | ZeroSolver/PolynomialCoefficientCollector.cs:125-133 | the nested loops leave exactly the product of the two maps, and change nothing else |
| PolynomialCoefficientCollector.Collector.AddRow | ZeroSolver/PolynomialCoefficientCollector.cs:128-133 | the inner loop adds one left entry times every right entry, and changes nothing else |
| PolynomialCoefficientCollector.Collector.VisitUnary | ZeroSolver/PolynomialCoefficientCollector.cs:140-152 | negation visits its operand with the multiplier negated and then restores it; any other unary node clears the polynomial flag |
| PolynomialCoefficientCollector.Collector.AddToCoefficients | ZeroSolver/PolynomialCoefficientCollector.cs:165-176 | the map becomes the old map with the coefficient added at the given power, and nothing else changes |
| PolynomialCoefficientCollector.Collector.ConvertConstantToRational | ZeroSolver/PolynomialCoefficientCollector.cs:178-204 | the conversion returns the converted value, clears the flag exactly for a double that the `long` round trip changes (non-integral or beyond the `long` range), and throws what the conversion specification throws |
| PolynomialCoefficientCollector.Collector.SaveState | ZeroSolver/PolynomialCoefficientCollector.cs:206-209 | the saved state is the current power, multiplier and a copy of the map |
| PolynomialCoefficientCollector.Collector.RestoreState | ZeroSolver/PolynomialCoefficientCollector.cs:211-218 | restoring puts back power, multiplier and map, and leaves the polynomial flag alone |
| PolynomialLongDivision.SubtractAt | PolynomialLongDivision.cs:57-71 | subtracting at one degree lowers that degree's value by the amount, adds no degree but that one, and removes an existing entry that becomes zero |
| PolynomialLongDivision.SubtractAtElsewhere | PolynomialLongDivision.cs:57-71 | subtracting at one degree leaves every other degree, and whether it is present, unchanged |
| PolynomialLongDivision.SubtractTermsValue | PolynomialLongDivision.cs:55-72 | the inner loop lowers each degree k by the sum of the products it subtracts at k |
| PolynomialLongDivision.MatchingSingle | PolynomialLongDivision.cs:55-58 | over distinct divisor degrees only b == k − termDegree subtracts at degree k |
| PolynomialLongDivision.SubtractMultipleValue | PolynomialLongDivision.cs:54-72 | after one pass the remainder's degree k is lowered by termCoeff · divisor[k − termDegree] |
| PolynomialLongDivision.SubtractTermsBounded | PolynomialLongDivision.cs:55-72 | the inner loop adds no entry above a bound that the remainder and every shifted divisor degree respect |
| PolynomialLongDivision.SubtractTermsCancels | PolynomialLongDivision.cs:55-72 | once the first subtraction removes the top degree and no later one touches it, the pass leaves no entry there |
| PolynomialLongDivision.LeadCancels | PolynomialLongDivision.cs:49-58 | the term coefficient leadingDividend / leadingDivisor exists and makes the leading entry cancel exactly |
| PolynomialLongDivision.StepLowersTop | PolynomialLongDivision.cs:44-72 | one iteration cancels the remainder's top degree, so everything left lies strictly below it |
| PolynomialLongDivision.MultipleBelow | PolynomialLongDivision.cs:55-72 | the shifted divisor reaches the top degree only through its leading degree, so once that entry cancels the remainder lies strictly below the top |
| PolynomialLongDivision.MeasureDrops | PolynomialLongDivision.cs:44-72 | every iteration lowers the remainder's measure, so the loop terminates |
| PolynomialLongDivision.LongDivideStep | PolynomialLongDivision.cs:44-72 | one turn of the loop records the term in the quotient and subtracts term × divisor from the remainder |
| PolynomialLongDivision.ProductAddLeast | PolynomialLongDivision.cs:52 | a new quotient term below every earlier one adds its product with the divisor to each degree of quotient × divisor |
| PolynomialLongDivision.StepKeepsSplit | PolynomialLongDivision.cs:44-72 | one turn keeps dividend = remainder + quotient × divisor, degree by degree |
| PolynomialLongDivision.StepKeepsInv | PolynomialLongDivision.cs:44-72 | a turn that adds a term below every quotient degree, and leaves the remainder below it, keeps the loop invariant |
| PolynomialLongDivision.ZeroRemainder | PolynomialLongDivision.cs:75-79 | a remainder whose entries are all zero turns the split into dividend = quotient × divisor |
| PolynomialLongDivision.LongDivideStops | PolynomialLongDivision.cs:44-79 | when the loop stops, a returned quotient is the one built so far and the remainder holds only zeros |
| PolynomialLongDivision.InvAtExit | PolynomialLongDivision.cs:75-79 | at loop exit with a zero remainder, dividend = quotient × divisor at every degree |
| PolynomialLongDivision.NextTerm | PolynomialLongDivision.cs:46-72 | the next quotient degree is non-negative and lies below every earlier one, and the invariant survives the step |
| PolynomialLongDivision.LongDivideExact | PolynomialLongDivision.cs:35-80 | whatever the division returns is an exact quotient: dividend = quotient × divisor, with non-negative degrees |
| PolynomialLongDivision.DivideStart | PolynomialLongDivision.cs:41-42 | division that starts from the dividend and an empty quotient returns only exact quotients |
| PolynomialLongDivision.Divide | PolynomialLongDivision.cs:35-80 | the loop returns what the division specification returns: null for a non-zero remainder, and otherwise an exact quotient |
| PolynomialLongDivision.SubtractTermDivisor | PolynomialLongDivision.cs:55-72 | the inner `foreach`, over the divisor's degrees from the highest down, subtracts termCoeff · x^termDegree · divisor |
| PolynomialLongDivision.ConstantFromRational | PolynomialLongDivision.cs:122-126 | the constant is a double that stands for the rational's value at every point |
| PolynomialLongDivision.PowerChainDenotes | PolynomialLongDivision.cs:111-112 | the chain x * x * … of length n stands for vⁿ |
| PolynomialLongDivision.PowerChainOccurrences | PolynomialLongDivision.cs:111-112 | the chain holds exactly n copies of the parameter, or one copy if n < 1 |
| PolynomialLongDivision.TermDenotes | PolynomialLongDivision.cs:99-114 | the term of degree d stands for coefficient · vᵈ |
| PolynomialLongDivision.JoinedStep | PolynomialLongDivision.cs:116 | adding the term of degree d to the sum built so far adds its monomial to the value |
| PolynomialLongDivision.JoinedDenotes | PolynomialLongDivision.cs:87-117 | the sum built over a list of degrees stands for the polynomial restricted to them, and nothing is built only when that value is zero |
| PolynomialLongDivision.SkipZero | PolynomialLongDivision.cs:97 | a zero coefficient adds neither a term nor a value |
| PolynomialLongDivision.BuildDenotes | PolynomialLongDivision.cs:82-120 | the built tree stands for the quotient polynomial at every point |
| PolynomialLongDivision.JoinedSummands | PolynomialLongDivision.cs:90-117 | the built sum is the left-nested addition of exactly the terms of the non-zero coefficients, from the highest degree down |
| PolynomialLongDivision.AllZeroBuildsZero | PolynomialLongDivision.cs:85-119 | a map without a non-zero coefficient builds nothing, so the constant 0.0 is returned |
| PolynomialLongDivision.BuildExpressionFromCoefficients | PolynomialLongDivision.cs:82-120 | the two loops build the tree the build specification describes |
| PolynomialLongDivision.TryDivideExact | PolynomialLongDivision.cs:7-33 | a tree returned by `TryDivide` spells out an exact quotient of the two collected coefficient maps |
| PolynomialLongDivision.TryDivideNull | PolynomialLongDivision.cs:11-23 | a non-polynomial numerator or denominator, or an empty divisor map, gives null; a throwing numerator throws |
| PolynomialLongDivision.TryDivide | PolynomialLongDivision.cs:7-33 | `TryDivide` on two fresh collectors throws exactly when its specification throws, and otherwise returns the tree or null that it gives |
| PolynomialLongDivision.DivideCollected | PolynomialLongDivision.cs:18-32 | from the collected maps on, the result is the division of the maps followed by the build |
| ExactEvaluator.ConstantValue | ExactEvaluator.cs:76-90 | a constant evaluates exactly unless it is a float, null or a non-integral double; an integral double evaluates to its saturated `(long)` cast, which is the number it stands for inside the `long` range |
| ExactEvaluator.Arith | ExactEvaluator.cs:123-140 | addition, subtraction and multiplication always succeed, and division fails exactly when the divisor is zero |
| ExactEvaluator.AtZero | ExactEvaluator.cs:150-165 | a math call succeeds only at an argument of zero and only for Sin, Tan (giving 0) and Cos (giving 1) |
| ExactEvaluator.EvalSound | ExactEvaluator.cs:44-166 | an exact evaluation of a call-free tree whose double constants lie in the `long` range agrees with the tree's real value at the same point |
| ExactEvaluator.LargeDoubleSaturates | ExactEvaluator.cs:84-86 | the constant 1e20 evaluates to `long.MaxValue`, a different number, so the agreement needs the `long` range |
| ExactEvaluator.BinSound | ExactEvaluator.cs:114-141 | a binary node's exact value agrees with its real value once its operands' values do |
| ExactEvaluator.ArithMeaning | ExactEvaluator.cs:123-140 | exact rational arithmetic agrees with the real operation on the operands' values |
| ExactEvaluator.NegSound | ExactEvaluator.cs:98-112 | negation's exact value agrees with its real value once its operand's value does |
| ExactEvaluator.EvalParameter | ExactEvaluator.cs:92-96 | a parameter evaluates exactly when it is the named one, and then to the given value |
| ExactEvaluator.EvalNegate | ExactEvaluator.cs:98-112 | unary minus evaluates exactly when its operand does, to the operand's negation |
| ExactEvaluator.DivisionByZeroFails | ExactEvaluator.cs:134-135 | a division whose divisor evaluates to zero fails instead of throwing |
| ExactEvaluator.EvalCall | ExactEvaluator.cs:143-166 | a call evaluates only if it is a one-argument `Math` call whose argument is zero, and then Sin and Tan give 0 and Cos gives 1 |
| ExactEvaluator.OtherNodesFail | ExactEvaluator.cs:70-72 | lambdas, extension nodes, unary nodes other than minus, modulo and power fail |
| ExactEvaluator.EvalVisitor.constructor | ExactEvaluator.cs:30-34 | a new visitor keeps the parameter's name and value |
| ExactEvaluator.EvalVisitor.TryEvaluate | ExactEvaluator.cs:36-42 | the visitor's own `TryEvaluate` returns the success flag and the value, or zero, that the evaluation specification gives |
| ExactEvaluator.EvalVisitor.Visit | ExactEvaluator.cs:44-74 | a visit does nothing once the flag is cleared, and otherwise keeps the flag exactly when the tree evaluates, leaving its value |
| ExactEvaluator.EvalVisitor.VisitConstant | ExactEvaluator.cs:76-90 | a constant keeps the flag exactly when it evaluates, leaving its value, an integral double cast to `long` with saturation |
| ExactEvaluator.EvalVisitor.VisitParameter | ExactEvaluator.cs:92-96 | a parameter keeps the flag exactly when it is the named one, leaving the given value |
| ExactEvaluator.EvalVisitor.VisitUnary | ExactEvaluator.cs:98-112 | negation keeps the flag exactly when it evaluates, leaving 0 − operand |
| ExactEvaluator.EvalVisitor.VisitBinary | ExactEvaluator.cs:114-141 | a binary node keeps the flag exactly when both operands and the operation evaluate, leaving the result |
| ExactEvaluator.EvalVisitor.VisitCall | ExactEvaluator.cs:143-166 | a call keeps the flag exactly when it evaluates, leaving 0 or 1 |
| ExactEvaluator.TryEvaluate | ExactEvaluator.cs:16-21 | the static `TryEvaluate` succeeds exactly when the tree evaluates, returns its value, and returns zero on failure |
| Roots.FromRational | Root.cs:14-19 | an exact root keeps its parameter and its rational, and its double is the rational's value |
| Roots.FromDouble | Root.cs:21-26 | an approximate root keeps its parameter and double and carries no rational |
| Roots.EqualsMeansSameKey | Root.cs:28-32 | two roots are equal exactly when parameter and double agree |
| Roots.RationalPartIgnored | Root.cs:28-32 | an exact root is equal to the approximate root with the same double, though they are different values |
| Roots.RationalRootsEqual | Root.cs:14-32 | two exact roots of one parameter are equal exactly when their rationals are |
| Roots.EqualRootsHashAlike | Root.cs:34-37 | equal roots hash alike, whatever the combining function is |
| Roots.ToString | Root.cs:39-44 | the text is "x = p/q" for an exact root and "x ≈ v" otherwise |
| Divisibility.GcdPositive | Rational.cs:29 | the gcd of two numbers that are not both zero is positive |
| Divisibility.Bezout | Rational.cs:29 | the gcd is an integer combination of its arguments |
| Divisibility.GcdDivides | Rational.cs:29 | the gcd divides both arguments |
| Divisibility.CommonDivisorDividesGcd | Rational.cs:29 | every common divisor of the arguments divides the gcd |
| Divisibility.CoprimeDividesFactor | Rational.cs:29-31 | a divisor of a · c that shares no factor with a divides c |
| Divisibility.ReducedCoprime | Rational.cs:29-31 | dividing both arguments by their gcd leaves coprime numbers |
| Rationals.Normalize | Rational.cs:20-32 | for a non-zero denominator, the constructed fraction has the value n/d, and zero becomes 0/1 |
| Rationals.New | Rational.cs:20-32 | the constructor throws `DivideByZeroException` exactly for a zero denominator, and otherwise has the value n/d |
| Rationals.FromInt | Rational.cs:34-43 | an integer becomes the fraction n/1 |
| Rationals.Unique | Rational.cs:20-32 | lowest terms are unique: two normal fractions of equal value are the same fraction |
| Rationals.NormalizeValue | Rational.cs:20-64 | the constructed fraction's value is n/d |
| Rationals.Neg | Rational.cs:12-18 | unary minus changes only the numerator's sign, and negates the value |
| Rationals.NegatedNormal | Rational.cs:17 | a fraction in lowest terms stays in lowest terms when negated |
| Rationals.Add | Rational.cs:66-69 | the sum's value is the sum of the values |
| Rationals.Sub | Rational.cs:71-74 | the difference's value is the difference of the values |
| Rationals.Mul | Rational.cs:76-79 | the product's value is the product of the values |
| Rationals.Div | Rational.cs:81-85 | division throws `DivideByZeroException` exactly for a zero divisor, and otherwise quotient × divisor is the dividend |
| Rationals.SubIsAddNeg | Rational.cs:66-74 | a − b is the same fraction as a + (−b) |
| Rationals.ValueDeterminesRat | Rational.cs:20-32 | a constructed rational is determined by the number it stands for |
| Rationals.ZeroIsCanonical | Rational.cs:6-38 | zero has the single representation 0/1 |
| Rationals.FromDecimal | Rational.cs:45-59 | a decimal becomes the fraction mantissa / 10^scale |
| Rationals.EqualsAgreesWithEq | Rational.cs:92-114 | on constructed values the cross-multiplied `==` and the componentwise `Equals` agree |
| Rationals.ComparisonsMatchValues | Rational.cs:106-135 | `==`, `<`, `<=`, `>` and `>=` order rationals by the numbers they stand for |
| Rationals.Floor | Rational.cs:98-104 | the floor is an integer f with f ≤ r < f + 1 |
| Rationals.ToString | Rational.cs:87-90 | an integer prints as its numerator alone, and any other fraction prints as numerator, '/', denominator |
| Ordering.Ascending | ZeroSolver/PolynomialCoefficientCollector.cs:127-128 | the enumeration order of a dictionary's keys: every key exactly once, in strictly increasing order |
| Ordering.Maximum | PolynomialLongDivision.cs:25 | the first key of a descending sorted dictionary is its greatest key |
| Ordering.Descending | PolynomialLongDivision.cs:18-21 | the keys of a descending sorted dictionary, of the set's size and starting with the greatest key |
| Ordering.DescendingSorted | PolynomialLongDivision.cs:90 | the descending order lists exactly the set's keys, each greater than the ones after it |
| Ordering.DescendingMembers | PolynomialLongDivision.cs:90 | the descending order lists exactly the set's keys |
| Ordering.DescendingDistinct | PolynomialLongDivision.cs:90 | the descending order repeats no key |
| Ordering.DescendingAddLeast | PolynomialLongDivision.cs:52-90 | adding a key below every other key appends it at the end of the descending order |
| Ordering.MaximumUnique | PolynomialLongDivision.cs:25 | a key that is at least every other key is the maximum |
| RationalRootTheorem.Factors | RationalRootTheorem.cs:25-41 | `Factorize` returns positive numbers only |
| RationalRootTheorem.PrimeDivisorsBelowFacts | RationalRootTheorem.cs:30-37 | trial division up to k finds, in increasing order, exactly the primes below k that divide n |
| RationalRootTheorem.FactorsFacts | RationalRootTheorem.cs:25-41 | `Factorize` yields 1 followed by strictly increasing primes, each a factor of \|n\|, and for n ≠ 0 every prime factor of \|n\| is among them |
| RationalRootTheorem.FactorsTrivial | RationalRootTheorem.cs:25-41 | only 0, 1 and −1 factorize to the bare [1] |
| RationalRootTheorem.NextCandidate | RationalRootTheorem.cs:30-32 | while i · i ≤ n, i divides what is left of n exactly when it is a prime factor of the original number |
| RationalRootTheorem.DivideOut | RationalRootTheorem.cs:35 | one step of dividing i out keeps the loop's invariant and makes n smaller |
| RationalRootTheorem.NextDivisor | RationalRootTheorem.cs:30-37 | with i divided out completely, trial division moves on to i + 1, having recorded i exactly when it is a prime factor |
| RationalRootTheorem.LastFactorPrime | RationalRootTheorem.cs:30-38 | once i · i exceeds what is left of n, and it is above 1, that rest is a prime not below i |
| RationalRootTheorem.Tail | RationalRootTheorem.cs:38 | above the last trial divisor the only prime factor left is what remains of n |
| RationalRootTheorem.LastFactor | RationalRootTheorem.cs:38-40 | when trial division stops, the cofactor left over, if above 1, is the last prime factor |
| RationalRootTheorem.Factorize | RationalRootTheorem.cs:25-41 | the trial-division loop returns exactly 1 followed by the distinct prime factors of \|n\| |
| RationalRootTheorem.RowMembers | RationalRootTheorem.cs:16-20 | the inner loop adds exactly the pairs ±p/q for its q's |
| RationalRootTheorem.GridSound | RationalRootTheorem.cs:15-20 | every member of the candidate set is some ±p/q |
| RationalRootTheorem.GridComplete | RationalRootTheorem.cs:15-20 | every ±p/q is in the candidate set |
| RationalRootTheorem.GridMembers | RationalRootTheorem.cs:13-20 | the candidate set holds exactly the ±p/q for p among the numerator's factors and q among the denominator's |
| RationalRootTheorem.NegateNormalize | RationalRootTheorem.cs:18-19 | `new Rational(−p, q)` is the negation of `new Rational(p, q)` |
| RationalRootTheorem.PairFacts | RationalRootTheorem.cs:18-19 | both members of a pair are non-zero when p is, and each is the other's negation |
| RationalRootTheorem.FormedFacts | RationalRootTheorem.cs:15-20 | with positive factors no candidate is zero, and the negation of a candidate is a candidate |
| RationalRootTheorem.SmallestUnique | RationalRootTheorem.cs:22 | with an injective sort key the smallest element is unique |
| RationalRootTheorem.Smallest | RationalRootTheorem.cs:22 | the first element `OrderBy` yields is a member whose key is least |
| RationalRootTheorem.SortedBy | RationalRootTheorem.cs:22 | ordering a set by an injective key lists every member once in ascending order of the key, whatever order the set is enumerated in |
| RationalRootTheorem.AscendingDistinct | RationalRootTheorem.cs:22 | strictly ascending keys leave no room for duplicates |
| RationalRootTheorem.ValueInjective | RationalRootTheorem.cs:22 | ordering by `ToDouble` is ordering by an injective key, since a rational is determined by its value |
| RationalRootTheorem.CandidatesAreFormed | RationalRootTheorem.cs:5-23 | with a constant term present, the candidates are exactly ±p/q with p a factor of the constant's numerator and q a factor of the leading coefficient's denominator |
| RationalRootTheorem.CandidatesAscending | RationalRootTheorem.cs:22 | the candidate list is sorted ascending by value and has no duplicates |
| RationalRootTheorem.CandidatesSymmetric | RationalRootTheorem.cs:15-20 | no candidate is zero and the list is closed under negation |
| RationalRootTheorem.OnlyUnits | RationalRootTheorem.cs:15-20 | over p = q = 1 the only candidates are 1 and −1 |
| RationalRootTheorem.MissesRootOneHalf | RationalRootTheorem.cs:8-11 | the leading coefficient's denominator, not its numerator, bounds the candidates, so the root 1/2 of 2x − 1 is never proposed |
| RationalRootTheorem.MissesRootFour | RationalRootTheorem.cs:28-38 | only distinct primes are proposed as numerators, so the root 4 of x − 4 is never proposed |
| RationalRootTheorem.RowStep | RationalRootTheorem.cs:16-20 | one pass of the inner loop adds the pair for the next q |
| RationalRootTheorem.GridStep | RationalRootTheorem.cs:15-20 | one pass of the outer loop adds the row for the next p |
| RationalRootTheorem.GetPossibleRoots | RationalRootTheorem.cs:5-23 | the nested loops and the ordering return the candidate list of the specification, and throw `KeyNotFoundException` when there is no constant term |
| PolynomialZeroSolver.ConfirmSound | ZeroSolver/PolynomialZeroSolver.cs:24-26 | every collected root is the exact root of `param` at a candidate where the tree evaluates exactly to zero |
| PolynomialZeroSolver.ConfirmComplete | ZeroSolver/PolynomialZeroSolver.cs:24-26 | every candidate where the tree evaluates exactly to zero is collected |
| PolynomialZeroSolver.ConfirmAscending | ZeroSolver/PolynomialZeroSolver.cs:24-26 | candidates in ascending order give roots in ascending order |
| PolynomialZeroSolver.ConfirmedIsZero | ZeroSolver/PolynomialZeroSolver.cs:25 | a confirmed candidate evaluates exactly to zero, and a call-free tree whose double constants lie in the `long` range stands for 0 at that point |
| PolynomialZeroSolver.ResultShape | ZeroSolver/PolynomialZeroSolver.cs:9-28 | a non-empty result is the confirmed candidates of a polynomial map that has a constant term |
| PolynomialZeroSolver.RootsAreZeros | ZeroSolver/PolynomialZeroSolver.cs:7-29 | every reported root belongs to `param`, carries its exact rational and is an exact zero of the tree, and a real zero of it when the tree is call-free with its double constants in the `long` range |
| PolynomialZeroSolver.ConfirmMembers | ZeroSolver/PolynomialZeroSolver.cs:24-26 | an exact root of `param` is collected exactly when its rational is a confirmed candidate |
| PolynomialZeroSolver.RootsAreConfirmedCandidates | ZeroSolver/PolynomialZeroSolver.cs:20-28 | the roots are exactly the confirmed rational-root candidates, and nothing outside the candidate list is reported |
| PolynomialZeroSolver.RootsAscending | ZeroSolver/PolynomialZeroSolver.cs:20-28 | roots come in strictly ascending order of value, so no two of them are equal as roots |
| PolynomialZeroSolver.NoRootsWithoutDegree | ZeroSolver/PolynomialZeroSolver.cs:12-17 | a non-polynomial, empty, all-zero or constant map gives no roots |
| PolynomialZeroSolver.NoConstantTermThrows | ZeroSolver/PolynomialZeroSolver.cs:20 | a polynomial map of positive degree without a constant term makes `GetPossibleRoots` throw `KeyNotFoundException` |
| PolynomialZeroSolver.BareParameterThrows | ZeroSolver/PolynomialZeroSolver.cs:20 | so the bare parameter x, whose root is 0, makes `FindRoots` throw |
| PolynomialZeroSolver.FindRoots | ZeroSolver/PolynomialZeroSolver.cs:7-29 | `FindRoots` throws exactly when its specification throws, with the same exception, and otherwise returns the roots it gives |
| PolynomialZeroSolver.ConfirmCandidates | ZeroSolver/PolynomialZeroSolver.cs:22-28 | the candidate loop keeps, in order, exactly the candidates where the tree evaluates exactly to zero |
| RealMath.Abs | Root.cs:31 | `Math.Abs` is non-negative and is x or −x |
| PolynomialParser.Keep | PolynomialParser.cs:30-91 | `Variable ??= p` always leaves a parameter recorded, and never replaces one already recorded |
| PolynomialParser.VariableRecorded | PolynomialParser.cs:12-94 | a parameter is recorded exactly when one occurs in the tree or one was recorded before, and a recorded one is never replaced |
| PolynomialParser.VariableRecordedBinary | PolynomialParser.cs:23-87 | the same holds for every binary node, in each of its branches |
| PolynomialParser.VariableRecordedList | PolynomialParser.cs:89-94 | the same holds for the arguments of a call, visited in order |
| PolynomialParser.NullWithoutParameter | PolynomialParser.cs:8-14 | `ParseQuadratic` returns null exactly for a tree without parameters |
| PolynomialParser.SumDenotation | PolynomialParser.cs:65-84 | a sum or difference stands for the sum or difference of its operands' values |
| PolynomialParser.SquareDenotes | PolynomialParser.cs:27-33 | x * x stands for v², which is what A += 1 records |
| PolynomialParser.ShiftedDenotes | PolynomialParser.cs:35-62 | x * (x + 1) and (x + 1) * x stand for v² + v, which is what A += 1 and B += 1 record |
| PolynomialParser.ProductDenotes | PolynomialParser.cs:25-63 | each of the three recognised products stands for the quadratic its coefficients describe |
| PolynomialParser.SumDenotes | PolynomialParser.cs:65-84 | a sum or difference of recognised shapes stands for the quadratic of the summed or subtracted coefficients |
| PolynomialParser.ShapeDenotes | PolynomialParser.cs:23-99 | a tree made of the recognised shapes stands for a·v² + b·v + c, for its coefficients, at every point v |
| PolynomialParser.ProductWalk | PolynomialParser.cs:25-63 | the three product shapes are read in one step: x is recorded and their coefficients are added to A, B and C |
| PolynomialParser.SumWalk | PolynomialParser.cs:65-84 | a sum adds both operands' coefficients, and a difference subtracts the right operand's from the left operand's |
| PolynomialParser.ShapeWalk | PolynomialParser.cs:23-99 | on recognised shapes the parser succeeds, records x when x occurs, and adds exactly the tree's coefficients to A, B and C |
| PolynomialParser.ParsedQuadratic | PolynomialParser.cs:8-14 | on recognised shapes the parse is non-null exactly when x occurs, and the quadruple it returns has the tree's value at every point |
| PolynomialParser.LiteralReadings | PolynomialParser.cs:86-98 | other trees are read operand by operand: x + y gives b = 2, and 2 * x gives b = 1 and c = 2 |
| PolynomialParser.CoefficientsVisitor.constructor | PolynomialParser.cs:18-21 | a new visitor has no parameter recorded and zero coefficients |
| PolynomialParser.CoefficientsVisitor.Visit | PolynomialParser.cs:16-101 | a visit throws exactly when the walk specification throws, and otherwise leaves the state it gives |
| PolynomialParser.CoefficientsVisitor.VisitList | PolynomialParser.cs:16-101 | visiting a call's arguments in order leaves the state the list walk gives |
| PolynomialParser.CoefficientsVisitor.VisitParameter | PolynomialParser.cs:89-94 | a parameter records itself if nothing is recorded, and adds 1 to B |
| PolynomialParser.CoefficientsVisitor.VisitConstant | PolynomialParser.cs:96-100 | a constant adds its double value to C, and throws what `Convert.ToDouble` throws |
| PolynomialParser.CoefficientsVisitor.VisitBinary | PolynomialParser.cs:23-87 | a binary node leaves the state of the binary-walk specification |
| PolynomialParser.CoefficientsVisitor.VisitOperands | PolynomialParser.cs:79-86 | a sum, and every node no other branch takes, visits the left operand and then the right one |
| PolynomialParser.CoefficientsVisitor.VisitProduct | PolynomialParser.cs:25-63 | the product branch takes x * x and the two shifted shapes (or throws on their constant), and otherwise changes nothing and falls through |
| PolynomialParser.CoefficientsVisitor.VisitDifference | PolynomialParser.cs:65-78 | a difference walks the right operand from zero coefficients and subtracts the result from the saved ones |
| PolynomialParser.DifferenceWalk | PolynomialParser.cs:65-78 | a difference is the left operand's walk followed by the right operand's walk from zero coefficients, subtracted |
| PolynomialParser.SequenceWalk | PolynomialParser.cs:79-86 | any other node is the left operand's walk followed by the right operand's walk from where the left one left the fields |
| PolynomialParser.ParseQuadratic | PolynomialParser.cs:8-14 | `ParseQuadratic` throws exactly when its specification throws, and otherwise returns the quadruple or null that it gives |
| SingularitySolver.ParameterStep | SingularitySolver.cs:90-95 | the first parameter met is recorded and never replaced, and only the recorded one adds the current sign to B |
| SingularitySolver.OperandSteps | SingularitySolver.cs:124-139 | outside the product shapes both operands are walked in turn, the right one with the sign flipped under a difference, and a throw on the left stops the walk |
| SingularitySolver.CoefficientsVisitor.constructor | SingularitySolver.cs:68-76 | a new visitor has no parameter, zero coefficients and sign 1 |
| SingularitySolver.CoefficientsVisitor.Visit | SingularitySolver.cs:78-140 | a visit throws exactly when the signed walk specification throws, and otherwise leaves its state with the sign unchanged |
| SingularitySolver.CoefficientsVisitor.VisitParameter | SingularitySolver.cs:90-95 | a parameter leaves the state of the parameter step |
| SingularitySolver.CoefficientsVisitor.VisitBinary | SingularitySolver.cs:97-139 | a binary node leaves the state of the binary-walk specification and restores the sign |
| SingularitySolver.CoefficientsVisitor.VisitProduct | SingularitySolver.cs:98-121 | x * y adds the sign to A, and k * x and x * k add the sign times k to B (or throw on k), without recording a parameter |
| SingularitySolver.CoefficientsVisitor.VisitSum | SingularitySolver.cs:124-137 | a sum or difference walks the right operand with the sign flipped under a difference and restores the saved sign afterwards |
| SingularitySolver.CoefficientsVisitor.VisitOperands | SingularitySolver.cs:139 | any other node visits its operands in turn with the same sign |
| SingularitySolver.CoefficientsVisitor.VisitList | SingularitySolver.cs:139 | a call's arguments are visited in order with the same sign |
| SingularitySolver.ParseQuadratic | SingularitySolver.cs:55-66 | throws exactly when its specification does, and otherwise returns null without a parameter and the recorded parameter with A, B and C otherwise |
| SingularitySolver.SolveRoot | SingularitySolver.cs:6-49 | throws exactly when its specification does, and otherwise returns the roots the specification gives |
| SingularitySolver.AtMostTwoRoots | SingularitySolver.cs:6-49 | at most two roots are returned, all of the parsed parameter |
| SingularitySolver.LinearCase | SingularitySolver.cs:19-25 | with negligible a there is one root exactly when b is not negligible, and it is the zero of b·x + c |
| SingularitySolver.QuadraticCase | SingularitySolver.cs:27-45 | otherwise there is no root exactly when the discriminant is negative, the first root is (−b + √D)/2a, and a second one (−b − √D)/2a is kept only when it differs by more than 1e-10 |
| SingularitySolver.VertexIsZero | SingularitySolver.cs:29-35 | (−b ± s)/2a is a zero of a·x² + b·x + c whenever s² is the discriminant |
| SingularitySolver.QuadraticRootsAreZeros | SingularitySolver.cs:27-45 | for a true square root every root of the quadratic case is a zero of a·x² + b·x + c |
| SingularitySolver.VariableRecorded | SingularitySolver.cs:90-95 | a parameter is recorded only if one occurs in the tree, and a recorded one is never replaced |
| SingularitySolver.VariableRecordedList | SingularitySolver.cs:139 | the same holds over a call's arguments |
| SingularitySolver.NoParameterNoRoots | SingularitySolver.cs:12-14 | a tree without parameters has no roots |
| SingularitySolver.NumericConverts | SingularitySolver.cs:85 | `Convert.ToDouble` succeeds on a numeric constant and gives the number it stands for |
| SingularitySolver.SquareDenotes | SingularitySolver.cs:103-107 | x * x stands for v², the quadratic A += 1 records |
| SingularitySolver.ScaledDenotes | SingularitySolver.cs:110-120 | k * x and x * k stand for k·v, the quadratic B += k records |
| SingularitySolver.ProductDenotes | SingularitySolver.cs:98-121 | each product shape stands for the quadratic of its coefficients |
| SingularitySolver.SumDenotes | SingularitySolver.cs:124-137 | a sum or difference of such trees stands for the quadratic of the summed or subtracted coefficients |
| SingularitySolver.SumCoefficients | SingularitySolver.cs:124-137 | the coefficients of a sum or difference are the sum or difference of its operands' coefficients |
| SingularitySolver.CoefficientsDenote | SingularitySolver.cs:78-139 | a tree of the recognised shapes stands for a·v² + b·v + c, for its coefficients, at every v |
| SingularitySolver.ScaledWalk | SingularitySolver.cs:110-120 | k * x and x * k add the sign times k to B and record nothing |
| SingularitySolver.ProductWalk | SingularitySolver.cs:98-121 | each product shape succeeds, records nothing and adds the sign times its coefficients |
| SingularitySolver.SumWalk | SingularitySolver.cs:124-137 | a sum or difference adds what its operands add, the right one with the sign flipped under a difference |
| SingularitySolver.AddedSum | SingularitySolver.cs:124-137 | adding coefficients composes over a sum or a difference |
| SingularitySolver.SignedWalk | SingularitySolver.cs:78-139 | on recognised shapes the walk succeeds, records at most x, and adds the sign times the tree's coefficients to A, B and C |
| SingularitySolver.ParsedWalk | SingularitySolver.cs:55-66 | `ParseQuadratic` is non-null exactly when the walk from nothing with sign 1 records a parameter, and then returns that parameter with A, B and C |
| SingularitySolver.StartWalkValue | SingularitySolver.cs:55-66 | the coefficients walked from nothing with sign 1 give the tree's value as a quadratic |
| SingularitySolver.SignedParsed | SingularitySolver.cs:55-66 | on recognised shapes `ParseQuadratic` succeeds, and a returned quadruple is over x and has the tree's value at every point |
| SingularitySolver.SolvedAreZeros | SingularitySolver.cs:18-45 | for exact coefficients and a true square root every returned root is a zero of a·x² + b·x + c |
| SingularitySolver.SolvedRootsAreZeros | SingularitySolver.cs:6-49 | on recognised shapes `SolveRoot` succeeds, every root is of x, and with exact coefficients the tree is 0 at every root |
| SingularitySolver.ProductsRecordNoParameter | SingularitySolver.cs:98-121 | products never record a parameter, so x*x − 4 and 2*x − 6 give no roots while x − 2 gives 2 |
| ZeroSingularitySolver.GetDouble | ZeroSolver/SingularitySolver.cs:119-127 | a constant's value converts exactly when it is a boxed double, int or float, and then to the number it holds |
| ZeroSingularitySolver.EffectiveC | ZeroSolver/SingularitySolver.cs:52-53 | the constant enters the quadratic negated under a difference and unchanged under a sum |
| ZeroSingularitySolver.RootSet.constructor | ZeroSolver/SingularitySolver.cs:11 | a new root set is empty |
| ZeroSingularitySolver.RootSet.Add | ZeroSolver/SingularitySolver.cs:24-80 | adding a pair leaves the old pairs and the new one, each once |
| ZeroSingularitySolver.TryGetDouble | ZeroSolver/SingularitySolver.cs:119-127 | true exactly for a constant holding a double, int or float, with its number; otherwise false with 0 |
| ZeroSingularitySolver.TryExtractLinear | ZeroSolver/SingularitySolver.cs:91-117 | true exactly for c * x ± k and x ± k with convertible constants, giving x, the factor and the constant term |
| ZeroSingularitySolver.AddQuadraticRoots | ZeroSolver/SingularitySolver.cs:50-72 | the quadratic branch throws exactly when parsing the left operand throws, and otherwise adds exactly the quadratic roots |
| ZeroSingularitySolver.QuadraticRootsFound | ZeroSolver/SingularitySolver.cs:52-71 | when the left operand parses with a non-negligible a, the roots are those of its quadratic with the constant term replaced by ±c |
| ZeroSingularitySolver.CollectRoots | ZeroSolver/SingularitySolver.cs:16-87 | collecting throws exactly when its specification throws, and otherwise adds exactly the tree's contributions to the set |
| ZeroSingularitySolver.ToList | ZeroSolver/SingularitySolver.cs:13 | the list holds every element of the set, each once |
| ZeroSingularitySolver.SolveRoot | ZeroSolver/SingularitySolver.cs:9-14 | the returned pairs are exactly the contributions of the denominator, each once |
| ZeroSingularitySolver.LinearRootIsZero | ZeroSolver/SingularitySolver.cs:40-47 | the linear root of c * x ± k or x ± k names x and is a zero of that sum or difference |
| ZeroSingularitySolver.QuadRootsAreZeros | ZeroSolver/SingularitySolver.cs:58-70 | each quadratic root names the parsed parameter and, for a true square root, is a zero of a·x² + b·x + c |
| ZeroSingularitySolver.QuadraticRootIsZero | ZeroSolver/SingularitySolver.cs:50-72 | when the left operand is a quadratic in x that is 0 at 0, every quadratic root is a zero of the sum or difference with the constant |
| ZeroSingularitySolver.QuadValueShift | ZeroSolver/SingularitySolver.cs:57-60 | replacing the constant term shifts the quadratic's value by the difference |
| ZeroSingularitySolver.ParsedValue | ZeroSolver/SingularitySolver.cs:55-57 | such a left operand parses to a quadratic over x with no constant term whose value is the operand's value |
| ZeroSingularitySolver.NoQuadraticRootsForLinear | ZeroSolver/SingularitySolver.cs:55-58 | c * x parses with a = 0, so a linear form gets no quadratic roots |
| ZeroSingularitySolver.ProductRootsAreZeros | ZeroSolver/SingularitySolver.cs:29-35 | the roots of either factor are zeros of the product |
| ZeroSingularitySolver.SumRootsAreZeros | ZeroSolver/SingularitySolver.cs:37-73 | on solvable sums and differences with a constant every collected pair is a zero of the sum or difference |
| ZeroSingularitySolver.CollectedRootsAreZeros | ZeroSolver/SingularitySolver.cs:16-87 | on solvable denominators collecting succeeds, every pair names x, and the denominator is 0 at every collected value |
| ZeroSingularitySolver.DefinedEverywhere | ZeroSolver/SingularitySolver.cs:16-87 | solvable denominators have a value at every point |
| ZeroSingularitySolver.LeftConstantDropped | ZeroSolver/SingularitySolver.cs:55-60 | the parsed constant term is dropped: (x·x + 1) − 5 gets a root at which it is 1, not 0 |
| ZeroSingularitySolver.DroppedRoot | ZeroSolver/SingularitySolver.cs:37-72 | the roots of (x·x + 1) − 5 are those of x² − 5 |
| ZeroSingularitySolver.DroppedParse | ZeroSolver/SingularitySolver.cs:55 | x·x + 1 parses as a = 1, b = 0, c = 1 |
| ZeroSingularitySolver.CaseTable | ZeroSolver/SingularitySolver.cs:18-86 | x * y gives (x, 0) and (y, 0), x + y gives nothing, Log(x) gives (x, 1), and a negation gives nothing |
| PolarConverter.EvaluateNumeratorExactly | PolarConverter.cs:70-89 | the numerator's value at the singular point is kept exactly when the evaluation is finite, and every NaN, infinity or exception gives null |
| PolarConverter.Directed | PolarConverter.cs:37-45 | a directed answer throws exactly when the sector count is below one, with the error `InSectors` raises |
| PolarConverter.ToPolarSector | PolarConverter.cs:16-46 | a null singularity throws; a numerator exactly 0 gives the F/G index answer, a non-finite one the limit answer, and any other the directed answer |
| PolarConverter.Classification | PolarConverter.cs:16-46 | the index answer comes exactly from a zero numerator, the limit answer exactly from a non-finite one, and a throw exactly from a non-zero numerator with fewer than one sector |
| PolarConverter.DirectedIsNeither | PolarConverter.cs:37-45 | with at least one sector a directed answer succeeds and is neither fixed answer |
| PolarConverter.Initials | PolarConverter.cs:27-33 | the two fixed answers differ right after their common head |
| PolarConverter.Answers | PolarConverter.cs:56-57 | one answer per singularity, in order, each the single-singularity answer |
| PolarConverter.Lines | PolarConverter.cs:56-58 | the monolith loop gives one line per singularity, and throws only what `InSectors` throws |
| PolarConverter.LinesInOrder | PolarConverter.cs:56-58 | the loop throws exactly when one singularity's answer throws, and otherwise line i is "[i+1] name = point: answer i" |
| PolarConverter.NumberedFail | PolarConverter.cs:56-58 | numbering fails exactly when one of the answers is an error |
| PolarConverter.NumberedLine | PolarConverter.cs:56-58 | line i of a successful numbering is the line for singularity i |
| PolarConverter.NumberedError | PolarConverter.cs:56-58 | the error that leaves the loop is one an answer raised |
| PolarConverter.Join | PolarConverter.cs:60 | joining a single line gives that line |
| PolarConverter.MonolithToPolarSector | PolarConverter.cs:51-61 | a null monolith, a null list or an empty list gives the no-singularities answer, and the only error is the sector-count one |
| PolarConverter.MonolithAnswers | PolarConverter.cs:51-61 | a non-empty monolith throws exactly when the sector count is below one and some numerator has a definite non-zero value, and otherwise gives the header followed by the joined lines in order |
| PolarConverter.TurnStartsWithNumber | PolarConverter.cs:41 | a part of a turn is written starting with a sign or a digit |
| PolarConverter.TurnOfDirection | PolarConverter.cs:37 | the direction π/2 is a quarter of a turn and 3π/2 three quarters |
| PolarConverter.QuarterFound | PolarConverter.cs:39 | with denominators up to at least 4, the best approximation of 1/4 is 1/4 exactly |
| PolarConverter.ThreeQuartersFound | PolarConverter.cs:39 | with denominators up to at least 4, the best approximation of 3/4 is 3/4 exactly |
| PolarConverter.QuartersKept | PolarConverter.cs:39 | 1/4 and 3/4 are already reduced and in [0, 1), so the sector is kept as it is |
| PolarConverter.DirectionSectors | PolarConverter.cs:37-39 | a positive numerator points a quarter turn round and a negative one three quarters, once denominators up to 4 are allowed |
| PolarConverter.DefaultAnswers | PolarConverter.cs:16-45 | with the default 8 sectors and denominator 100, a positive numerator gives "1/4 … ровно 2 секторов из 8 (сверху)" and a negative one "3/4 … ровно 6 секторов из 8 (снизу)" |
| PolarConverter.QuarterText | PolarConverter.cs:41-42 | k/4 of a turn is written as such and passes exactly 2k of 8 sectors, for k = 1 and 3 |
| PolarConverter.WholeSectors | PolarConverter.cs:42 | a turn that passes a whole number k of 8 sectors, 0 < k < 8, says "ровно k секторов из 8" |
| CircleSectors.Make | CircleSectors.cs:9-16 | the stored fraction lies in [0, 1) and is the given fraction minus its floor |
| CircleSectors.FModRange | CircleSectors.cs:23 | the remainder `%` on doubles has the sign of the dividend and a magnitude below the divisor |
| CircleSectors.Start | CircleSectors.cs:43-53 | before the loop the convergent state is consistent, the best denominator is 1 and the best error is the distance to it |
| CircleSectors.QuotientAtLeastOne | CircleSectors.cs:59-60 | for 0 < f < 1 every partial quotient is at least one |
| CircleSectors.Step | CircleSectors.cs:59-82 | an iteration that goes on keeps the convergent state consistent and strictly raises the denominator |
| CircleSectors.Run | CircleSectors.cs:55-83 | the loop keeps its state consistent, keeps the best denominator within the bound once it changes, and never raises the best error |
| CircleSectors.BestIsClosest | CircleSectors.cs:55-83 | the best error stays the distance to the best fraction, and no convergent the loop weighs is strictly closer |
| CircleSectors.Best | CircleSectors.cs:31-40 | an input of magnitude 0 gives 0 and of magnitude 1 gives 1 |
| CircleSectors.ReducedDenominator | CircleSectors.cs:85 | reducing a fraction never raises its denominator |
| CircleSectors.DenominatorBounded | CircleSectors.cs:31-87 | with a bound of at least one the result's denominator stays within it |
| CircleSectors.Symmetric | CircleSectors.cs:33-86 | a negative input gives the negated result, except −1, which the early exit answers with 1 |
| CircleSectors.RunStopped | CircleSectors.cs:55-65 | a stopped loop leaves its state as it is |
| CircleSectors.RunGoesOn | CircleSectors.cs:55-83 | a loop that goes on runs on from the state after one iteration |
| CircleSectors.StepFields | CircleSectors.cs:59-82 | one iteration takes the next convergent, keeps it as best exactly when its error is strictly smaller, and shifts the convergents |
| CircleSectors.BestRationalApproximation | CircleSectors.cs:31-87 | the loop on the source's variables returns exactly the specified best approximation |
| CircleSectors.FromRadians | CircleSectors.cs:18-29 | NaN or an infinite angle throws `ArgumentException`, and otherwise the result is a valid part of a turn |
| CircleSectors.TurnFraction | CircleSectors.cs:23-24 | the turn fraction being approximated lies in [0, 1) |
| CircleSectors.InSectors | CircleSectors.cs:89-91 | throws `ArgumentOutOfRangeException` exactly for a sector count below one |
| CircleSectors.PassedFacts | CircleSectors.cs:93-97 | φ·N lies in [0, N), its fractional part is zero exactly when it is whole, and it is zero exactly when φ is |
| CircleSectors.Integral | CircleSectors.cs:94-97 | a rational's fractional part is zero exactly when it is a whole number, which is then its own floor |
| CircleSectors.InSectorsCases | CircleSectors.cs:89-105 | with at least one sector: "0 секторов" exactly for φ = 0, "ровно k секторов из N" for a whole k > 0, φ·N itself otherwise, and never "полный круг" |
| CircleSectors.IntegerRat | CircleSectors.cs:100 | a rational with the value of an integer is that integer |
| CircleSectors.TextCases | CircleSectors.cs:107-112 | a zero fraction is "0 круга", and any other valid fraction is not whole, so it is written as "φ полного круга" |
| RicisEntities.Made | RicisEntity.cs:7-16 | the public constructor gives a typed zero exactly when the magnitude is below 1e-10 in absolute value and a finite entity otherwise, keeps magnitude and type, and defaults the symbol to the value's text |
| RicisEntities.MonolithOf | RicisEntity.cs:39-46 | a monolith has the monolith state and the composite tuple of its operands' types, and keeps a component list |
| RicisEntities.SumOf | RicisEntity.cs:50-61 | incompatible types give a monolith pair; otherwise an infinite left operand is returned, else an infinite right one, else a new entity with the summed magnitude under the left type |
| RicisEntities.DifferenceOf | RicisEntity.cs:63-75 | incompatible types throw `InvalidOperationException`; two infinities give the infinity indexed "s-t"; anything else the difference of magnitudes under the left type |
| RicisEntities.ProductOf | RicisEntity.cs:77-97 | a product has the type `Operate` gives for `*`, whatever the operands' states |
| RicisEntities.QuotientOf | RicisEntity.cs:99-117 | a quotient has the type `Operate` gives for `/`, whatever the operands' states |
| RicisEntities.ConstructorsCoherent | RicisEntity.cs:7-46 | both public factories give entities whose state agrees with their magnitude |
| RicisEntities.SumCoherent | RicisEntity.cs:50-61 | a new entity `+` builds is coherent |
| RicisEntities.DifferenceCoherent | RicisEntity.cs:63-75 | an entity `-` builds is coherent |
| RicisEntities.ProductCoherent | RicisEntity.cs:77-97 | an entity `*` builds is coherent |
| RicisEntities.QuotientCoherent | RicisEntity.cs:99-117 | an entity `/` builds is coherent |
| RicisEntities.ProductRules | RicisEntity.cs:89-96 | after A6: a typed-zero operand gives the typed zero 0 named "a*b", any other indexed-infinity operand the indexed infinity +∞ named "a*b", and otherwise the product of the magnitudes named "a*b", its state set by the public constructor |
| RicisEntities.RecoveredIdentity | RicisEntity.cs:82-87 | a typed zero times an indexed infinity, in either order, is the finite 1 named "Recovered_Identity", whatever the types |
| RicisEntities.ProductStateCommutes | RicisEntity.cs:77-97 | the state and magnitude of a product do not depend on the operands' order |
| RicisEntities.QuotientRules | RicisEntity.cs:99-117 | dividing by a typed zero gives an indexed infinity; ∞/∞ gives the finite 1 named "Index_Ratio"; finite/∞ gives a typed zero; ∞/finite gives a finite entity with an infinite magnitude |
| RicisEntities.InfinityMinusFinite | RicisEntity.cs:57-75 | ∞ − finite leaves no infinity state, only an infinite magnitude, while ∞ + finite returns the infinity itself |
| RicisEntities.RicisEntity.constructor | RicisEntity.cs:7-16 | the public constructor gives the entity `Made` describes, without a component list |
| RicisEntities.RicisEntity.CreateMonolith | RicisEntity.cs:39-46 | a new monolith whose list holds a and then b |
| RicisEntities.RicisEntity.Add | RicisEntity.cs:50-61 | `+` returns a new monolith of [a, b], a itself, b itself, or a new entity, as `SumOf` decides |
| RicisEntities.RicisEntity.Subtract | RicisEntity.cs:63-75 | `-` throws `InvalidOperationException` exactly when `DifferenceOf` does, and otherwise returns a new entity with its value |
| RicisEntities.RicisEntity.Multiply | RicisEntity.cs:77-97 | `*` returns a new entity with the value `ProductOf` gives |
| RicisEntities.RicisEntity.Divide | RicisEntity.cs:99-117 | `/` returns a new entity with the value `QuotientOf` gives |
| LinearExtractor.LinearVisitor.constructor | LinearExtractor.cs:15-19 | a new visitor targets the given parameter, with `Success` false and nothing recorded |
| LinearExtractor.LinearVisitor.Visit | LinearExtractor.cs:13-59 | a visit throws exactly when the walk specification throws, and otherwise leaves the record it gives |
| LinearExtractor.LinearVisitor.VisitBinary | LinearExtractor.cs:21-47 | a binary node leaves the record of the binary-walk specification |
| LinearExtractor.LinearVisitor.VisitSum | LinearExtractor.cs:23-34 | a sum or difference records the pair read from its two direct operands (the right one negated under a difference), without descending further |
| LinearExtractor.LinearVisitor.VisitScaled | LinearExtractor.cs:36-43 | a constant times the target parameter records (constant, 0), or throws what `Convert.ToDouble` throws after `Success` is set |
| LinearExtractor.LinearVisitor.VisitOperands | LinearExtractor.cs:46 | any other binary node walks its left operand and then its right one |
| LinearExtractor.LinearVisitor.VisitList | LinearExtractor.cs:46 | a call's arguments are walked in order |
| LinearExtractor.LinearVisitor.ExtractLinear | LinearExtractor.cs:49-58 | the target parameter adds the sign to the coefficient, a constant adds sign times its value to the constant, and anything else adds nothing |
| LinearExtractor.Extract | LinearExtractor.cs:5-11 | `Extract` throws exactly when its specification throws, and otherwise returns the record when `Success` ended true and null otherwise |
| LinearExtractor.TermMeaning | LinearExtractor.cs:49-53 | on the target parameter or a numeric constant the pair read, taken as a line, is sign times the operand's value at every v |
| LinearExtractor.RootSumSucceeds | LinearExtractor.cs:31-32 | a root sum or difference always reports success, whatever its operands are, since `Success = true` is an assignment |
| LinearExtractor.SumMeaning | LinearExtractor.cs:23-34 | on a sum or difference of the parameter and constants the pair is the line the tree denotes |
| LinearExtractor.ScaledParameter | LinearExtractor.cs:38-43 | a numeric constant times the target parameter gives (constant, 0), the line it denotes |
| LinearExtractor.NoBinaryKeepsRecord | LinearExtractor.cs:21-46 | a tree without binary nodes leaves the record as it was |
| LinearExtractor.NoBinaryKeepsRecordList | LinearExtractor.cs:46 | the same over a call's arguments |
| LinearExtractor.NoBinaryGivesNull | LinearExtractor.cs:5-11 | on a tree without binary nodes `Extract` returns null |
| LinearExtractor.LastMatchWins | LinearExtractor.cs:31-41 | the record is the last match in visit order: what a walk finds overwrites whatever was recorded before it |
| LinearExtractor.LastMatchWinsList | LinearExtractor.cs:46 | the same over a call's arguments |
| LinearExtractor.RightMatchOverwrites | LinearExtractor.cs:46 | under any other binary node a match in the right operand overwrites one in the left |
| LinearExtractor.AbsentParameterFlat | LinearExtractor.cs:51 | without the target parameter in the tree every recorded multiplier is 0 |
| LinearExtractor.AbsentParameterFlatList | LinearExtractor.cs:51 | the same over a call's arguments |
| LinearExtractor.Examples | LinearExtractor.cs:5-59 | (x + 1)/(2·x) gives (2, 0), because the product overwrites the sum; 2·x + 3 gives (0, 3); y + z gives (0, 0) |
| LogSolver.FirstLog | LogSolver.cs:68-85 | the argument the finder keeps, when there is one, is a strict part of the tree |
| LogSolver.FirstLogList | LogSolver.cs:83 | the same over a call's arguments |
| LogSolver.LogFinder.constructor | LogSolver.cs:68-70 | a new finder has found nothing |
| LogSolver.LogFinder.Visit | LogSolver.cs:72-84 | a visit keeps an argument already found, and otherwise records the argument of the first single-argument Log call in visit order |
| LogSolver.LogFinder.VisitList | LogSolver.cs:83 | the same over a call's arguments, in order |
| LogSolver.ArgumentIsOne | LogSolver.cs:51 | the equation u − 1 = 0 built for ln(u) = 0 is again a plain tree |
| LogSolver.FindRoots | LogSolver.cs:17-60 | `FindRoots` throws exactly when its specification throws, and otherwise returns the roots it gives |
| LogSolver.CopyRoots | LogSolver.cs:55 | the `foreach` copies the cascade's roots in order |
| LogSolver.LogOfParameter | LogSolver.cs:23-66 | ln(x) reports the single root x = 1, where the argument is 1, and `Solve` gives (x, 1) |
| LogSolver.ShiftedArgumentReportsOne | LogSolver.cs:34-40 | ln(x + 1) also reports x = 1, although the argument is 2 there and the logarithm is not zero |
| LogSolver.NestedLogSolvesArgument | LogSolver.cs:43-57 | past the root case the first Log argument u is solved as u − 1 = 0 by the cascade, and nothing else is added, so no two roots are equal |
| LogSolver.PolynomialArgumentRoots | LogSolver.cs:43-57 | when the polynomial solver finds roots of u − 1, those are the roots, and u − 1 is exactly 0 at each |
| LogSolver.FirstCallWins | LogSolver.cs:74-80 | the first Log call in visit order is the one solved: in ln(a) + ln(b) it is a |
| LogSolver.NoLogNoRoots | LogSolver.cs:17-60 | a tree without a Log call has no roots |
| LogSolver.NoLogNothing | LogSolver.cs:72-84 | the finder finds nothing in a tree without a Log call |
| LogSolver.NoLogNothingList | LogSolver.cs:83 | the same over a call's arguments |
| AlgebraicSimplifier.QuotientIsSum | Simplifiers/AlgebraicSimplifier.cs:50-53 | a quotient `TryDivide` returns is division-free, so visiting it again leaves it as it is |
| AlgebraicSimplifier.Reduce | Simplifiers/AlgebraicSimplifier.cs:32-81 | the reduction of a plain tree is plain |
| AlgebraicSimplifier.ReduceList | Simplifiers/AlgebraicSimplifier.cs:66-75 | a call's arguments are reduced one for one |
| AlgebraicSimplifier.DivisionFreeUnchanged | Simplifiers/AlgebraicSimplifier.cs:34-75 | a division-free tree is left exactly as it is |
| AlgebraicSimplifier.DivisionFreeUnchangedList | Simplifiers/AlgebraicSimplifier.cs:66-75 | the same over a call's arguments |
| AlgebraicSimplifier.DivisionCases | Simplifiers/AlgebraicSimplifier.cs:36-62 | a division of operands that reduce to equal trees gives 1.0; without a parameter it is rebuilt; otherwise `TryDivide`'s throw propagates, its null rebuilds the division, and its quotient replaces it |
| AlgebraicSimplifier.BottomUp | Simplifiers/AlgebraicSimplifier.cs:36-62 | other binary operators are rebuilt from their reduced operands, and a throw in the left operand propagates |
| AlgebraicSimplifier.NoSelfDivisionLeft | Simplifiers/AlgebraicSimplifier.cs:39-44 | after the reduction no division has structurally equal operands |
| AlgebraicSimplifier.NoSelfDivisionLeftList | Simplifiers/AlgebraicSimplifier.cs:66-75 | the same over a call's arguments |
| AlgebraicSimplifier.SquareOverSquare | Simplifiers/AlgebraicSimplifier.cs:9-25 | Pow(x, 2.0) / Pow(x, 2.0) cleans to 1.0: both sides expand to x * x, which compare equal |
| StandardOperationsPhase.Rule | Phases/StandardOperationsPhase.cs:27-46 | a rewritten node is one of its operands only under Multiply or Add, and only by dropping a constant one (Multiply) or zero (Add), the left one first |
| StandardOperationsPhase.ApplyList | Phases/StandardOperationsPhase.cs:14-18 | a call's arguments are each passed through the phase, one for one |
| StandardOperationsPhase.ApplyIsNormal | Phases/StandardOperationsPhase.cs:22-47 | after the pass no rule applies anywhere |
| StandardOperationsPhase.NormalUnchanged | Phases/StandardOperationsPhase.cs:43-44 | a tree in which no rule applies is returned as it is |
| StandardOperationsPhase.Idempotent | Phases/StandardOperationsPhase.cs:14-18 | a second pass changes nothing |
| StandardOperationsPhase.SingularKept | Phases/StandardOperationsPhase.cs:49-53 | every singularity node comes through unchanged and in the same order, and none is added or lost |
| StandardOperationsPhase.SingularListKept | Phases/StandardOperationsPhase.cs:49-53 | the same over a call's arguments |
| StandardOperationsPhase.Exact | Phases/StandardOperationsPhase.cs:55-67 | on trees whose doubles are exact, the constant taken for one is 1.0 and the one taken for zero is 0.0 |
| StandardOperationsPhase.RuleValue | Phases/StandardOperationsPhase.cs:27-39 | the rules keep the value of the node they rewrite |
| StandardOperationsPhase.UnitDropped | Phases/StandardOperationsPhase.cs:27-39 | dropping 1 from a product or 0 from a sum, on either side, keeps the value |
| StandardOperationsPhase.GridKept | Phases/StandardOperationsPhase.cs:22-47 | the pass keeps a tree's doubles exact |
| StandardOperationsPhase.ValueKept | Phases/StandardOperationsPhase.cs:14-47 | on such trees the pass keeps the value at every point |
| StandardOperationsPhase.OnlyAddAndMultiply | Phases/StandardOperationsPhase.cs:28-46 | every other operator is only rebuilt from its passed operands |
| StandardOperationsPhase.OnlyDoubles | Phases/StandardOperationsPhase.cs:55-67 | only a double constant is taken for one or zero: an int 1 or a decimal 1 is not, so 1 * x with an int 1 stays |
| RicisTransformPhase.EvaluateAtPoint | Simplifiers/ExpressionSimplifier.cs:86-99 | the numerator's value at the zero is 0 exactly when the evaluation gives 0; NaN and infinities come back as they are, and an exception gives 1.0 |
| RicisTransformPhase.Classify | Simplifiers/ExpressionSimplifier.cs:63-84 | the infinity sits at the candidate's parameter and point, and is indexed by the whole quotient exactly when the numerator is 0 there, by the numerator otherwise |
| RicisTransformPhase.Singularities | Simplifiers/ExpressionSimplifier.cs:38-53 | one infinity per candidate, in candidate order |
| RicisTransformPhase.ClassifyAll | Simplifiers/ExpressionSimplifier.cs:38-43 | the `foreach` over the polynomial roots appends exactly their infinities, in order |
| RicisTransformPhase.SimplifyDivision | Simplifiers/ExpressionSimplifier.cs:31-61 | the method throws exactly when its specification throws, and otherwise returns the division, the single infinity or the monolith it gives |
| RicisTransformPhase.ApplyList | Simplifiers/ExpressionSimplifier.cs:14-29 | a call's arguments are transformed one for one |
| RicisTransformPhase.PlainHasNoBridged | Simplifiers/ExpressionSimplifier.cs:14-17 | an input tree of the standard node kinds has no bridged node |
| RicisTransformPhase.DivisionNeverBridged | Simplifiers/ExpressionSimplifier.cs:55-60 | a division becomes a division, an infinity or a monolith, never a bridged node |
| RicisTransformPhase.NeverBridged | Simplifiers/ExpressionSimplifier.cs:14-29 | the phase never produces a bridged node |
| RicisTransformPhase.NeverBridgedList | Simplifiers/ExpressionSimplifier.cs:14-29 | the same over a call's arguments |
| RicisTransformPhase.DivisionOutcome | Simplifiers/ExpressionSimplifier.cs:31-61 | no candidate keeps the division of the original operands, one gives its infinity, and several give a monolith whose i-th infinity sits at the i-th candidate |
| RicisTransformPhase.CandidateOrder | Simplifiers/ExpressionSimplifier.cs:36-53 | the candidates are the polynomial roots followed by at most one trigonometric root |
| RicisTransformPhase.OtherBinariesVisited | Simplifiers/ExpressionSimplifier.cs:28 | other binary nodes are rebuilt from their transformed operands |
| RicisTransformDraft.TrySimplify | Phases/RicisTransformPhase.cs:7-26 | 1.0 exactly for (exp(p) − 1)/p with a right operand printed "1", and null for everything else except an Exp call without arguments, which throws |
| RicisTransformDraft.EvaluateAtPoint | Phases/RicisTransformPhase.cs:27-49 | 0 exactly when the evaluation gives 0, and any value other than 1.0 is the evaluation's finite value; NaN, infinities and exceptions give 1.0 |
| RicisTransformDraft.SameAsExponentialSimplifier | Phases/RicisTransformPhase.cs:7-26 | this copy of the exponential rule is the same function as the one in the exponential simplifier |
| PowToMultiplicationVisitor.Truncate | Simplifiers/PowToMultiplicationVisitor.cs:31 | `(int)d` rounds toward zero: the result is the whole number next to d on the side of 0 |
| PowToMultiplicationVisitor.SmallExponent | Simplifiers/PowToMultiplicationVisitor.cs:29-32 | an accepted exponent is a double constant whose truncation lies in 0..10 |
| PowToMultiplicationVisitor.Expansion | Simplifiers/PowToMultiplicationVisitor.cs:34-39 | the replacement of `Pow(x, n)` is again a plain tree |
| PowToMultiplicationVisitor.Expand | Simplifiers/PowToMultiplicationVisitor.cs:34-39 | the `for` loop builds exactly the specified chain, and 1.0 for n = 0 |
| PowToMultiplicationVisitor.Rewrite | Simplifiers/PowToMultiplicationVisitor.cs:18-45 | the rewrite of a plain tree is plain |
| PowToMultiplicationVisitor.RewriteList | Simplifiers/PowToMultiplicationVisitor.cs:44 | a call's arguments are rewritten one for one |
| PowToMultiplicationVisitor.PowOfParameter | Simplifiers/PowToMultiplicationVisitor.cs:25-40 | Pow(x, d) with 0 ≤ (int)d ≤ 10 becomes a product that denotes v to the truncated power, and 1.0 for a zero exponent |
| PowToMultiplicationVisitor.FractionalExponentTruncated | Simplifiers/PowToMultiplicationVisitor.cs:31-32 | a fractional exponent is truncated: Pow(x, 2.5) becomes x * x and Pow(x, 0.5) becomes 1.0, since the test compares the int with itself |
| PowToMultiplicationVisitor.KeptPowCalls | Simplifiers/PowToMultiplicationVisitor.cs:29-44 | Pow(x, 11.0), Pow(x, −1.0), Pow(x, 2) with an int exponent and Pow(y, 2.0) for another parameter are kept |
| PowToMultiplicationVisitor.NestedBaseExpands | Simplifiers/PowToMultiplicationVisitor.cs:27-29 | the base is visited before it is tested: Pow(Pow(x, 1.0), 2.0) becomes x * x |
| PowToMultiplicationVisitor.NoPowUnchanged | Simplifiers/PowToMultiplicationVisitor.cs:23-45 | a tree without `Pow` calls is left as it is |
| PowToMultiplicationVisitor.NoPowUnchangedList | Simplifiers/PowToMultiplicationVisitor.cs:44 | the same over a call's arguments |
| ExponentialZeroSolver.ExpMinusOne | ZeroSolver/ExponentialZeroSolver.cs:53-72 | the argument named by exp(g) − 1 or 1 − exp(g) is a strict part of the tree |
| ExponentialZeroSolver.ExpArgument | ZeroSolver/ExponentialZeroSolver.cs:60-87 | an Exp call's argument is its only argument, a strict part of it |
| ExponentialZeroSolver.FirstExp | ZeroSolver/ExponentialZeroSolver.cs:102-111 | the argument the finder keeps, when there is one, is a strict part of the tree |
| ExponentialZeroSolver.FirstExpList | ZeroSolver/ExponentialZeroSolver.cs:109 | the same over a call's arguments |
| ExponentialZeroSolver.ExpFinderVisitor.constructor | ZeroSolver/ExponentialZeroSolver.cs:102-104 | a new finder has found nothing |
| ExponentialZeroSolver.ExpFinderVisitor.Visit | ZeroSolver/ExponentialZeroSolver.cs:106-110 | a visit keeps an argument already found, and otherwise records the argument of the first single-argument Exp call in visit order |
| ExponentialZeroSolver.ExpFinderVisitor.VisitList | ZeroSolver/ExponentialZeroSolver.cs:109 | the same over a call's arguments, in order |
| ExponentialZeroSolver.Inner | ZeroSolver/ExponentialZeroSolver.cs:15-31 | the inner equation, when there is one, is a strict part of the tree, so the recursion through the universal solver ends |
| ExponentialZeroSolver.FindInner | ZeroSolver/ExponentialZeroSolver.cs:15-31 | the method form, running the finder when the difference shape does not match, gives the specified inner equation |
| ExponentialZeroSolver.DifferenceShapes | ZeroSolver/ExponentialZeroSolver.cs:53-100 | exp(g) − 1 and 1 − exp(g) name g whatever numeric type the one has, while a `BigInteger` one or a sum does not match |
| ExponentialZeroSolver.FirstCallWins | ZeroSolver/ExponentialZeroSolver.cs:106-110 | the first Exp call in visit order wins: in exp(a) + exp(b) it is a, and in exp(exp(c)) it is exp(c) |
| ExponentialZeroSolver.NoExpNothing | ZeroSolver/ExponentialZeroSolver.cs:28-34 | a tree without an Exp call gives nothing to solve |
| ExponentialZeroSolver.NoExpNothingList | ZeroSolver/ExponentialZeroSolver.cs:109 | the same over a call's arguments |
| ExpressionSimplifier.Resolve | ExpressionSimplifier.cs:61-97 | a numerator not exactly 0 at the zero gives the infinity indexed by the numerator; at a 0/0 form a bridged node carries `TryDivide`'s quotient, or else the point table's result, and otherwise the infinity indexed by the quotient; only the 0/0 path can throw |
| ExpressionSimplifier.ResolveAll | ExpressionSimplifier.cs:61-97 | the loop gives one node per root, in order, each the resolution of that root |
| ExpressionSimplifier.Infinities | ExpressionSimplifier.cs:103 | `OfType<InfinityExpression>()` keeps the infinities in order and drops every other node, so it is shorter exactly when one is dropped |
| ExpressionSimplifier.SimplifyDivision | ExpressionSimplifier.cs:45-105 | the method throws exactly when its specification throws, and otherwise returns the node it gives |
| ExpressionSimplifier.ResolveEach | ExpressionSimplifier.cs:59-97 | the `foreach` appends the resolution of each root in order, and the first throw ends it |
| ExpressionSimplifier.ResolveStep | ExpressionSimplifier.cs:61-97 | one more iteration appends the next root's resolution |
| ExpressionSimplifier.ResolveStopsAt | ExpressionSimplifier.cs:61-97 | a root whose resolution throws ends the loop with its exception |
| ExpressionSimplifier.VisitList | ExpressionSimplifier.cs:34-38 | a call's arguments are visited one for one |
| ExpressionSimplifier.UnchangedDivisions | ExpressionSimplifier.cs:50-57 | a division without parameters, or whose denominator has no zeros, is returned as it is |
| ExpressionSimplifier.CountSwitch | ExpressionSimplifier.cs:99-104 | one zero gives its own node, and two or more give a monolith of the infinities alone, which loses an entry for every bridged node |
| ExpressionSimplifier.DivisionFirst | ExpressionSimplifier.cs:74-82 | long division is tried before the point table: when it succeeds at a 0/0 zero, its quotient is the bridged content |
| ExpressionSimplifier.NegationNotDescended | ExpressionSimplifier.cs:18-42 | unary minus is not descended, so a division under it stays |
| RicisTypes.EqualsBySignature | RicisType.cs:16-19 | equality compares signatures only, so it is symmetric, never holds against null, and ignores the composite flag |
| RicisTypes.CompatibleSymmetric | RicisType.cs:22-26 | compatibility is symmetric, `Scalar` is compatible with everything, and two non-scalar types are compatible exactly when they are equal |
| RicisTypes.Operate | RicisType.cs:29-38 | a scalar operand gives way to the other one, x/x is `Scalar`, and any other pair gives the composite "(a op b)" |
| RicisTypes.OperateInjective | RicisType.cs:37 | the composite signature gives its operands back once the length of the left one is known |
| RicisTypes.Operands | RicisType.cs:37 | the operands sit at fixed places in "(x op y)" |
| RicisTypes.OperateAmbiguous | RicisType.cs:37 | without that length it does not: (x*y)*z and x*(y*z) get the same type |
| RicisTypes.OperateUnits | RicisType.cs:31-35 | a/a is `Scalar`, `Scalar` op a is a, and a op `Scalar` is a |
| RicisTypes.Sorted | RicisType.cs:44 | a stable sort of two signatures swaps them exactly when the first compares above the second |
| RicisTypes.CreateTuple | RicisType.cs:41-46 | the tuple type is composite and lists the two signatures in one order or the other |
| RicisTypes.TupleOrderIndependent | RicisType.cs:43-45 | (Space, Time) and (Time, Space) give one tuple type whenever the comparison orders the two signatures strictly |
| RicisTypes.TieKeepsArgumentOrder | RicisType.cs:44 | signatures the comparison ties keep the argument order, so the tuple type then depends on it |
| PolynomialDivider.TryDivide | PolynomialDivider.cs:7-23 | a quotient comes exactly for a difference over a difference with a constant right operand: L + c when the numerator's right operand is a constant, and L otherwise |
| PolynomialDivider.CubeIsChain | PolynomialDivider.cs:27-34 | the cube test recognises exactly the product chain of three copies of the parameter, which denotes v³ |
| PolynomialDivider.DifferenceOfSquares | PolynomialDivider.cs:9-12 | on (L·L − c·c)/(L − c) the first rule is right: the quotient denotes L + c wherever L ≠ c |
| PolynomialDivider.NumeratorNotRead | PolynomialDivider.cs:11-12 | the numerator is not read: (x − 5)/(x − 1) also becomes x + 1, which is 3 at x = 2 while the quotient is −3 |
| PolynomialDivider.FactorTakenOut | PolynomialDivider.cs:14-16 | (x·x − x)/(x − 1) becomes x, which agrees with the quotient wherever x ≠ 1 |
| UniversalZeroSolver.DistinctMeaning | ZeroSolver/UniversalZeroSolver.cs:23-35 | `Distinct()` keeps one root of every class of equal roots and nothing else: no two kept roots are equal, each comes from the list, and each root of the list has an equal kept one |
| UniversalZeroSolver.DistinctOfDistinct | ZeroSolver/UniversalZeroSolver.cs:23-35 | on a list without equal roots `Distinct()` changes nothing |
| UniversalZeroSolver.DistinctKeepsHead | ZeroSolver/UniversalZeroSolver.cs:23-35 | the first root of a list is always kept, in first place |
| UniversalZeroSolver.ResultDistinct | ZeroSolver/UniversalZeroSolver.cs:14-36 | no two roots the cascade returns are equal |
| UniversalZeroSolver.PolynomialRootsAlone | ZeroSolver/UniversalZeroSolver.cs:18-24 | when the polynomial solver finds roots they are the answer, and the other solvers are not consulted |
| UniversalZeroSolver.CascadeOrder | ZeroSolver/UniversalZeroSolver.cs:26-35 | otherwise the answer is the trigonometric roots and then the exponential ones, each listed once, with the first trigonometric root first |
| UniversalZeroSolver.ExponentialRootsSolveInner | ZeroSolver/ExponentialZeroSolver.cs:11-44 | for exp(g) − 1 whose g the polynomial solver solves, the exponential roots are those roots, exact zeros of g and hence of exp(g) − 1 |
| UniversalZeroSolver.ExpOfParameterMinusOneThrows | ZeroSolver/ExponentialZeroSolver.cs:18-37 | exp(x) − 1 with an int one throws `KeyNotFoundException`: the exponential solver hands the inner x to the polynomial solver, which looks up a coefficient its map does not have |
| UniversalZeroSolver.NoPolynomialRoots | ZeroSolver/UniversalZeroSolver.cs:19-20 | the polynomial solver finds no roots of exp(x) − 1, so the cascade goes on |
| ZeroSolverUtils.KeepAppend | ZeroSolver/ZeroSolverUtils.cs:48-52 | keeping the first parameter over two parts of a visit is keeping it over the whole visit |
| ZeroSolverUtils.ParamFinder.constructor | ZeroSolver/ZeroSolverUtils.cs:44-46 | a new finder has found nothing |
| ZeroSolverUtils.ParamFinder.VisitParameter | ZeroSolver/ZeroSolverUtils.cs:48-52 | a parameter is recorded only when none was recorded before |
| ZeroSolverUtils.ParamFinder.Visit | ZeroSolver/ZeroSolverUtils.cs:44-53 | after a visit the finder holds what it held before, or else the first parameter of the tree in visit order |
| ZeroSolverUtils.ParamFinder.VisitList | ZeroSolver/ZeroSolverUtils.cs:44-53 | the same over a call's arguments |
| ZeroSolverUtils.FindFirstParameter | ZeroSolver/ZeroSolverUtils.cs:16-22 | the result is non-null exactly when the tree has a parameter, and is then the first one in visit order |
| ZeroSolverUtils.AdapterReportsFirstRoot | ZeroSolver/ZeroSolverUtils.cs:24-42 | the adapter reports a pair exactly when the tree has a parameter and the solver finds a root for the first one, and the pair is then the first root's |
| TrigSolver.RootHitsZeroAngle | TrigSolver.cs:9-68 | a reported root names the known parameter; for sine and cosine k·root + b is the zero angle (0 or π/2), and a tangent root is π/2 |
| TrigSolver.SumArgumentVanishes | TrigSolver.cs:18-55 | for sin or cos of a sum or difference of the parameter and constants, the argument at the reported root denotes the zero angle |
| TrigSolver.ProductFallbackUnreached | TrigSolver.cs:29-34 | the fallback for a constant times the parameter is never reached: the extractor already reads that shape, or throws |
| TrigSolver.AbsentParameterNoRoot | TrigSolver.cs:24-41 | without the known parameter in the argument k reads 0, so there is no root |
| TrigSolver.DirectCases | TrigSolver.cs:43-65 | cos(x) and tan(x) give π/2, and sin(x − 1) gives 1 |
| TrigSolver.NestedProductGivesNull | TrigSolver.cs:19-41 | sin(2·x + 3) gives null: the product is not a direct operand of the sum, so k reads 0 |
| TrigSolver.NonLinearGivesNull | TrigSolver.cs:35-39 | sin(exp(x)) gives null: the argument is neither linear nor the parameter |
| TrigonometricZeroSolver.RootAtBaseAngle | ZeroSolver/TrigonometricZeroSolver.cs:6-43 | at most one root; it names the parameter, carries no rational, needs a multiplier above 1e-10, and makes multiplier·root + offset the base angle (π for Sin and Tan, π/2 for Cos) |
| TrigonometricZeroSolver.SumArgumentAtBase | ZeroSolver/TrigonometricZeroSolver.cs:14-39 | on a sum or difference of the parameter and constants, the argument denotes the base angle at the reported root |
| TrigonometricZeroSolver.BareParameterNoRoot | ZeroSolver/TrigonometricZeroSolver.cs:17-18 | a bare-parameter argument gives no root: the extractor returns null on it, and there is no fallback |
| TrigonometricZeroSolver.SineBaseAngles | ZeroSolver/TrigonometricZeroSolver.cs:25 | sin(x − 1) gets the root 1 + π here and 1 from `TrigSolver`, since this base angle for Sin is π rather than 0 |
| TrigonometricSimplifier.HalfOver | Simplifiers/TrigonometricSimplifier.cs:26-35 | the cosine test holds exactly for (1 − cos x)/(x·x), with the left operand printed "1", and throws exactly on a `Cos` call without arguments |
| TrigonometricSimplifier.Table | Simplifiers/TrigonometricSimplifier.cs:7-38 | sin(x)/x and tan(x)/x give 1.0, (1 − cos x)/(x·x) gives 0.5, everything else null, and a matching call without arguments throws |
| TrigonometricSimplifier.AgreesAtZero | Simplifiers/TrigonometricSimplifier.cs:10-23 | at the point 0 this table agrees with the point table on the shapes they share |
| TrigonometricSimplifier.HalfOnlyHere | Simplifiers/TrigonometricSimplifier.cs:26-35 | (1 − cos x)/(x·x) gives 0.5 here and null in the point table |
| TrigSingularityExtension.SolvedCallNamesItsParameter | ZeroSolver/TrigSingularityExtension.cs:20-24 | a root of one cosine call names the first parameter that occurs in it |
| TrigSingularityExtension.AtMostOneRoot | ZeroSolver/TrigSingularityExtension.cs:12-40 | at most one root: a cosine denominator is solved itself, a division by a cosine has its cosine solved, and every other denominator gives none |
| TrigSingularityExtension.CosineCases | ZeroSolver/TrigSingularityExtension.cs:17-37 | 1/cos(x) and cos(x) both give π/2 at x |
| TrigSingularityExtension.SineIgnored | ZeroSolver/TrigSingularityExtension.cs:17-29 | a Sin denominator has zeros too, but it is not looked at |
| RicisPhasePipeline.ThreePhases | Phases/RicisPhasePipeline.cs:14-46 | the pipeline is clean-first, then the transform phase, then standard operations (phases 3 and 4 return their argument), and an exception of phase 1 or 2 ends it |
| RicisPhasePipeline.StandardOperationsKeepNoBridged | Phases/RicisPhasePipeline.cs:39 | phase 5 keeps a tree free of bridged nodes |
| RicisPhasePipeline.Output | Phases/RicisPhasePipeline.cs:14-46 | the output holds no bridged node and no 1·x or 0 + x anywhere |
| RicisPhasePipeline.SingularitiesReachOutput | Phases/RicisPhasePipeline.cs:28-39 | the singularity nodes built in phase 2 reach the output as they are, in the same order, none added and none lost |
| TypeConsistencyPhase.Walk | Phases/TypeConsistencyPhase.cs:35-79 | the stock traversal with extension nodes returned as they are rebuilds exactly the tree it visits |
| TypeConsistencyPhase.WalkList | Phases/TypeConsistencyPhase.cs:70-73 | the same over a call's arguments |
| TypeConsistencyPhase.Apply | Phases/TypeConsistencyPhase.cs:14-33 | the phase always returns its input tree |
| PointIdentitySimplifier.Table | Simplifiers/PointIdentitySimplifier.cs:7-46 | a result comes exactly at the point 0 for sin(x)/x, tan(x)/x or (exp(x) − 1)/x and is then 1.0; a matching call without arguments throws; any other point gives null |
| PointIdentitySimplifier.KnownLimits | Simplifiers/PointIdentitySimplifier.cs:13-15 | sin(x)/x, tan(x)/x and (exp(x) − 1.0)/x at 0 give 1.0 |
| PointIdentitySimplifier.OutsideTheTable | Simplifiers/PointIdentitySimplifier.cs:10-18 | (1 − cos x)/(x·x) is not in this table, and sin(x)/x at a point other than 0 is not simplified |
| ExponentialSimplifier.Table | Simplifiers/ExponentialSimplifier.cs:7-26 | (exp(x) − 1)/x gives 1.0, a difference whose left operand is an Exp call without arguments throws, and everything else gives null |
| ExponentialSimplifier.PointTableAgrees | Simplifiers/ExponentialSimplifier.cs:7-26 | whatever this table simplifies, the point table simplifies alike at the point 0 |
| ExponentialSimplifier.TextTest | Simplifiers/ExponentialSimplifier.cs:19 | the right operand is tested by its text: 1.0, the integer 1 and a parameter named "1" all match, and 2.0 does not |
| SimplifierShapes.FirstArgumentIs | Simplifiers/PointIdentitySimplifier.cs:28 | `Arguments[0] == param` throws `ArgumentOutOfRangeException` exactly on an empty argument list, and otherwise tests the first argument |
| SimplifierShapes.CallOver | Simplifiers/PointIdentitySimplifier.cs:23-30 | the call test holds exactly for f(x)/x, and throws exactly on an f call without arguments, since the name is tested before the argument |
| SimplifierShapes.ExpMinusOneOver | Simplifiers/PointIdentitySimplifier.cs:32-46 | the exponential test holds exactly for (exp(x) − r)/x with r printed "1", and throws exactly on a difference whose left operand is an Exp call without arguments |
| SimplifierShapes.RendersAsOne | Simplifiers/PointIdentitySimplifier.cs:44 | the text test accepts a double constant exactly when it is 1.0, and also the integer constants 1 and a parameter named "1" |
| RealMath.QuadraticFormula | SingularitySolver.cs:29-35 | (−b + s)/2a is a zero of a·x² + b·x + c whenever s² is the discriminant |
| RicisEntities.RicisEntity.Internal | RicisEntity.cs:19-26 | the private constructor keeps the given state, type, magnitude and symbol, with an empty component list |

## Left out

- Program.cs: the console loop, the colours, the batch runs and the parsing of typed-in text through System.Linq.Dynamic.Core are I/O and a foreign parser.
- RicisEvaluator.cs is not part of this model: it compiles closure-member getters by reflection over code that is not shown.
- RICISValue.cs is not part of this model: its operators dispatch through `dynamic` on an unknown type.
- TypedZeroExpression.cs, RicisExpression.cs and ExpressionComparableExtensions.cs have no logic of their own. EntityState.cs is the `EntityState` datatype of `RicisEntities`.
- Compiled-lambda evaluation (ExpressionSimplifier.cs:107-121, Simplifiers/ExpressionSimplifier.cs:86-99, PolarConverter.cs:70-89, Phases/RicisTransformPhase.cs:27-49) is the `Evaluator` parameter. CLR numeric execution is not modelled.
- IEEE-754 behaviour is not modelled: rounding, −0.0 apart from `NormalizeZero`, `Math.Sqrt` accuracy, the `:R` round-trip format and the exact digits `double.ToString` prints. Doubles are reals. NaN and ±∞ appear only where the source tests for them: `RicisEntity` magnitudes, `CircleSectors.FromRadians` and the evaluator's outcome.
- Console logging (Phases/TypeConsistencyPhase.cs:26-28,43-51) and the debug prints of ExpressionSimplifier.cs are side effects only.
- Null trees are modelled only where the source tests for null. Reference identity of nodes other than parameters is not modelled: two non-parameter nodes are always taken to be distinct objects.
- The .NET `ExpressionVisitor` internals are not modelled: dispatch order beyond what each visitor uses, the `MakeBinary` validation, and the default `VisitExtension` that throws on non-reducible nodes. Functions that would reach that default require a tree without singularity nodes. Re-running the pipeline on its own output is therefore not modelled.
- The `SubstitutionVisitor` in PolynomialDivider.cs has the same body as the one in SubstitutionVisitor.cs. Both are `SubstitutionVisitor.Substitute`.
- `string.GetHashCode` is not modelled. A hash is represented by the text it is taken from.
- The culture-sensitive order of RicisType.cs:44 is the `Comparer` parameter.
- RicisEntities.ProductOf: its own contract states only the result type. Its rules are stated by `RecoveredIdentity` (A6), `ProductRules` (A10, the infinite case and the plain product), `ProductStateCommutes` and `ProductCoherent`.
- RicisEntities.QuotientOf: its own contract states only the result type. The state rules are stated by `QuotientRules` and `QuotientCoherent`.
- ExactEvaluator.EvalSound: the agreement with the real value is promised only for trees whose double constants lie in the `long` range. Beyond it `(long)` changes the number (see `LargeDoubleSaturates`).
- PolynomialZeroSolver.ConfirmedIsZero: the real zero is promised only under the same `long`-range condition as `EvalSound`; the exact zero is promised always.
- PolynomialZeroSolver.RootsAreZeros: the real zero is promised only under the same `long`-range condition as `EvalSound`; the exact zero is promised always.
- Expressions.SaturatedLong: C# leaves an out-of-range double-to-`long` cast unspecified. The model takes the saturating conversion of .NET 9, which gives the nearer bound.
- Number texts are taken in the invariant culture ('.' as decimal separator). The source formats in the current culture (RicisEntity.cs:11, Root.cs:43, InfinityExpression.cs:22), so under a culture such as ru-RU it prints "0,5" where the model has "0.5".
- PowToMultiplicationVisitor.Truncate: an exponent outside the `int` range fails the 0..10 test whatever the cast gives. So the cast's overflow behaviour is not modelled.

## Findings

| source | as written | input that shows it | evidently intended | confidence | as-written member | corrected member |
|---|---|---|---|---|---|---|
| ExpressionComparable.cs:34-35 | the hash is taken from `Expr.ToString()`, while equality is `ExpressionStructuralComparer.AreEqual`, which treats any two namespaced bridged nodes as equal | the namespaced bridged nodes x [bridged at x=0] and y [bridged at y=0] are equal wrappers whose texts differ, so their hashes may differ | equal wrappers hash alike, for example by hashing what the comparer checks (node type and CLR type) | not executed | ExpressionComparable.EqualButHashDiffers | ExpressionComparable.CorrectedHashAgreesWithEquality |
