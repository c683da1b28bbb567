/** Evaluating a tree at a point, as the classifiers do it: substitute the
    point for the parameter with `SubstitutionVisitor`, wrap the closed tree
    in `Expression.Convert(…, typeof(double))`, compile it and invoke it.
    Compiling and running CLR code is not part of this model: an
    `Evaluator` stands for the whole step and reports what it gives. */
module Evaluation {
  import opened Expressions

  /** What the evaluation gives: a finite double, NaN or an infinity, or an
      exception (from the substitution, the compilation or the run). */
  datatype Outcome = Finite(value: real) | NonFinite | Raised

  /** The value of a tree with the named parameter set to a point. */
  type Evaluator = (Expr, string, real) -> Outcome
}
