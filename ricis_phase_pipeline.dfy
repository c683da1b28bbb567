/** Phases/RicisPhasePipeline.cs: the wired pipeline. Phase 1 (clean first),
    phase 2 (the RICIS transform), phase 3 (post-RICIS algebra), phase 4
    (type consistency) and phase 5 (standard operations), in that order; an
    exception in any phase leaves `Simplify`. Every call starts from its
    argument alone, so no state passes from one call to the next. */
module RicisPhasePipeline {
  import opened Wrappers
  import opened Expressions
  import opened Evaluation
  import AlgebraicSimplifier
  import RicisTransformPhase
  import TypeConsistencyPhase
  import StandardOperationsPhase

  /** `Simplify(originalExpr)`. */
  function Simplify(run: Evaluator, e: Expr, sqrt: real -> real): Result<Expr>
    requires Plain(e)
  {
    var cleaned :- AlgebraicSimplifier.CleanFirst(e);
    var transformed :- RicisTransformPhase.Apply(run, cleaned, sqrt);
    var post := AlgebraicSimplifier.ApplyPostRicis(transformed);
    var checked := TypeConsistencyPhase.Apply(post);
    Ok(StandardOperationsPhase.Apply(checked))
  }

  /** Phases 3 and 4 leave the tree as it is: the pipeline is phase 5
      after phase 2 after phase 1, and it fails exactly when phase 1 or
      phase 2 does, with that phase's exception. */
  lemma ThreePhases(run: Evaluator, e: Expr, sqrt: real -> real)
    requires Plain(e)
    ensures var r := Simplify(run, e, sqrt);
            var c := AlgebraicSimplifier.CleanFirst(e);
            && (c.Throw? ==> r == Throw(c.error))
            && (c.Ok? ==> Plain(c.value))
            && (c.Ok? && RicisTransformPhase.Apply(run, c.value, sqrt).Throw? ==>
                  r == Throw(RicisTransformPhase.Apply(run, c.value, sqrt).error))
            && (c.Ok? && RicisTransformPhase.Apply(run, c.value, sqrt).Ok? ==>
                  r == Ok(StandardOperationsPhase.Apply(RicisTransformPhase.Apply(run, c.value, sqrt).value)))
  {
  }

  /** Phase 5 keeps a tree free of bridged nodes. */
  lemma {:induction false} StandardOperationsKeepNoBridged(e: Expr)
    requires RicisTransformPhase.NoBridged(e)
    ensures RicisTransformPhase.NoBridged(StandardOperationsPhase.Apply(e))
    decreases e
  {
    match e
    case Bin(op, l, r) =>
      StandardOperationsKeepNoBridged(l);
      StandardOperationsKeepNoBridged(r);
    case Unary(_, y) =>
      StandardOperationsKeepNoBridged(y);
    case Call(m, args) =>
      forall a | a in StandardOperationsPhase.ApplyList(args)
        ensures RicisTransformPhase.NoBridged(a)
      {
        var i :| 0 <= i < |args| && StandardOperationsPhase.ApplyList(args)[i] == a;
        assert args[i] in args;
        StandardOperationsKeepNoBridged(args[i]);
      }
    case Lambda(_, b) =>
      StandardOperationsKeepNoBridged(b);
    case _ =>
  }

  /** What the wired pipeline returns holds no bridged node, every
      singularity node in it is indexed by a plain tree, and no
      1·x or 0 + x is left outside them. */
  lemma Output(run: Evaluator, e: Expr, sqrt: real -> real)
    requires Plain(e) && Simplify(run, e, sqrt).Ok?
    ensures RicisTransformPhase.NoBridged(Simplify(run, e, sqrt).value)
    ensures StandardOperationsPhase.Normal(Simplify(run, e, sqrt).value)
  {
    ThreePhases(run, e, sqrt);
    var c := AlgebraicSimplifier.CleanFirst(e).value;
    var t := RicisTransformPhase.Apply(run, c, sqrt).value;
    RicisTransformPhase.NeverBridged(run, c, sqrt);
    StandardOperationsKeepNoBridged(t);
    StandardOperationsPhase.ApplyIsNormal(t);
  }

  /** The singularity nodes built in phase 2 reach the output as they are,
      in the same order, none added and none lost. */
  lemma SingularitiesReachOutput(run: Evaluator, e: Expr, sqrt: real -> real)
    requires Plain(e) && Simplify(run, e, sqrt).Ok?
    ensures AlgebraicSimplifier.CleanFirst(e).Ok?
    ensures Plain(AlgebraicSimplifier.CleanFirst(e).value)
    ensures RicisTransformPhase.Apply(run, AlgebraicSimplifier.CleanFirst(e).value, sqrt).Ok?
    ensures StandardOperationsPhase.Singular(Simplify(run, e, sqrt).value)
         == StandardOperationsPhase.Singular(RicisTransformPhase.Apply(run, AlgebraicSimplifier.CleanFirst(e).value, sqrt).value)
  {
    ThreePhases(run, e, sqrt);
    var c := AlgebraicSimplifier.CleanFirst(e).value;
    StandardOperationsPhase.SingularKept(RicisTransformPhase.Apply(run, c, sqrt).value);
  }
}
