/** The whole partial-observation evaluation: tree check, fact check, three-valued fold. */
module ConditionState {
  import opened Prelude
  import opened ConditionLanguage
  import opened ConditionParser
  import opened ConditionEvaluation
  import opened ConditionFacts
  import opened ConditionMeaning

  /** The verdict is never contradicted by a nested context that agrees with the facts. */
  ghost predicate Sound(e: Expr, facts: Facts, state: Truth) {
    forall context | Agrees(facts, context) && Evaluate(e, context).Ok? ::
      (state == TRUE ==> Evaluate(e, context).value) && (state == FALSE ==> !Evaluate(e, context).value)
  }

  /** `evaluate_condition_state`. It raises exactly when the tree is not a built tree within its
      budgets, the facts are not realisable observations, or a known operand is outside its
      domain; otherwise its answer is the one of the three-valued tables, it is sound, and some
      context does agree with the facts. */
  method EvaluateConditionState(d: Digester, expression: Expr, facts: Facts) returns (state: Result<Truth>)
    ensures state.Ok? <==>
            && Built(d, expression) && Depth(expression) <= MAX_DEPTH && Nodes(expression) <= MAX_NODES
            && Acceptable(facts) && !BadLeaf(expression, facts)
    ensures state.Ok? ==>
            && (state.value == TRUE <==> IsTrue(expression, facts))
            && (state.value == FALSE <==> IsFalse(expression, facts))
            && (state.value == UNKNOWN <==> !IsTrue(expression, facts) && !IsFalse(expression, facts))
    ensures state.Ok? && IsLeaf(expression) ==>
            (state.value == UNKNOWN <==> expression.ref !in facts || facts[expression.ref].Unknown?)
    ensures state.Ok? ==> Sound(expression, facts, state.value)
    ensures state.Ok? ==> exists context :: Agrees(facts, context)
    ensures state.Ok? && FullyObserved(expression, facts) ==>
            && state.value != UNKNOWN
            && forall context | Agrees(facts, context) :: Evaluate(expression, context) == Ok(state.value == TRUE)
  {
    hide IsTrue, IsFalse, BadLeaf, FullyObserved, EvaluateState, Evaluate, Agrees, Acceptable, Built, Depth, Nodes;
    var parsed := ValidatedExpression(d, expression);
    if parsed.Err? {
      return Err;
    }
    var checked := CheckedFacts(facts);
    if checked.Err? {
      return Err;
    }
    state := EvaluateState(parsed.value, checked.value);
    RaisesExactly(expression, facts);
    if state.Ok? {
      TablesExact(expression, facts);
      LeafUnknown(expression, facts);
      ghost var some := AcceptedRealised(facts);
      SoundState(expression, facts);
      if FullyObserved(expression, facts) {
        ObservedIsDefinite(expression, facts, some);
        forall context | Agrees(facts, context) ensures Evaluate(expression, context) == Ok(state.value == TRUE) {
          ObservedIsDefinite(expression, facts, context);
        }
      }
    }
  }

  lemma SoundState(e: Expr, facts: Facts)
    requires EvaluateState(e, facts).Ok?
    ensures Sound(e, facts, EvaluateState(e, facts).value)
  {
    hide EvaluateState, Evaluate, Agrees;
    var state := EvaluateState(e, facts).value;
    forall context | Agrees(facts, context) && Evaluate(e, context).Ok?
      ensures (state == TRUE ==> Evaluate(e, context).value) && (state == FALSE ==> !Evaluate(e, context).value)
    {
      if state != UNKNOWN {
        DefiniteIsRight(e, facts, context);
      }
    }
  }
}
