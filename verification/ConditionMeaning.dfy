/** What the two evaluators answer, said of the leaves and the three-valued tables alone. */
module ConditionMeaning {
  import opened Prelude
  import opened Text
  import opened ConditionLanguage
  import opened ConditionEvaluation

  // ----- the three-valued tables -----

  /** The context value that carries an observed scalar, or an observed array of scalars. */
  ghost predicate Carries(v: Value, observed: Operand) {
    match observed
    case One(x) => v == Leaf(x)
    case Many(xs) => v.Arr? && |v.items| == |xs| && forall i | 0 <= i < |xs| :: v.items[i] == Leaf(xs[i])
  }

  lemma ObservedExact(v: Value, observed: Operand)
    ensures v == Observed(observed) <==> Carries(v, observed)
  {
  }

  /** The value observed for the reference of a leaf. */
  ghost predicate KnownAs(e: Expr, facts: Facts, v: Value) {
    e.ref in facts && facts[e.ref].Known? && Carries(v, facts[e.ref].value)
  }

  ghost predicate IsTrue(e: Expr, facts: Facts) {
    match e.op
    case All => forall c | c in e.children :: IsTrue(c, facts)
    case AnyOf => exists c | c in e.children :: IsTrue(c, facts)
    case Not => e.children != [] && IsFalse(e.children[0], facts)
    case _ => exists v :: KnownAs(e, facts, v) && InDomain(e.op, e.value, v) && Satisfies(e.op, e.value, v)
  }

  ghost predicate IsFalse(e: Expr, facts: Facts) {
    match e.op
    case All => exists c | c in e.children :: IsFalse(c, facts)
    case AnyOf => forall c | c in e.children :: IsFalse(c, facts)
    case Not => e.children != [] && IsTrue(e.children[0], facts)
    case _ =>
      || (e.ref in facts && facts[e.ref].Absent?)
      || exists v :: KnownAs(e, facts, v) && InDomain(e.op, e.value, v) && !Satisfies(e.op, e.value, v)
  }

  ghost predicate Tabled(e: Expr, facts: Facts, t: Truth) {
    && (t == TRUE <==> IsTrue(e, facts))
    && (t == FALSE <==> IsFalse(e, facts))
  }

  lemma LeafUnknown(e: Expr, facts: Facts)
    requires EvaluateState(e, facts).Ok?
    ensures IsLeaf(e) ==>
              (EvaluateState(e, facts).value == UNKNOWN <==> e.ref !in facts || facts[e.ref].Unknown?)
  {
  }

  lemma TabledLeaf(e: Expr, facts: Facts)
    requires IsLeaf(e) && EvaluateState(e, facts).Ok?
    ensures Tabled(e, facts, EvaluateState(e, facts).value)
  {
    if e.ref in facts && facts[e.ref].Known? {
      var v := Observed(facts[e.ref].value);
      LookupNest(Split(e.ref, '.'), v);
      TestExact(e, Some(v));
      forall w ensures KnownAs(e, facts, w) <==> w == v {
        ObservedExact(w, facts[e.ref].value);
      }
    }
  }

  /** The verdict is TRUE, FALSE or UNKNOWN exactly as the three-valued tables say. */
  lemma {:induction false} TablesExact(e: Expr, facts: Facts)
    requires EvaluateState(e, facts).Ok?
    ensures Tabled(e, facts, EvaluateState(e, facts).value)
    decreases e, 1
  {
    if IsLeaf(e) {
      TabledLeaf(e, facts);
    } else if e.op == Not {
      TablesExact(e.children[0], facts);
    } else {
      FoldValue(e, facts);
      TablesAll(e.children, facts);
      TabledFold(e, facts);
    }
  }

  lemma FoldValue(e: Expr, facts: Facts)
    requires (e.op == All || e.op == AnyOf) && EvaluateState(e, facts).Ok?
    ensures EvaluateStates(e.children, facts).Ok?
    ensures var ts := EvaluateStates(e.children, facts).value;
            EvaluateState(e, facts).value ==
            if e.op == All then (if FALSE in ts then FALSE else if UNKNOWN in ts then UNKNOWN else TRUE)
            else if TRUE in ts then TRUE else if UNKNOWN in ts then UNKNOWN else FALSE
  {
  }

  lemma GroupTables(e: Expr, facts: Facts)
    requires e.op == All || e.op == AnyOf
    ensures IsTrue(e, facts) <==> if e.op == All then AllTrue(e.children, facts) else SomeTrue(e.children, facts)
    ensures IsFalse(e, facts) <==> if e.op == All then SomeFalse(e.children, facts) else AllFalse(e.children, facts)
  {
  }

  ghost predicate AllTrue(es: seq<Expr>, facts: Facts) { forall c | c in es :: IsTrue(c, facts) }
  ghost predicate SomeTrue(es: seq<Expr>, facts: Facts) { exists c | c in es :: IsTrue(c, facts) }
  ghost predicate AllFalse(es: seq<Expr>, facts: Facts) { forall c | c in es :: IsFalse(c, facts) }
  ghost predicate SomeFalse(es: seq<Expr>, facts: Facts) { exists c | c in es :: IsFalse(c, facts) }

  lemma TabledFold(e: Expr, facts: Facts)
    requires (e.op == All || e.op == AnyOf) && EvaluateState(e, facts).Ok? && EvaluateStates(e.children, facts).Ok?
    requires forall i | 0 <= i < |e.children| ::
               Tabled(e.children[i], facts, EvaluateStates(e.children, facts).value[i])
    ensures Tabled(e, facts, EvaluateState(e, facts).value)
  {
    hide EvaluateState, EvaluateStates, IsTrue, IsFalse, AllTrue, SomeTrue, AllFalse, SomeFalse;
    FoldValue(e, facts);
    GroupTables(e, facts);
    TabledGroup(e.children, facts, EvaluateStates(e.children, facts).value);
  }

  lemma TabledGroup(es: seq<Expr>, facts: Facts, ts: seq<Truth>)
    requires |es| == |ts| && forall i | 0 <= i < |es| :: Tabled(es[i], facts, ts[i])
    ensures TRUE in ts <==> SomeTrue(es, facts)
    ensures FALSE in ts <==> SomeFalse(es, facts)
    ensures AllTrue(es, facts) <==> FALSE !in ts && UNKNOWN !in ts
    ensures AllFalse(es, facts) <==> TRUE !in ts && UNKNOWN !in ts
  {
    hide IsTrue, IsFalse;
    TabledMembers(es, facts, ts);
  }

  lemma {:induction false} TablesAll(es: seq<Expr>, facts: Facts)
    requires EvaluateStates(es, facts).Ok?
    ensures forall i | 0 <= i < |es| :: Tabled(es[i], facts, EvaluateStates(es, facts).value[i])
    decreases es, 0
  {
    if es != [] {
      TablesExact(es[0], facts);
      TablesAll(es[1..], facts);
      assert forall i | 1 <= i < |es| :: es[i] == es[1..][i - 1];
    }
  }

  lemma TabledMembers(es: seq<Expr>, facts: Facts, ts: seq<Truth>)
    requires |es| == |ts| && forall i | 0 <= i < |es| :: Tabled(es[i], facts, ts[i])
    ensures forall c | c in es :: exists t :: t in ts && Tabled(c, facts, t)
    ensures forall t | t in ts :: exists c :: c in es && Tabled(c, facts, t)
  {
    hide Tabled;
    forall c | c in es ensures exists t :: t in ts && Tabled(c, facts, t) {
      var i :| 0 <= i < |es| && es[i] == c;
      assert ts[i] in ts && Tabled(c, facts, ts[i]);
    }
    forall t | t in ts ensures exists c :: c in es && Tabled(c, facts, t) {
      var i :| 0 <= i < |ts| && ts[i] == t;
      assert es[i] in es && Tabled(es[i], facts, t);
    }
  }

  // ----- the Boolean evaluator -----

  ghost predicate Holds(e: Expr, context: Value) {
    match e.op
    case All => forall c | c in e.children :: Holds(c, context)
    case AnyOf => exists c | c in e.children :: Holds(c, context)
    case Not => e.children != [] && !Holds(e.children[0], context)
    case _ =>
      exists v :: Found(Split(e.ref, '.'), context, v) && InDomain(e.op, e.value, v) && Satisfies(e.op, e.value, v)
  }

  /** A bad leaf raises unless an earlier child of some group around it decides that group. */
  ghost predicate Raises(e: Expr, context: Value) {
    match e.op
    case Not => e.children == [] || Raises(e.children[0], context)
    case All | AnyOf =>
      exists i | 0 <= i < |e.children| ::
        && Raises(e.children[i], context)
        && forall j | 0 <= j < i :: !Raises(e.children[j], context) && (Holds(e.children[j], context) <==> e.op == All)
    case _ => exists v :: Found(Split(e.ref, '.'), context, v) && !InDomain(e.op, e.value, v)
  }

  ghost predicate Answers(e: Expr, context: Value, r: Result<bool>) {
    && (r.Err? <==> Raises(e, context))
    && (r.Ok? ==> (r.value <==> Holds(e, context)))
  }

  /** The Boolean evaluator raises exactly there, and otherwise answers as its leaves and groups
      read. */
  lemma {:induction false} EvaluateExact(e: Expr, context: Value)
    ensures Answers(e, context, Evaluate(e, context))
    decreases e, 1
  {
    if IsLeaf(e) {
      AnswersLeaf(e, context);
    } else if e.op == Not {
      if e.children != [] {
        EvaluateExact(e.children[0], context);
      }
    } else {
      forall i | 0 <= i < |e.children| ensures Answers(e.children[i], context, Evaluate(e.children[i], context)) {
        EvaluateExact(e.children[i], context);
      }
      GroupAnswers(e, context, e.op == AnyOf);
    }
  }

  lemma AnswersLeaf(e: Expr, context: Value)
    requires IsLeaf(e)
    ensures Answers(e, context, Evaluate(e, context))
  {
    var actual := Lookup(Split(e.ref, '.'), context);
    TestExact(e, actual);
    forall v ensures actual == Some(v) <==> Found(Split(e.ref, '.'), context, v) {
      LookupExact(Split(e.ref, '.'), context, v);
    }
  }

  /** Child i raises and no earlier one raises or decides. */
  ghost predicate StopsAt(es: seq<Expr>, context: Value, decisive: bool, i: nat) {
    && i < |es| && Raises(es[i], context)
    && forall j | 0 <= j < i :: !Raises(es[j], context) && Holds(es[j], context) != decisive
  }

  lemma {:induction false} GroupRaisesAt(es: seq<Expr>, context: Value, decisive: bool)
    requires forall i | 0 <= i < |es| :: Answers(es[i], context, Evaluate(es[i], context))
    ensures EvaluateGroup(es, context, decisive).Err? <==> exists i: nat :: StopsAt(es, context, decisive, i)
  {
    hide Raises, Holds, Evaluate;
    if es != [] {
      assert Answers(es[0], context, Evaluate(es[0], context));
      assert Evaluate(es[0], context).Err? ==> StopsAt(es, context, decisive, 0);
      GroupRaisesAt(es[1..], context, decisive);
      if i: nat :| StopsAt(es, context, decisive, i) && i > 0 {
        assert StopsAt(es[1..], context, decisive, i - 1);
      }
      if i: nat :| StopsAt(es[1..], context, decisive, i) {
        assert Evaluate(es[0], context) == Ok(!decisive) ==> StopsAt(es, context, decisive, i + 1);
      }
    }
  }

  ghost predicate Decided(es: seq<Expr>, context: Value, decisive: bool) {
    exists c | c in es :: Holds(c, context) == decisive
  }

  lemma {:induction false} GroupValue(es: seq<Expr>, context: Value, decisive: bool)
    requires forall i | 0 <= i < |es| :: Answers(es[i], context, Evaluate(es[i], context))
    requires EvaluateGroup(es, context, decisive).Ok?
    ensures EvaluateGroup(es, context, decisive).value == decisive <==> Decided(es, context, decisive)
  {
    hide Raises, Holds, Evaluate;
    if es != [] {
      assert Answers(es[0], context, Evaluate(es[0], context)) && es[0] in es;
      if Evaluate(es[0], context) == Ok(!decisive) {
        GroupValue(es[1..], context, decisive);
        assert es == [es[0]] + es[1..];
        assert Decided(es, context, decisive) <==> Decided(es[1..], context, decisive);
      }
    }
  }

  lemma GroupAnswers(e: Expr, context: Value, decisive: bool)
    requires (e.op == All && !decisive) || (e.op == AnyOf && decisive)
    requires forall i | 0 <= i < |e.children| :: Answers(e.children[i], context, Evaluate(e.children[i], context))
    ensures Answers(e, context, Evaluate(e, context))
  {
    hide StopsAt;
    GroupRaisesAt(e.children, context, decisive);
    RaisesGroup(e, context, decisive);
    hide Raises;
    assert Evaluate(e, context) == EvaluateGroup(e.children, context, decisive);
    if Evaluate(e, context).Ok? {
      GroupValue(e.children, context, decisive);
      assert Holds(e, context) == decisive <==> Decided(e.children, context, decisive);
    }
  }

  lemma RaisesGroup(e: Expr, context: Value, decisive: bool)
    requires (e.op == All && !decisive) || (e.op == AnyOf && decisive)
    ensures Raises(e, context) <==> exists i: nat :: StopsAt(e.children, context, decisive, i)
  {
    if Raises(e, context) {
      var i := RaisedAt(e, context, decisive);
    }
    if i: nat :| StopsAt(e.children, context, decisive, i) {
      StopRaises(e, context, decisive, i);
    }
  }

  lemma RaisedAt(e: Expr, context: Value, decisive: bool) returns (i: nat)
    requires ((e.op == All && !decisive) || (e.op == AnyOf && decisive)) && Raises(e, context)
    ensures StopsAt(e.children, context, decisive, i)
  {
    hide Holds;
    i :| 0 <= i < |e.children| && Raises(e.children[i], context) &&
         forall j | 0 <= j < i :: !Raises(e.children[j], context) && (Holds(e.children[j], context) <==> e.op == All);
  }

  lemma StopRaises(e: Expr, context: Value, decisive: bool, i: nat)
    requires ((e.op == All && !decisive) || (e.op == AnyOf && decisive)) && StopsAt(e.children, context, decisive, i)
    ensures Raises(e, context)
  {
    hide Holds;
    assert Raises(e.children[i], context);
  }
}
