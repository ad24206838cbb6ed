/** Three-valued evaluation of conditions over partial observations. */
module ConditionEvaluation {
  import opened Prelude
  import opened Text
  import opened ConditionLanguage

  datatype Fact = Known(value: Operand) | Absent | Unknown
  datatype Truth = TRUE | FALSE | UNKNOWN

  type Facts = map<string, Fact>

  /** The context value of an observed scalar or scalar array. */
  function Observed(v: Operand): Value {
    if v.One? then Leaf(v.scalar)
    else Arr(seq(|v.scalars|, i requires 0 <= i < |v.scalars| => Leaf(v.scalars[i])))
  }

  /** The nested one-path context `_known_leaf` builds. */
  function Nest(segments: seq<string>, v: Value): Value {
    if segments == [] then v else Obj(map[segments[0] := Nest(segments[1..], v)])
  }

  function Flag(b: bool): Truth {
    if b then TRUE else FALSE
  }

  /** `_evaluate`: every child is folded, so an invalid known operand cannot hide. */
  function EvaluateState(e: Expr, facts: Facts): Result<Truth>
    decreases e, 1
  {
    if e.op == All || e.op == AnyOf then
      var rs := EvaluateStates(e.children, facts);
      if rs.Err? then Err
      else
        var decisive := if e.op == All then FALSE else TRUE;
        if decisive in rs.value then Ok(decisive)
        else if UNKNOWN in rs.value then Ok(UNKNOWN)
        else Ok(if e.op == All then TRUE else FALSE)
    else if e.op == Not then
      if e.children == [] then Err
      else
        var r := EvaluateState(e.children[0], facts);
        if r.Err? then Err else Ok(match r.value case TRUE => FALSE case FALSE => TRUE case UNKNOWN => UNKNOWN)
    else if e.ref !in facts || facts[e.ref].Unknown? then Ok(UNKNOWN)
    else if facts[e.ref].Absent? then Ok(FALSE)
    else
      var r := Evaluate(e, Nest(Split(e.ref, '.'), Observed(facts[e.ref].value)));
      if r.Err? then Err else Ok(Flag(r.value))
  }

  function EvaluateStates(es: seq<Expr>, facts: Facts): (r: Result<seq<Truth>>)
    ensures r.Ok? ==> |r.value| == |es|
    decreases es, 0
  {
    if es == [] then Ok([])
    else
      var r := EvaluateState(es[0], facts);
      if r.Err? then Err
      else
        var rs := EvaluateStates(es[1..], facts);
        if rs.Err? then Err else Ok([r.value] + rs.value)
  }

  // ----- what the observations mean -----

  /** A context in which every known reference has its value and every absent one is missing. */
  ghost predicate Agrees(facts: Facts, context: Value) {
    && context.Obj?
    && forall ref | ref in facts ::
         && (facts[ref].Known? ==> Lookup(Split(ref, '.'), context) == Some(Observed(facts[ref].value)))
         && (facts[ref].Absent? ==> Lookup(Split(ref, '.'), context) == None)
  }

  lemma {:induction false} LookupNest(segments: seq<string>, v: Value)
    ensures Lookup(segments, Nest(segments, v)) == Some(v)
  {
    if segments != [] {
      LookupNest(segments[1..], v);
    }
  }

  /** A leaf with an observed reference evaluates the same in every agreeing context. */
  lemma LeafAgrees(e: Expr, facts: Facts, context: Value)
    requires IsLeaf(e) && Agrees(facts, context) && e.ref in facts && !facts[e.ref].Unknown?
    ensures var t := EvaluateState(e, facts);
            if t.Err? then Evaluate(e, context).Err?
            else t.value != UNKNOWN && Evaluate(e, context) == Ok(t.value == TRUE)
  {
    if facts[e.ref].Known? {
      LookupNest(Split(e.ref, '.'), Observed(facts[e.ref].value));
    }
  }

  /** Soundness: a definite answer is the Boolean answer in every agreeing context where the
      Boolean evaluator answers at all. */
  lemma {:induction false} DefiniteIsRight(e: Expr, facts: Facts, context: Value)
    requires Agrees(facts, context)
    requires EvaluateState(e, facts).Ok? && EvaluateState(e, facts).value != UNKNOWN && Evaluate(e, context).Ok?
    ensures Evaluate(e, context).value <==> EvaluateState(e, facts).value == TRUE
    decreases e, 1
  {
    if IsLeaf(e) {
      LeafAgrees(e, facts, context);
    } else if e.op == Not {
      DefiniteIsRight(e.children[0], facts, context);
    } else {
      GroupIsRight(e.children, facts, context, e.op == AnyOf);
    }
  }

  lemma {:induction false} GroupIsRight(es: seq<Expr>, facts: Facts, context: Value, decisive: bool)
    requires Agrees(facts, context)
    requires EvaluateStates(es, facts).Ok? && EvaluateGroup(es, context, decisive).Ok?
    ensures var rs := EvaluateStates(es, facts).value;
            && (Flag(decisive) in rs ==> EvaluateGroup(es, context, decisive).value == decisive)
            && (Flag(decisive) !in rs && UNKNOWN !in rs ==> EvaluateGroup(es, context, decisive).value == !decisive)
    decreases es, 0
  {
    if es != [] {
      var t := EvaluateState(es[0], facts).value;
      var rs := EvaluateStates(es[1..], facts).value;
      assert EvaluateStates(es, facts).value == [t] + rs;
      if t != UNKNOWN {
        DefiniteIsRight(es[0], facts, context);
      }
      if Evaluate(es[0], context).value != decisive {
        GroupIsRight(es[1..], facts, context, decisive);
      }
    }
  }

  /** No leaf of e reads a reference that is missing or unknown. */
  ghost predicate FullyObserved(e: Expr, facts: Facts)
    decreases e, 1
  {
    if IsLeaf(e) then e.ref in facts && !facts[e.ref].Unknown? else AllObserved(e.children, facts)
  }

  ghost predicate AllObserved(es: seq<Expr>, facts: Facts)
    decreases es, 0
  {
    es == [] || (FullyObserved(es[0], facts) && AllObserved(es[1..], facts))
  }

  /** Completeness: with every reference observed the answer is definite, and the Boolean
      evaluator returns it without raising. */
  lemma {:induction false} ObservedIsDefinite(e: Expr, facts: Facts, context: Value)
    requires Agrees(facts, context) && FullyObserved(e, facts) && EvaluateState(e, facts).Ok?
    ensures EvaluateState(e, facts).value != UNKNOWN
    ensures Evaluate(e, context) == Ok(EvaluateState(e, facts).value == TRUE)
    decreases e, 1
  {
    if IsLeaf(e) {
      LeafAgrees(e, facts, context);
    } else if e.op == Not {
      ObservedIsDefinite(e.children[0], facts, context);
    } else {
      GroupIsDefinite(e.children, facts, context, e.op == AnyOf);
    }
  }

  lemma {:induction false} GroupIsDefinite(es: seq<Expr>, facts: Facts, context: Value, decisive: bool)
    requires Agrees(facts, context) && AllObserved(es, facts) && EvaluateStates(es, facts).Ok?
    ensures UNKNOWN !in EvaluateStates(es, facts).value
    ensures EvaluateGroup(es, context, decisive) ==
            Ok(if Flag(decisive) in EvaluateStates(es, facts).value then decisive else !decisive)
    decreases es, 0
  {
    if es != [] {
      ObservedIsDefinite(es[0], facts, context);
      GroupIsDefinite(es[1..], facts, context, decisive);
      assert EvaluateStates(es, facts).value ==
             [EvaluateState(es[0], facts).value] + EvaluateStates(es[1..], facts).value;
    }
  }

  /** more knows everything facts knows, and perhaps what facts leaves unknown. */
  ghost predicate Refines(facts: Facts, more: Facts) {
    forall ref | ref in facts && !facts[ref].Unknown? :: ref in more && more[ref] == facts[ref]
  }

  ghost predicate Consistent(a: Truth, b: Truth) {
    a == UNKNOWN || a == b
  }

  /** Learning more never flips a definite answer. */
  lemma {:induction false} DefiniteStays(e: Expr, facts: Facts, more: Facts)
    requires Refines(facts, more) && EvaluateState(e, facts).Ok? && EvaluateState(e, more).Ok?
    ensures Consistent(EvaluateState(e, facts).value, EvaluateState(e, more).value)
    decreases e, 1
  {
    if e.op == Not {
      DefiniteStays(e.children[0], facts, more);
    } else if !IsLeaf(e) {
      GroupStays(e.children, facts, more);
    }
  }

  lemma {:induction false} GroupStays(es: seq<Expr>, facts: Facts, more: Facts)
    requires Refines(facts, more) && EvaluateStates(es, facts).Ok? && EvaluateStates(es, more).Ok?
    ensures forall i | 0 <= i < |es| ::
              Consistent(EvaluateStates(es, facts).value[i], EvaluateStates(es, more).value[i])
    decreases es, 0
  {
    if es != [] {
      DefiniteStays(es[0], facts, more);
      GroupStays(es[1..], facts, more);
    }
  }

  /** A known leaf whose operand domain the observed value violates. */
  ghost predicate BadLeaf(e: Expr, facts: Facts)
    decreases e, 1
  {
    if IsLeaf(e) then
      e.ref in facts && facts[e.ref].Known? && !InDomain(e.op, e.value, Observed(facts[e.ref].value))
    else if e.op == Not && e.children == [] then true
    else if e.op == Not then BadLeaf(e.children[0], facts)
    else SomeBadLeaf(e.children, facts)
  }

  ghost predicate SomeBadLeaf(es: seq<Expr>, facts: Facts)
    decreases es, 0
  {
    es != [] && (BadLeaf(es[0], facts) || SomeBadLeaf(es[1..], facts))
  }

  /** The evaluation raises exactly when some known leaf is invalid, wherever it stands. */
  lemma {:induction false} RaisesExactly(e: Expr, facts: Facts)
    ensures EvaluateState(e, facts).Err? <==> BadLeaf(e, facts)
    decreases e, 1
  {
    if IsLeaf(e) {
      if e.ref in facts && facts[e.ref].Known? {
        LookupNest(Split(e.ref, '.'), Observed(facts[e.ref].value));
        TestExact(e, Some(Observed(facts[e.ref].value)));
      }
    } else if e.op == Not {
      if e.children != [] {
        RaisesExactly(e.children[0], facts);
      }
    } else {
      GroupRaises(e.children, facts);
    }
  }

  lemma {:induction false} GroupRaises(es: seq<Expr>, facts: Facts)
    ensures EvaluateStates(es, facts).Err? <==> SomeBadLeaf(es, facts)
    decreases es, 0
  {
    if es != [] {
      RaisesExactly(es[0], facts);
      GroupRaises(es[1..], facts);
    }
  }
}
