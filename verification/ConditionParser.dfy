/** Parsing a serial condition under the early depth and node budgets. */
module ConditionParser {
  import opened Prelude
  import opened JsonValue
  import opened ConditionLanguage

  /** One node of the serial form, read but not yet built. */
  datatype Node = Node(op: Operator, ref: string, value: Operand, items: seq<Json>, digest: HexDigest)

  const FIELDS: set<string> := {"schema_version", "op", "ref", "value", "children", "expression_digest"}

  function ScalarsOf(js: seq<Json>): (r: Result<seq<Scalar>>)
    ensures r.Ok? ==> |r.value| == |js|
  {
    if js == [] then Ok([])
    else
      var s, rest := ScalarOf(js[0]), ScalarsOf(js[1..]);
      if s.Ok? && rest.Ok? then Ok([s.value] + rest.value) else Err
  }

  function OperandOf(op: Operator, j: Json): Result<Operand> {
    if op == OneOf then
      if !j.JArr? then Err
      else
        var xs := ScalarsOf(j.items);
        if xs.Ok? then Ok(Many(xs.value)) else Err
    else
      var x := ScalarOf(j);
      if x.Ok? then Ok(One(x.value)) else Err
  }

  /** The checks on one mapping that do not look at its children. */
  function ReadNode(j: Json): Result<Node> {
    if !j.JObj? || |j.fields| != 6 || Keys(j.fields) != FIELDS then Err
    else
      var f := j.fields;
      var name, items, ref, digest := Get(f, "op"), Get(f, "children"), Get(f, "ref"), Get(f, "expression_digest");
      if Get(f, "schema_version") != JStr(SCHEMA_VERSION) || !name.JStr? || !items.JArr? || !ref.JStr? || !digest.JStr?
      then Err
      else
        var op := OperatorOf(name.s);
        if op.Err? || !LowerHex(digest.s) then Err
        else
          var value := OperandOf(op.value, Get(f, "value"));
          if value.Err? then Err else Ok(Node(op.value, ref.s, value.value, items.items, digest.s))
  }

  // ----- sizes, for termination -----

  function Size(j: Json): nat
    decreases j, 1
  {
    match j
    case JArr(items) => 1 + Sizes(items)
    case JObj(fields) => 1 + FieldSizes(fields)
    case _ => 1
  }

  function Sizes(js: seq<Json>): nat
    decreases js, 0
  {
    if js == [] then 0 else Size(js[0]) + Sizes(js[1..])
  }

  function FieldSizes(fields: seq<Field>): nat
    decreases fields, 0
  {
    if fields == [] then 0 else 1 + Size(fields[0].value) + FieldSizes(fields[1..])
  }

  lemma {:induction false} GetSmaller(fields: seq<Field>, key: string)
    ensures Get(fields, key) == JNull || Size(Get(fields, key)) < 1 + FieldSizes(fields)
  {
    if fields != [] && fields[0].name != key {
      GetSmaller(fields[1..], key);
    }
  }

  lemma NodeSmaller(j: Json)
    requires ReadNode(j).Ok?
    ensures Sizes(ReadNode(j).value.items) < Size(j)
  {
    GetSmaller(j.fields, "children");
  }

  // ----- parsing with and without budgets -----

  function Finish(d: Digester, node: Node, built: Result<Expr>): Result<Expr> {
    if built.Ok? && built.value.digest == node.digest then built else Err
  }

  /** The parse that would result if nothing bounded the tree. */
  function ParseFree(d: Digester, j: Json): Result<Expr>
    decreases Size(j), 0, 0
  {
    var node := ReadNode(j);
    if node.Err? then Err
    else
      NodeSmaller(j);
      var children := ParseFrees(d, node.value.items);
      if children.Err? then Err
      else Finish(d, node.value, Construct(d, node.value.op, node.value.ref, node.value.value, children.value))
  }

  function ParseFrees(d: Digester, js: seq<Json>): (r: Result<seq<Expr>>)
    ensures r.Ok? ==> |r.value| == |js|
    decreases Sizes(js), 1, |js|
  {
    if js == [] then Ok([])
    else
      var first := ParseFree(d, js[0]);
      if first.Err? then Err
      else
        var rest := ParseFrees(d, js[1..]);
        if rest.Err? then Err else Ok([first.value] + rest.value)
  }

  /** `_from_dict`: the budgets are checked on the way down and Build checks the shape again. */
  function Parse(d: Digester, j: Json, depth: nat, remaining: nat): (r: Result<(Expr, nat)>)
    requires depth <= MAX_DEPTH + 1
    ensures r.Ok? ==> r.value.1 <= remaining
    decreases MAX_DEPTH + 1 - depth, 0
  {
    if depth > MAX_DEPTH || remaining < 1 then Err
    else
      var node := ReadNode(j);
      if node.Err? then Err
      else
        var children := ParseAll(d, node.value.items, depth + 1, remaining - 1);
        if children.Err? then Err
        else
          var e := Finish(d, node.value, Build(d, node.value.op, node.value.ref, node.value.value, children.value.0));
          if e.Err? then Err else Ok((e.value, 1 + children.value.1))
  }

  function ParseAll(d: Digester, js: seq<Json>, depth: nat, remaining: nat): (r: Result<(seq<Expr>, nat)>)
    requires depth <= MAX_DEPTH + 1
    ensures r.Ok? ==> r.value.1 <= remaining && |r.value.0| == |js|
    decreases MAX_DEPTH + 1 - depth, 1 + |js|
  {
    if js == [] then Ok(([], 0))
    else
      var first := Parse(d, js[0], depth, remaining);
      if first.Err? then Err
      else
        var rest := ParseAll(d, js[1..], depth, remaining - first.value.1);
        if rest.Err? then Err else Ok(([first.value.0] + rest.value.0, first.value.1 + rest.value.1))
  }

  /** The unbudgeted result, refused when the tree under it breaks a budget. */
  function Bounded(free: Result<Expr>, depth: nat, remaining: nat): Result<(Expr, nat)>
    requires depth >= 1
  {
    if free.Ok? && depth - 1 + Depth(free.value) <= MAX_DEPTH && Nodes(free.value) <= remaining
    then Ok((free.value, Nodes(free.value))) else Err
  }

  function BoundedAll(free: Result<seq<Expr>>, depth: nat, remaining: nat): Result<(seq<Expr>, nat)>
    requires depth >= 1
  {
    if free.Ok? && depth - 1 + MaxDepth(free.value) <= MAX_DEPTH && SumNodes(free.value) <= remaining
    then Ok((free.value, SumNodes(free.value))) else Err
  }

  /** The early budgets refuse exactly the trees the final shape check refuses. */
  lemma {:induction false} BudgetExact(d: Digester, j: Json, depth: nat, remaining: nat)
    requires depth <= MAX_DEPTH + 1 && 1 <= depth && remaining <= MAX_NODES
    ensures Parse(d, j, depth, remaining) == Bounded(ParseFree(d, j), depth, remaining)
    decreases Size(j), 0, 0
  {
    hide ReadNode, Construct, Build, Finish;
    if depth <= MAX_DEPTH && remaining >= 1 && ReadNode(j).Ok? {
      var node := ReadNode(j).value;
      NodeSmaller(j);
      BudgetAll(d, node.items, depth + 1, remaining - 1);
      if ParseFrees(d, node.items).Ok? {
        FinishBounded(d, node, ParseFrees(d, node.items).value);
      }
    }
  }

  lemma FinishBounded(d: Digester, node: Node, children: seq<Expr>)
    ensures var free := Finish(d, node, Construct(d, node.op, node.ref, node.value, children));
            && (free.Ok? ==> Depth(free.value) == 1 + MaxDepth(children) && Nodes(free.value) == 1 + SumNodes(children))
            && Finish(d, node, Build(d, node.op, node.ref, node.value, children)) ==
                 if free.Ok? && 1 + MaxDepth(children) <= MAX_DEPTH && 1 + SumNodes(children) <= MAX_NODES
                 then free else Err
  {
    hide NodeRules, Body, ToDicts;
  }

  lemma {:induction false} BudgetAll(d: Digester, js: seq<Json>, depth: nat, remaining: nat)
    requires depth <= MAX_DEPTH + 1 && 1 <= depth && remaining <= MAX_NODES
    ensures ParseAll(d, js, depth, remaining) == BoundedAll(ParseFrees(d, js), depth, remaining)
    decreases Sizes(js), 1, |js|
  {
    hide ReadNode, Construct, Parse, ParseFree;
    if js != [] {
      BudgetExact(d, js[0], depth, remaining);
      var first, rest := ParseFree(d, js[0]), ParseFrees(d, js[1..]);
      if first.Ok? && rest.Ok? {
        var both := [first.value] + rest.value;
        assert both[1..] == rest.value;
      }
      if Bounded(first, depth, remaining).Ok? {
        BudgetAll(d, js[1..], depth, remaining - Nodes(first.value));
      }
    }
  }

  // ----- round trip -----

  lemma {:induction false} ScalarsBack(xs: seq<Scalar>, js: seq<Json>)
    requires |js| == |xs| && forall i | 0 <= i < |xs| :: js[i] == ScalarJson(xs[i])
    ensures ScalarsOf(js) == Ok(xs)
  {
    if xs != [] {
      ScalarsBack(xs[1..], js[1..]);
      assert xs == [xs[0]] + xs[1..];
    }
  }

  /** Reading what was written: exactly the operand kinds the operator takes come back. */
  lemma OperandBack(op: Operator, v: Operand)
    ensures OperandOf(op, OperandJson(v)) == if op == OneOf <==> v.Many? then Ok(v) else Err
  {
    if v.Many? {
      ScalarsBack(v.scalars, OperandJson(v).items);
    }
  }

  lemma ReadWritten(e: Expr)
    ensures ReadNode(ToDict(e)) ==
            if e.op == OneOf <==> e.value.Many?
            then Ok(Node(e.op, e.ref, e.value, ToDicts(e.children), e.digest)) else Err
  {
    hide Get, OperandOf, OperandJson;
    var f := ToDict(e).fields;
    OperandBack(e.op, e.value);
    WrittenNames(e);
    GetAt(f, 0);
    GetAt(f, 1);
    GetAt(f, 2);
    GetAt(f, 3);
    GetAt(f, 4);
    GetAt(f, 5);
    assert Keys(f) == FIELDS;
    NameBack(e.op);
  }

  lemma NameBack(op: Operator)
    ensures OperatorOf(Name(op)) == Ok(op)
  {
  }

  lemma WrittenNames(e: Expr)
    ensures var f := ToDict(e).fields;
            && |f| == 6
            && f[0].name == "schema_version" && f[1].name == "op" && f[2].name == "ref"
            && f[3].name == "value" && f[4].name == "children" && f[5].name == "expression_digest"
    ensures forall i, j | 0 <= i < j < 6 :: ToDict(e).fields[i].name != ToDict(e).fields[j].name
  {
  }

  /** Serialising and parsing returns the same tree, and refuses a tree that was not built. */
  lemma {:induction false} RoundTripFree(d: Digester, e: Expr)
    ensures ParseFree(d, ToDict(e)) == if Built(d, e) then Ok(e) else Err
    decreases e, 1
  {
    hide ReadNode, Body;
    ReadWritten(e);
    RoundTripAll(d, e.children);
  }

  lemma {:induction false} RoundTripAll(d: Digester, es: seq<Expr>)
    ensures ParseFrees(d, ToDicts(es)) == if AllBuilt(d, es) then Ok(es) else Err
    decreases es, 0
  {
    hide ReadNode, ParseFree, Built, ToDict;
    if es != [] {
      RoundTripFree(d, es[0]);
      RoundTripAll(d, es[1..]);
      assert ToDicts(es)[1..] == ToDicts(es[1..]);
      assert es == [es[0]] + es[1..];
    }
  }

  /** Whatever parses was built, so serialising the result and parsing again changes nothing. */
  lemma {:induction false} ParsedIsBuilt(d: Digester, j: Json)
    requires ParseFree(d, j).Ok?
    ensures Built(d, ParseFree(d, j).value)
    ensures ParseFree(d, ToDict(ParseFree(d, j).value)) == ParseFree(d, j)
    decreases Size(j), 0, 0
  {
    var node := ReadNode(j).value;
    NodeSmaller(j);
    ParsedAllBuilt(d, node.items);
    RoundTripFree(d, ParseFree(d, j).value);
  }

  lemma {:induction false} ParsedAllBuilt(d: Digester, js: seq<Json>)
    requires ParseFrees(d, js).Ok?
    ensures AllBuilt(d, ParseFrees(d, js).value)
    decreases Sizes(js), 1, |js|
  {
    if js != [] {
      ParsedIsBuilt(d, js[0]);
      ParsedAllBuilt(d, js[1..]);
      assert ParseFrees(d, js).value[1..] == ParseFrees(d, js[1..]).value;
    }
  }

  /** `from_dict` of `to_dict`: the built trees within both budgets come back unchanged, and
      nothing else is accepted. */
  lemma RoundTrip(d: Digester, e: Expr)
    ensures Parse(d, ToDict(e), 1, MAX_NODES) ==
            if Built(d, e) && Depth(e) <= MAX_DEPTH && Nodes(e) <= MAX_NODES then Ok((e, Nodes(e))) else Err
  {
    RoundTripFree(d, e);
    BudgetExact(d, ToDict(e), 1, MAX_NODES);
  }

  // ----- the loops of the source -----

  /** The result of the remaining children appended to those already parsed. */
  function Resume(children: seq<Expr>, used: nat, tail: Result<(seq<Expr>, nat)>): Result<(seq<Expr>, nat)> {
    if tail.Err? then Err else Ok((children + tail.value.0, used + tail.value.1))
  }

  lemma ResumeStart(r: Result<(seq<Expr>, nat)>)
    ensures Resume([], 0, r) == r
  {
    assert r.Ok? ==> [] + r.value.0 == r.value.0;
  }

  lemma ResumeNext(children: seq<Expr>, used: nat, e: Expr, n: nat, rest: Result<(seq<Expr>, nat)>)
    ensures Resume(children, used, if rest.Err? then Err else Ok(([e] + rest.value.0, n + rest.value.1)))
            == Resume(children + [e], used + n, rest)
  {
    assert rest.Ok? ==> children + ([e] + rest.value.0) == children + [e] + rest.value.0;
  }

  /** The loop over the children: `used` is threaded from one to the next. */
  method ParseChildren(d: Digester, items: seq<Json>, depth: nat, remaining: nat)
    returns (result: Result<(seq<Expr>, nat)>)
    requires depth <= MAX_DEPTH + 1
    ensures result == ParseAll(d, items, depth, remaining)
    decreases MAX_DEPTH + 1 - depth, 1
  {
    hide Parse, Resume;
    var children: seq<Expr> := [];
    var used: nat := 0;
    assert items[0..] == items;
    ResumeStart(ParseAll(d, items, depth, remaining));
    for i := 0 to |items|
      invariant used <= remaining
      invariant ParseAll(d, items, depth, remaining) ==
                Resume(children, used, ParseAll(d, items[i..], depth, remaining - used))
    {
      assert items[i..][0] == items[i] && items[i..][1..] == items[i + 1..];
      var parsed := FromDict(d, items[i], depth, remaining - used);
      if parsed.Err? {
        ResumeErr(children, used);
        return Err;
      }
      ResumeNext(children, used, parsed.value.0, parsed.value.1,
                 ParseAll(d, items[i + 1..], depth, remaining - used - parsed.value.1));
      children := children + [parsed.value.0];
      used := used + parsed.value.1;
    }
    assert items[|items|..] == [];
    ResumeEnd(children, used);
    return Ok((children, used));
  }

  lemma ResumeErr(children: seq<Expr>, used: nat)
    ensures Resume(children, used, Err) == Err
  {
  }

  lemma ResumeEnd(children: seq<Expr>, used: nat)
    ensures Resume(children, used, Ok(([], 0))) == Ok((children, used))
  {
    assert children + [] == children;
  }

  /** `_from_dict`. */
  method FromDict(d: Digester, j: Json, depth: nat, remaining: nat) returns (result: Result<(Expr, nat)>)
    requires depth <= MAX_DEPTH + 1
    ensures result == Parse(d, j, depth, remaining)
    decreases MAX_DEPTH + 1 - depth, 0
  {
    hide ReadNode, Finish, Build;
    if depth > MAX_DEPTH || remaining < 1 {
      return Err;
    }
    var read := ReadNode(j);
    if read.Err? {
      return Err;
    }
    var children := ParseChildren(d, read.value.items, depth + 1, remaining - 1);
    if children.Err? {
      return Err;
    }
    var e := Finish(d, read.value, Build(d, read.value.op, read.value.ref, read.value.value, children.value.0));
    if e.Err? {
      return Err;
    }
    return Ok((e.value, 1 + children.value.1));
  }

  ghost predicate WithinDepth(pending: seq<(Expr, nat)>) {
    forall i | 0 <= i < |pending| :: pending[i].1 + Depth(pending[i].0) - 1 <= MAX_DEPTH
  }

  function PendingNodes(pending: seq<(Expr, nat)>): nat {
    if pending == [] then 0 else PendingNodes(pending[..|pending| - 1]) + Nodes(pending[|pending| - 1].0)
  }

  function Tagged(es: seq<Expr>, depth: nat): (r: seq<(Expr, nat)>)
    ensures |r| == |es|
  {
    seq(|es|, i requires 0 <= i < |es| => (es[i], depth))
  }

  lemma {:induction false} PendingExtend(pending: seq<(Expr, nat)>, es: seq<Expr>, depth: nat)
    ensures PendingNodes(pending + Tagged(es, depth)) == PendingNodes(pending) + SumNodes(es)
    decreases |es|
  {
    if es == [] {
      assert pending + Tagged(es, depth) == pending;
    } else {
      var p := pending + [(es[0], depth)];
      PendingExtend(p, es[1..], depth);
      assert p[..|p| - 1] == pending;
      assert pending + Tagged(es, depth) == p + Tagged(es[1..], depth);
    }
  }

  lemma {:induction false} DepthExtend(es: seq<Expr>, depth: nat)
    ensures WithinDepth(Tagged(es, depth + 1)) <==> MaxDepth(es) == 0 || depth + MaxDepth(es) <= MAX_DEPTH
  {
    var t := Tagged(es, depth + 1);
    if es != [] {
      DepthExtend(es[1..], depth);
      var u := Tagged(es[1..], depth + 1);
      assert t == [t[0]] + u;
      WithinDepthSplit([t[0]], u);
      assert WithinDepth([t[0]]) <==> depth + 1 + Depth(es[0]) - 1 <= MAX_DEPTH;
    }
  }

  lemma WithinDepthSplit(p: seq<(Expr, nat)>, q: seq<(Expr, nat)>)
    ensures WithinDepth(p + q) <==> WithinDepth(p) && WithinDepth(q)
  {
    if WithinDepth(p + q) {
      forall i | 0 <= i < |p| ensures p[i].1 + Depth(p[i].0) - 1 <= MAX_DEPTH {
        assert (p + q)[i] == p[i];
      }
      forall i | 0 <= i < |q| ensures q[i].1 + Depth(q[i].0) - 1 <= MAX_DEPTH {
        assert (p + q)[|p| + i] == q[i];
      }
    }
  }

  /** Popping one entry and pushing its children keeps both totals. */
  lemma PopPush(pending: seq<(Expr, nat)>)
    requires pending != []
    ensures var (node, depth) := pending[|pending| - 1];
            var next := pending[..|pending| - 1] + Tagged(node.children, depth + 1);
            && PendingNodes(pending) == PendingNodes(next) + 1
            && (depth <= MAX_DEPTH ==> (WithinDepth(pending) <==> WithinDepth(next)))
            && (depth > MAX_DEPTH ==> !WithinDepth(pending))
  {
    var (node, depth) := pending[|pending| - 1];
    var rest := pending[..|pending| - 1];
    PendingExtend(rest, node.children, depth + 1);
    WithinDepthSplit(rest, Tagged(node.children, depth + 1));
    WithinDepthSplit(rest, [(node, depth)]);
    assert pending == rest + [(node, depth)];
    DepthExtend(node.children, depth);
    assert WithinDepth([(node, depth)]) <==> depth + Depth(node) - 1 <= MAX_DEPTH;
  }

  /** `_validated_expression`: a work stack bounds a directly constructed tree before it is
      serialised and parsed again. */
  method ValidatedExpression(d: Digester, expression: Expr) returns (result: Result<Expr>)
    ensures result ==
            if Built(d, expression) && Depth(expression) <= MAX_DEPTH && Nodes(expression) <= MAX_NODES
            then Ok(expression) else Err
  {
    var pending := [(expression, 1)];
    var count := 0;
    assert pending[..0] == [];
    assert PendingNodes(pending) == Nodes(expression);
    while pending != []
      invariant count <= MAX_NODES
      invariant count + PendingNodes(pending) == Nodes(expression)
      invariant WithinDepth(pending) <==> Depth(expression) <= MAX_DEPTH
      decreases PendingNodes(pending)
    {
      var (node, depth) := pending[|pending| - 1];
      PopPush(pending);
      pending := pending[..|pending| - 1];
      count := count + 1;
      if count > MAX_NODES || depth > MAX_DEPTH {
        return Err;
      }
      pending := pending + Tagged(node.children, depth + 1);
    }
    RoundTrip(d, expression);
    var parsed := FromDict(d, ToDict(expression), 1, MAX_NODES);
    return if parsed.Ok? then Ok(parsed.value.0) else Err;
  }
}
