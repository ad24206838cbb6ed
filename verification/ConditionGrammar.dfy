/** Which trees can be built and which serial forms parse, said without the builder and the
    parser. */
module ConditionGrammar {
  import opened Prelude
  import opened JsonValue
  import opened Text
  import opened Ordering
  import opened ConditionLanguage
  import opened ConditionParser

  const LETTERS: string := "abcdefghijklmnopqrstuvwxyz"
  const MORE: string := LETTERS + "0123456789_-"
  const HEX: string := "0123456789abcdef"

  ghost predicate Spelt(p: string) {
    p != "" && p[0] in LETTERS && forall i | 1 <= i < |p| :: p[i] in MORE
  }

  ghost predicate Spells(segments: seq<string>, ref: string) {
    1 <= |segments| <= 16 && ref == Join(segments, '.') && forall p | p in segments :: Spelt(p)
  }

  lemma LetterExact(c: char)
    ensures c in LETTERS <==> 'a' <= c <= 'z'
  {
    if 'a' <= c <= 'z' {
      assert LETTERS[c as int - 97] == c;
    }
  }

  lemma MoreExact(c: char)
    ensures c in MORE <==> 'a' <= c <= 'z' || '0' <= c <= '9' || c == '_' || c == '-'
  {
    var rest := "0123456789_-";
    LetterExact(c);
    hide LETTERS;
    if '0' <= c <= '9' {
      assert rest[c as int - 48] == c;
    }
    assert rest[10] == '_' && rest[11] == '-';
    assert c in LETTERS + rest <==> c in LETTERS || c in rest;
  }

  lemma HexExact(c: char)
    ensures c in HEX <==> '0' <= c <= '9' || 'a' <= c <= 'f'
  {
    if '0' <= c <= '9' {
      assert HEX[c as int - 48] == c;
    } else if 'a' <= c <= 'f' {
      assert HEX[10 + c as int - 97] == c;
    }
  }

  /** A digest text is 64 lower-case hexadecimal digits. */
  lemma LowerHexExact(s: string)
    ensures LowerHex(s) <==> |s| == 64 && forall i | 0 <= i < |s| :: s[i] in HEX
  {
    forall i | 0 <= i < |s| ensures s[i] in s && (s[i] in HEX <==> '0' <= s[i] <= '9' || 'a' <= s[i] <= 'f') {
      HexExact(s[i]);
    }
    hide HEX;
  }

  lemma SegmentExact(p: string)
    ensures Segment(p) <==> Spelt(p)
    ensures Segment(p) ==> '.' !in p
  {
    hide LETTERS, MORE;
    forall i | 0 <= i < |p|
      ensures p[i] in p
      ensures p[i] in LETTERS <==> 'a' <= p[i] <= 'z'
      ensures p[i] in MORE <==> 'a' <= p[i] <= 'z' || '0' <= p[i] <= '9' || p[i] == '_' || p[i] == '-'
    {
      LetterExact(p[i]);
      MoreExact(p[i]);
    }
    if Spelt(p) {
      forall c | c in p ensures 'a' <= c <= 'z' || '0' <= c <= '9' || c == '_' || c == '-' {
        var i :| 0 <= i < |p| && p[i] == c;
      }
    }
  }

  /** A reference is one to sixteen segments joined by dots. */
  lemma ReferenceExact(ref: string)
    ensures Reference(ref) <==> exists segments :: Spells(segments, ref)
  {
    hide Segment, Spelt;
    forall p ensures (Segment(p) <==> Spelt(p)) && (Segment(p) ==> '.' !in p) {
      SegmentExact(p);
    }
    JoinSplit(ref, '.');
    if Reference(ref) {
      assert Spells(Split(ref, '.'), ref);
    }
    if segments :| Spells(segments, ref) {
      SplitJoin(segments, '.');
    }
  }

  // ----- what can be built -----

  ghost predicate RightReference(e: Expr) {
    if IsLeaf(e) then exists segments :: Spells(segments, e.ref) else e.ref == ""
  }

  ghost predicate RightValue(e: Expr) {
    match e.value
    case Many(xs) => e.op == OneOf && xs != [] && |Elems(xs)| == |xs|
    case One(x) => e.op != OneOf && (x == Null || (IsLeaf(e) && e.op != Exists))
  }

  ghost predicate RightChildren(e: Expr) {
    (if IsLeaf(e) then 0 else 1) <= |e.children| <= (if IsLeaf(e) then 0 else if e.op == Not then 1 else 16)
  }

  lemma NodeRulesExact(e: Expr)
    ensures NodeRules(e.op, e.ref, e.value, |e.children|) <==>
            RightReference(e) && RightValue(e) && RightChildren(e)
  {
    hide Reference;
    ReferenceExact(e.ref);
    if e.value.Many? {
      SizeMeansDistinct(e.value.scalars);
    }
  }

  /** A built tree has the right reference, value and number of children at every node, and each
      digest is that of the node's serial form without its last member. */
  lemma BuiltExact(d: Digester, e: Expr)
    ensures Built(d, e) <==>
            && RightReference(e) && RightValue(e) && RightChildren(e)
            && ToDict(e).JObj? && |ToDict(e).fields| == 6 && e.digest == d(JObj(ToDict(e).fields[..5]))
            && forall i | 0 <= i < |e.children| :: Built(d, e.children[i])
  {
    NodeRulesExact(e);
    hide NodeRules, Body, RightReference, RightValue, RightChildren;
    BodyLength(e);
    AllBuiltExact(d, e.children);
    assert Built(d, e) <==> Construct(d, e.op, e.ref, e.value, e.children) == Ok(e) && AllBuilt(d, e.children);
  }

  lemma BodyLength(e: Expr)
    ensures var body := Body(e.op, e.ref, e.value, ToDicts(e.children));
            |body| == 5 && ToDict(e) == JObj(body + [Field("expression_digest", JStr(e.digest))])
  {
  }

  lemma {:induction false} AllBuiltExact(d: Digester, es: seq<Expr>)
    ensures AllBuilt(d, es) <==> forall i | 0 <= i < |es| :: Built(d, es[i])
  {
    hide Built;
    if es != [] {
      AllBuiltExact(d, es[1..]);
      assert forall i | 1 <= i < |es| :: es[i] == es[1..][i - 1];
    }
  }

  // ----- what parses -----

  ghost predicate Has(j: Json, name: string, value: Json) {
    j.JObj? && Field(name, value) in j.fields
  }

  /** The six members of one node, in any order. */
  ghost predicate Written(j: Json, e: Expr, items: seq<Json>) {
    && j.JObj? && |j.fields| == 6
    && Has(j, "schema_version", JStr("1.1")) && Has(j, "op", JStr(Name(e.op))) && Has(j, "ref", JStr(e.ref))
    && Has(j, "value", OperandJson(e.value)) && Has(j, "expression_digest", JStr(e.digest))
    && Has(j, "children", JArr(items))
  }

  /** j is a serial form of e. */
  ghost predicate Writes(e: Expr, j: Json) {
    exists items :: Written(j, e, items) && |items| == |e.children| &&
                    forall i | 0 <= i < |items| :: Writes(e.children[i], items[i])
  }

  lemma {:induction false} GetHas(fields: seq<Field>, name: string, value: Json)
    requires Distinct(Names(fields))
    ensures Field(name, value) in fields <==> name in Keys(fields) && Get(fields, name) == value
  {
    if name in Keys(fields) {
      var f :| f in fields && f.name == name;
      var i :| 0 <= i < |fields| && fields[i] == f;
      assert forall k | 0 <= k < |fields| :: Names(fields)[k] == fields[k].name;
      GetAt(fields, i);
    }
  }

  function Names(fields: seq<Field>): (r: seq<string>)
    ensures |r| == |fields|
  {
    seq(|fields|, i requires 0 <= i < |fields| => fields[i].name)
  }

  lemma KeysNames(fields: seq<Field>)
    ensures Keys(fields) == Elems(Names(fields)) && |Keys(fields)| <= |fields|
    ensures Distinct(Names(fields)) <==> |Keys(fields)| == |fields|
  {
    var names := Names(fields);
    forall n ensures n in Keys(fields) <==> n in names {
      if n in Keys(fields) {
        var f :| f in fields && f.name == n;
        var i :| 0 <= i < |fields| && fields[i] == f;
        assert names[i] == n;
      }
      if n in names {
        var i :| 0 <= i < |names| && names[i] == n;
        assert fields[i] in fields;
      }
    }
    assert Keys(fields) == Elems(names);
    SizeMeansDistinct(names);
  }

  lemma SixKeys()
    ensures |FIELDS| == 6
  {
  }

  /** With six members that carry the six names, the value of each name is the only one. */
  lemma SixMembers(j: Json)
    requires j.JObj? && |j.fields| == 6 && Keys(j.fields) == FIELDS
    ensures forall name, value :: Has(j, name, value) <==> name in FIELDS && Get(j.fields, name) == value
  {
    KeysNames(j.fields);
    SixKeys();
    forall name, value ensures Has(j, name, value) <==> name in FIELDS && Get(j.fields, name) == value {
      GetHas(j.fields, name, value);
    }
  }

  lemma HasKeys(j: Json, e: Expr, items: seq<Json>)
    requires Written(j, e, items)
    ensures Keys(j.fields) == FIELDS
  {
    hide Name, OperandJson;
    var keys := Keys(j.fields);
    assert FIELDS <= keys;
    KeysNames(j.fields);
    SixKeys();
    SubsetFull(FIELDS, keys);
  }

  lemma SubsetFull(a: set<string>, b: set<string>)
    requires a <= b && |b| <= |a|
    ensures a == b
  {
    assert |b - a| == |b| - |a|;
  }

  lemma NameExact(name: string, op: Operator)
    ensures OperatorOf(name) == Ok(op) <==> name == Name(op)
  {
    NameBack(op);
  }

  lemma {:induction false} ScalarsRead(js: seq<Json>)
    requires ScalarsOf(js).Ok?
    ensures forall i | 0 <= i < |js| :: js[i] == ScalarJson(ScalarsOf(js).value[i])
  {
    if js != [] {
      ScalarsRead(js[1..]);
    }
  }

  lemma OperandExact(op: Operator, j: Json, v: Operand)
    ensures OperandOf(op, j) == Ok(v) <==> j == OperandJson(v) && (op == OneOf <==> v.Many?)
  {
    OperandBack(op, v);
    if op == OneOf && j.JArr? && OperandOf(op, j) == Ok(v) {
      ScalarsRead(j.items);
      assert j.items == OperandJson(v).items;
    }
  }

  function NodeOf(e: Expr, items: seq<Json>): Node {
    Node(e.op, e.ref, e.value, items, e.digest)
  }

  /** One node is read exactly from the six members that spell it. */
  lemma ReadExact(j: Json, e: Expr, items: seq<Json>)
    ensures ReadNode(j) == Ok(NodeOf(e, items)) <==> Written(j, e, items) && (e.op == OneOf <==> e.value.Many?)
  {
    hide Name, OperandJson, OperandOf, OperatorOf, Get, Keys, Has;
    if j.JObj? && |j.fields| == 6 && Keys(j.fields) == FIELDS {
      SixMembers(j);
      NodeFields(j, e, items);
    } else if Written(j, e, items) {
      HasKeys(j, e, items);
    }
  }

  lemma NodeFields(j: Json, e: Expr, items: seq<Json>)
    requires j.JObj? && |j.fields| == 6 && Keys(j.fields) == FIELDS
    ensures var f := j.fields;
            ReadNode(j) == Ok(NodeOf(e, items)) <==>
            && Get(f, "schema_version") == JStr("1.1") && Get(f, "op") == JStr(Name(e.op))
            && Get(f, "ref") == JStr(e.ref) && Get(f, "value") == OperandJson(e.value)
            && Get(f, "children") == JArr(items) && Get(f, "expression_digest") == JStr(e.digest)
            && (e.op == OneOf <==> e.value.Many?)
  {
    hide Name, OperandJson, OperandOf, OperatorOf, Get, Keys;
    var name := Get(j.fields, "op");
    if name.JStr? {
      NameExact(name.s, e.op);
    }
    OperandExact(e.op, Get(j.fields, "value"), e.value);
  }

  ghost predicate Parses(d: Digester, j: Json, e: Expr) {
    Built(d, e) && Writes(e, j)
  }

  /** Without budgets exactly the serial forms of built trees parse, each to its own tree. */
  lemma {:induction false} ParseExact(d: Digester, j: Json, e: Expr)
    ensures ParseFree(d, j) == Ok(e) <==> Parses(d, j, e)
    decreases Size(j), 0, 2
  {
    hide ParseFree, Parses;
    if ParseFree(d, j) == Ok(e) {
      ParsedWrites(d, j, e);
    }
    if Parses(d, j, e) {
      WrittenParses(d, j, e);
    }
  }

  lemma {:induction false} ParsedWrites(d: Digester, j: Json, e: Expr)
    requires ParseFree(d, j) == Ok(e)
    ensures Parses(d, j, e)
    decreases Size(j), 0, 0
  {
    hide ReadNode, Built, Construct, Written;
    ParsedIsBuilt(d, j);
    var node := ReadNode(j).value;
    NodeSmaller(j);
    FinishParts(d, node, ParseFrees(d, node.items).value);
    ReadExact(j, e, node.items);
    AllExact(d, node.items, e.children);
  }

  lemma FinishParts(d: Digester, node: Node, children: seq<Expr>)
    ensures var r := Finish(d, node, Construct(d, node.op, node.ref, node.value, children));
            r.Ok? ==> node == NodeOf(r.value, node.items) && r.value.children == children
  {
    hide NodeRules, Body;
  }

  lemma {:induction false} WrittenParses(d: Digester, j: Json, e: Expr)
    requires Parses(d, j, e)
    ensures ParseFree(d, j) == Ok(e)
    decreases Size(j), 0, 1
  {
    hide ReadNode, Written, NodeRules, Body;
    var items :| Written(j, e, items) && |items| == |e.children| &&
                 forall i | 0 <= i < |items| :: Writes(e.children[i], items[i]);
    ValueKind(d, e);
    ReadExact(j, e, items);
    NodeSmaller(j);
    AllBuiltExact(d, e.children);
    AllExact(d, items, e.children);
  }

  lemma ValueKind(d: Digester, e: Expr)
    requires Built(d, e)
    ensures e.op == OneOf <==> e.value.Many?
  {
    hide Body;
  }

  lemma {:induction false} AllExact(d: Digester, js: seq<Json>, es: seq<Expr>)
    ensures ParseFrees(d, js) == Ok(es) <==> |js| == |es| && forall i | 0 <= i < |js| :: Parses(d, js[i], es[i])
    decreases Sizes(js), 1, |js|
  {
    hide ParseFree, Parses;
    if js != [] && es != [] {
      ParseExact(d, js[0], es[0]);
      AllExact(d, js[1..], es[1..]);
      assert es == [es[0]] + es[1..];
      assert forall i | 1 <= i < |js| :: js[i] == js[1..][i - 1];
      assert forall i | 1 <= i < |es| :: es[i] == es[1..][i - 1];
    }
  }

  /** The parser itself: exactly those within both budgets. */
  lemma FromDictExact(d: Digester, j: Json, e: Expr, nodes: nat)
    ensures Parse(d, j, 1, MAX_NODES) == Ok((e, nodes)) <==>
            Built(d, e) && Writes(e, j) && Depth(e) <= 8 && Nodes(e) <= 64 && nodes == Nodes(e)
  {
    hide ParseFree, Parse, Writes, Built;
    BudgetExact(d, j, 1, MAX_NODES);
    ParseExact(d, j, e);
  }
}
