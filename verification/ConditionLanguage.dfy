/** The bounded condition tree: building, evaluating over a nested context, and its
    digest-bound serial form with the early budgets of the parser. */
module ConditionLanguage {
  import opened Prelude
  import opened JsonValue
  import opened Text

  const MAX_DEPTH: nat := 8
  const MAX_NODES: nat := 64
  const MAX_CHILDREN: nat := 16

  /** A finite JSON scalar. Booleans are never numbers. */
  datatype Scalar = Null | Bool(b: bool) | Num(n: real) | Str(s: string)

  /** A context value: mappings nest, arrays and scalars end a path. */
  datatype Value = Leaf(scalar: Scalar) | Arr(items: seq<Value>) | Obj(fields: map<string, Value>)

  datatype Operator = Exists | Eq | Ne | Lt | Lte | Gt | Gte | Contains | OneOf | All | AnyOf | Not
  datatype Operand = One(scalar: Scalar) | Many(scalars: seq<Scalar>)

  type HexDigest = s: string | LowerHex(s) witness HexZero(64)

  datatype Expr = Expr(op: Operator, ref: string, value: Operand, children: seq<Expr>, digest: HexDigest)

  function HexZero(n: nat): (s: string)
    ensures |s| == n && forall c | c in s :: c == '0'
  {
    seq(n, i => '0')
  }

  predicate LowerHex(s: string) {
    |s| == 64 && forall c | c in s :: '0' <= c <= '9' || 'a' <= c <= 'f'
  }

  // ----- references -----

  predicate Segment(s: string) {
    s != "" && 'a' <= s[0] <= 'z' && forall c | c in s :: 'a' <= c <= 'z' || '0' <= c <= '9' || c == '_' || c == '-'
  }

  /** `[a-z][a-z0-9_-]*(?:\.[a-z][a-z0-9_-]*){0,15}\Z` */
  predicate Reference(s: string) {
    |Split(s, '.')| <= 16 && forall p | p in Split(s, '.') :: Segment(p)
  }

  /** `_lookup`: resolve the segments one mapping at a time. */
  function Lookup(segments: seq<string>, cursor: Value): Option<Value> {
    if segments == [] then Some(cursor)
    else if cursor.Obj? && segments[0] in cursor.fields then Lookup(segments[1..], cursor.fields[segments[0]])
    else None
  }

  // ----- evaluation -----

  predicate ScalarEqual(left: Value, right: Scalar) {
    left.Leaf? && left.scalar == right
  }

  predicate Substring(needle: string, hay: string) {
    needle <= hay || (hay != "" && Substring(needle, hay[1..]))
  }

  predicate Compare(op: Operator, left: real, right: real) {
    match op
    case Lt => left < right
    case Lte => left <= right
    case Gt => left > right
    case _ => left >= right
  }

  /** One leaf operator applied to what the lookup found. */
  function Test(op: Operator, value: Operand, actual: Option<Value>): Result<bool> {
    if op == Exists then Ok(actual.Some?)
    else if actual.None? then Ok(false)
    else if op == OneOf then
      if value.Many? then Ok(exists s | s in value.scalars :: ScalarEqual(actual.value, s)) else Err
    else if value.Many? then Err
    else if op == Eq then Ok(ScalarEqual(actual.value, value.scalar))
    else if op == Ne then Ok(!ScalarEqual(actual.value, value.scalar))
    else if op == Contains then TestContains(actual.value, value.scalar)
    else TestOrder(op, actual.value, value.scalar)
  }

  function TestContains(actual: Value, wanted: Scalar): Result<bool> {
    if actual.Leaf? && actual.scalar.Str? && wanted.Str? then Ok(Substring(wanted.s, actual.scalar.s))
    else if actual.Arr? then Ok(exists item | item in actual.items :: ScalarEqual(item, wanted))
    else Err
  }

  function TestOrder(op: Operator, actual: Value, bound: Scalar): Result<bool> {
    if actual.Leaf? && actual.scalar.Num? && bound.Num? then Ok(Compare(op, actual.scalar.n, bound.n)) else Err
  }

  // ----- what the leaf operators mean -----

  predicate IsLeaf(e: Expr) {
    e.op != All && e.op != AnyOf && e.op != Not
  }

  /** The leaf operator is defined on the value found. */
  ghost predicate InDomain(op: Operator, operand: Operand, actual: Value) {
    match op
    case Exists => true
    case OneOf => operand.Many?
    case Eq => operand.One?
    case Ne => operand.One?
    case Contains => operand.One? && (actual.Arr? || (IsText(actual) && operand.scalar.Str?))
    case _ => operand.One? && actual.Leaf? && actual.scalar.Num? && operand.scalar.Num?
  }

  predicate IsText(v: Value) {
    v.Leaf? && v.scalar.Str?
  }

  /** What the leaf operator says about it. */
  ghost predicate Satisfies(op: Operator, operand: Operand, actual: Value)
    requires InDomain(op, operand, actual)
  {
    match op
    case Exists => true
    case Eq => actual == Leaf(operand.scalar)
    case Ne => actual != Leaf(operand.scalar)
    case OneOf => exists s | s in operand.scalars :: actual == Leaf(s)
    case Contains =>
      if actual.Arr? then Leaf(operand.scalar) in actual.items
      else exists before, after :: actual.scalar.s == before + operand.scalar.s + after
    case Lt => actual.scalar.n < operand.scalar.n
    case Lte => actual.scalar.n <= operand.scalar.n
    case Gt => operand.scalar.n < actual.scalar.n
    case _ => operand.scalar.n <= actual.scalar.n
  }

  lemma {:induction false} SubstringExact(needle: string, hay: string)
    ensures Substring(needle, hay) <==> exists before, after :: hay == before + needle + after
  {
    if needle <= hay {
      assert hay == [] + needle + hay[|needle|..];
    } else if hay != "" {
      SubstringExact(needle, hay[1..]);
      if before, after :| hay[1..] == before + needle + after {
        assert hay == ([hay[0]] + before) + needle + after;
      }
      if before, after :| hay == before + needle + after {
        assert before != [];
        assert hay[1..] == before[1..] + needle + after;
      }
    }
  }

  /** A leaf raises exactly outside its domain, is false on a missing value, and otherwise says
      what its operator means. */
  lemma TestExact(e: Expr, actual: Option<Value>)
    requires IsLeaf(e)
    ensures Test(e.op, e.value, actual) ==
            if actual.None? then Ok(false)
            else if InDomain(e.op, e.value, actual.value) then Ok(Satisfies(e.op, e.value, actual.value))
            else Err
  {
    if actual.Some? && IsText(actual.value) && e.value.One? && e.value.scalar.Str? {
      SubstringExact(e.value.scalar.s, actual.value.scalar.s);
    }
  }

  /** The values met on the way down the segments. */
  ghost predicate Leads(path: seq<Value>, segments: seq<string>) {
    && |path| == |segments| + 1
    && forall i | 0 <= i < |segments| ::
         path[i].Obj? && segments[i] in path[i].fields && path[i].fields[segments[i]] == path[i + 1]
  }

  ghost predicate Found(segments: seq<string>, context: Value, v: Value) {
    exists path :: Leads(path, segments) && path[0] == context && path[|segments|] == v
  }

  /** A lookup finds exactly what a path of mappings leads to. */
  lemma {:induction false} LookupExact(segments: seq<string>, context: Value, v: Value)
    ensures Lookup(segments, context) == Some(v) <==> Found(segments, context, v)
  {
    hide Found;
    if segments == [] {
      FoundHere(context, v);
    } else {
      FoundBelow(segments, context, v);
      if context.Obj? && segments[0] in context.fields {
        LookupExact(segments[1..], context.fields[segments[0]], v);
      }
    }
  }

  lemma FoundHere(context: Value, v: Value)
    ensures Found([], context, v) <==> context == v
  {
    assert Leads([context], []);
  }

  lemma FoundBelow(segments: seq<string>, context: Value, v: Value)
    requires segments != []
    ensures Found(segments, context, v) <==>
            && context.Obj? && segments[0] in context.fields
            && Found(segments[1..], context.fields[segments[0]], v)
  {
    if path :| Leads(path, segments) && path[0] == context && path[|segments|] == v {
      assert Leads(path[1..], segments[1..]) && path[1..][|segments| - 1] == v;
    }
    if context.Obj? && segments[0] in context.fields && Found(segments[1..], context.fields[segments[0]], v) {
      FoundAbove(segments, context, v);
    }
  }

  lemma FoundAbove(segments: seq<string>, context: Value, v: Value)
    requires segments != [] && context.Obj? && segments[0] in context.fields
    requires Found(segments[1..], context.fields[segments[0]], v)
    ensures Found(segments, context, v)
  {
    var path :| Leads(path, segments[1..]) && path[0] == context.fields[segments[0]] && path[|segments| - 1] == v;
    assert Leads([context] + path, segments) && ([context] + path)[|segments|] == v;
  }

  /** `evaluate`: groups stop at the first decisive child, so later children may not even run. */
  function Evaluate(e: Expr, context: Value): Result<bool>
    decreases e, 1
  {
    match e.op
    case All => EvaluateGroup(e.children, context, false)
    case AnyOf => EvaluateGroup(e.children, context, true)
    case Not =>
      if e.children == [] then Err
      else
        var r := Evaluate(e.children[0], context);
        if r.Ok? then Ok(!r.value) else Err
    case _ => Test(e.op, e.value, Lookup(Split(e.ref, '.'), context))
  }

  function EvaluateGroup(es: seq<Expr>, context: Value, decisive: bool): Result<bool>
    decreases es, 0
  {
    if es == [] then Ok(!decisive)
    else
      var r := Evaluate(es[0], context);
      if r.Err? || r.value == decisive then r else EvaluateGroup(es[1..], context, decisive)
  }

  // ----- shape and construction -----

  function Max(a: nat, b: nat): nat { if a <= b then b else a }

  function Depth(e: Expr): (d: nat)
    ensures d >= 1
    decreases e, 1
  {
    1 + MaxDepth(e.children)
  }

  function MaxDepth(es: seq<Expr>): nat
    decreases es, 0
  {
    if es == [] then 0 else Max(Depth(es[0]), MaxDepth(es[1..]))
  }

  function Nodes(e: Expr): (n: nat)
    ensures n >= 1
    decreases e, 1
  {
    1 + SumNodes(e.children)
  }

  function SumNodes(es: seq<Expr>): (n: nat)
    ensures n >= |es|
    decreases es, 0
  {
    if es == [] then 0 else Nodes(es[0]) + SumNodes(es[1..])
  }

  /** `canonical_digest`, of which only its text form is assumed. */
  type Digester = Json -> HexDigest

  predicate Comparison(op: Operator) {
    op in {Eq, Ne, Lt, Lte, Gt, Gte, Contains}
  }

  /** The operator's own rules for its reference, value and children. */
  predicate NodeRules(op: Operator, ref: string, value: Operand, children: nat) {
    if op == Exists then Reference(ref) && value == One(Null) && children == 0
    else if Comparison(op) then Reference(ref) && value.One? && children == 0
    else if op == OneOf then
      && Reference(ref) && value.Many? && value.scalars != [] && children == 0
      && forall i, j | 0 <= i < j < |value.scalars| :: value.scalars[i] != value.scalars[j]
    else if op == Not then ref == "" && value == One(Null) && children == 1
    else ref == "" && value == One(Null) && 1 <= children <= MAX_CHILDREN
  }

  function ScalarJson(s: Scalar): Json {
    match s
    case Null => JNull
    case Bool(b) => JBool(b)
    case Num(n) => JNum(n)
    case Str(t) => JStr(t)
  }

  function ScalarOf(j: Json): Result<Scalar> {
    match j
    case JNull => Ok(Null)
    case JBool(b) => Ok(Bool(b))
    case JNum(n) => Ok(Num(n))
    case JStr(t) => Ok(Str(t))
    case _ => Err
  }

  function OperandJson(v: Operand): Json {
    if v.One? then ScalarJson(v.scalar)
    else JArr(seq(|v.scalars|, i requires 0 <= i < |v.scalars| => ScalarJson(v.scalars[i])))
  }

  function Name(op: Operator): string {
    match op
    case Exists => "exists"
    case Eq => "eq"
    case Ne => "ne"
    case Lt => "lt"
    case Lte => "lte"
    case Gt => "gt"
    case Gte => "gte"
    case Contains => "contains"
    case OneOf => "one-of"
    case All => "all"
    case AnyOf => "any"
    case Not => "not"
  }

  function OperatorOf(name: string): Result<Operator> {
    if name == "exists" then Ok(Exists)
    else if name == "eq" then Ok(Eq)
    else if name == "ne" then Ok(Ne)
    else if name == "lt" then Ok(Lt)
    else if name == "lte" then Ok(Lte)
    else if name == "gt" then Ok(Gt)
    else if name == "gte" then Ok(Gte)
    else if name == "contains" then Ok(Contains)
    else if name == "one-of" then Ok(OneOf)
    else if name == "all" then Ok(All)
    else if name == "any" then Ok(AnyOf)
    else if name == "not" then Ok(Not)
    else Err
  }

  const SCHEMA_VERSION: string := "1.1"

  /** The digested body of one node. */
  function Body(op: Operator, ref: string, value: Operand, children: seq<Json>): seq<Field> {
    [Field("schema_version", JStr(SCHEMA_VERSION)), Field("op", JStr(Name(op))), Field("ref", JStr(ref)),
     Field("value", OperandJson(value)), Field("children", JArr(children))]
  }

  function ToDict(e: Expr): Json
    decreases e, 1
  {
    JObj(Body(e.op, e.ref, e.value, ToDicts(e.children)) + [Field("expression_digest", JStr(e.digest))])
  }

  function ToDicts(es: seq<Expr>): (js: seq<Json>)
    ensures |js| == |es|
    decreases es, 0
  {
    if es == [] then [] else [ToDict(es[0])] + ToDicts(es[1..])
  }

  /** `build` without its final shape check. */
  function Construct(d: Digester, op: Operator, ref: string, value: Operand, children: seq<Expr>): Result<Expr> {
    if NodeRules(op, ref, value, |children|)
    then Ok(Expr(op, ref, value, children, d(JObj(Body(op, ref, value, ToDicts(children))))))
    else Err
  }

  function Build(d: Digester, op: Operator, ref: string, value: Operand, children: seq<Expr>): Result<Expr> {
    var e := Construct(d, op, ref, value, children);
    if e.Ok? && Depth(e.value) <= MAX_DEPTH && Nodes(e.value) <= MAX_NODES then e else Err
  }

  /** e is what Construct returns for its own parts, at every node. */
  ghost predicate Built(d: Digester, e: Expr)
    decreases e, 1
  {
    Construct(d, e.op, e.ref, e.value, e.children) == Ok(e) && AllBuilt(d, e.children)
  }

  ghost predicate AllBuilt(d: Digester, es: seq<Expr>)
    decreases es, 0
  {
    es == [] || (Built(d, es[0]) && AllBuilt(d, es[1..]))
  }
}
