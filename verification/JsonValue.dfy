/** Parsed JSON; an object keeps its members in order. */
module JsonValue {
  datatype Json =
    | JNull
    | JBool(b: bool)
    | JNum(n: real)
    | JStr(s: string)
    | JArr(items: seq<Json>)
    | JObj(fields: seq<Field>)

  datatype Field = Field(name: string, value: Json)

  /** `data.get(key)` */
  function Get(fields: seq<Field>, key: string): Json {
    if fields == [] then JNull else if fields[0].name == key then fields[0].value else Get(fields[1..], key)
  }

  function Keys(fields: seq<Field>): set<string> {
    set f | f in fields :: f.name
  }

  lemma {:induction false} GetAt(fields: seq<Field>, i: nat)
    requires i < |fields| && forall j | 0 <= j < i :: fields[j].name != fields[i].name
    ensures Get(fields, fields[i].name) == fields[i].value && fields[i].name in Keys(fields)
  {
    if i > 0 {
      GetAt(fields[1..], i - 1);
    }
    assert fields[i] in fields;
  }

  lemma {:induction false} GetMissing(fields: seq<Field>, key: string)
    requires key !in Keys(fields)
    ensures Get(fields, key) == JNull
  {
    if fields != [] {
      assert fields[0] in fields && forall f | f in fields[1..] :: f in fields;
      GetMissing(fields[1..], key);
    }
  }
}
