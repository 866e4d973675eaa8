/** JSON trees as Go's encoding/json decodes them into `interface{}`, and the
    comparison of two trees used by the diff. */
module Json {
  import opened Wrappers
  import opened Sets

  datatype Value =
    | Null
    | Bool(b: bool)
    | Num(n: real)
    | Str(s: string)
    | Arr(items: seq<Value>)
    | Obj(fields: map<string, Value>)

  type Object = map<string, Value>

  function At(m: Object, key: string): Option<Value> {
    if key in m then Some(m[key]) else None
  }

  /** The string stored under a key; the empty string when the key is missing
      or holds something else. */
  function GetString(m: Object, key: string): string {
    if key in m && m[key].Str? then m[key].s else ""
  }

  /** The string under a key, if any. */
  function Text(m: Object, key: string): string {
    match At(m, key)
    case Some(Str(s)) => s
    case _ => ""
  }

  lemma GetStringIsText(m: Object, key: string)
    ensures GetString(m, key) == Text(m, key)
  {
  }

  /** The key holds exactly this string. */
  predicate HoldsString(m: Object, key: string, s: string) {
    key in m && m[key] == Str(s)
  }

  /** The recursive comparison of the diff. Objects are compared by size and by
      inclusion of the left in the right only. */
  predicate InterfaceEqual(a: Value, b: Value)
    decreases a
  {
    match a
    case Obj(fields) =>
      b.Obj? && |fields| == |b.fields| &&
      forall k | k in fields :: k in b.fields && InterfaceEqual(fields[k], b.fields[k])
    case Arr(items) =>
      b.Arr? && |items| == |b.items| &&
      forall i | 0 <= i < |items| :: InterfaceEqual(items[i], b.items[i])
    case _ => a == b
  }

  /** Size plus one-way inclusion is enough: the comparison is structural equality. */
  lemma {:induction false} InterfaceEqualIsEquality(a: Value, b: Value)
    ensures InterfaceEqual(a, b) <==> a == b
    decreases a
  {
    match a
    case Obj(fields) =>
      if b.Obj? {
        forall k | k in fields && k in b.fields
          ensures InterfaceEqual(fields[k], b.fields[k]) <==> fields[k] == b.fields[k]
        {
          InterfaceEqualIsEquality(fields[k], b.fields[k]);
        }
        if InterfaceEqual(a, b) {
          assert |fields.Keys| == |b.fields.Keys|;
          SubsetCardinality(fields.Keys, b.fields.Keys);
          assert fields == b.fields;
        }
      }
    case Arr(items) =>
      if b.Arr? {
        forall i | 0 <= i < |items| && i < |b.items|
          ensures InterfaceEqual(items[i], b.items[i]) <==> items[i] == b.items[i]
        {
          InterfaceEqualIsEquality(items[i], b.items[i]);
        }
      }
    case _ =>
  }
}
