/** Lists of JSON objects addressed by a key, as both config writers keep them:
    entries that are not objects are skipped, the first match is the one read or
    replaced, and deletion drops every match. */
module Entries {
  import opened Wrappers
  import opened Json

  datatype Selector =
    | ByTag(tag: string)         // an inbound, by its tag
    | BySubID(subID: string)     // a user, as the desired-state manager matches it
    | ByAnyID(id: string)        // a user, as the REST client matches it

  predicate UserMapMatchesSubID(m: Object, subID: string) {
    HoldsString(m, "subId", subID) || HoldsString(m, "sub_id", subID) ||
    HoldsString(m, "uuid", subID) || HoldsString(m, "name", subID)
  }

  predicate UserMatchesSubID(m: Object, subID: string) {
    GetString(m, "subId") == subID || GetString(m, "name") == subID ||
    GetString(m, "email") == subID || GetString(m, "uuid") == subID
  }

  predicate Selects(sel: Selector, v: Value) {
    v.Obj? &&
    match sel
    case ByTag(tag) => GetString(v.fields, "tag") == tag
    case BySubID(subID) => UserMapMatchesSubID(v.fields, subID)
    case ByAnyID(id) => UserMatchesSubID(v.fields, id)
  }

  predicate IsInbound(v: Value, tag: string) {
    v.Obj? && Text(v.fields, "tag") == tag
  }

  /** The manager takes the entry for the user. */
  predicate AnswersTo(v: Value, subID: string) {
    v.Obj? && exists key | key in {"subId", "sub_id", "uuid", "name"} :: At(v.fields, key) == Some(Str(subID))
  }

  /** The REST client does. */
  predicate AnswersToAny(v: Value, id: string) {
    v.Obj? && exists key | key in {"subId", "name", "email", "uuid"} :: Text(v.fields, key) == id
  }

  /** Which keys an entry answers under: the manager does not look at addresses, the
      REST client not at `sub_id`. */
  lemma SelectsExactly(v: Value, id: string)
    ensures Selects(ByTag(id), v) <==> IsInbound(v, id)
    ensures Selects(BySubID(id), v) <==> AnswersTo(v, id)
    ensures Selects(ByAnyID(id), v) <==> AnswersToAny(v, id)
  {
    if Selects(BySubID(id), v) {
      assert At(v.fields, "subId") == Some(Str(id)) || At(v.fields, "sub_id") == Some(Str(id)) ||
             At(v.fields, "uuid") == Some(Str(id)) || At(v.fields, "name") == Some(Str(id));
    }
    if Selects(ByAnyID(id), v) {
      assert Text(v.fields, "subId") == id || Text(v.fields, "name") == id || Text(v.fields, "email") == id || Text(v.fields, "uuid") == id;
    }
  }

  function Lookup(list: seq<Value>, sel: Selector): (r: Option<Value>)
    ensures r.Some? ==> r.value in list && r.value.Obj? && Selects(sel, r.value)
    ensures r.None? <==> forall e | e in list :: !Selects(sel, e)
  {
    if list == [] then None
    else if Selects(sel, list[0]) then Some(list[0])
    else
      var r := Lookup(list[1..], sel);
      assert forall e | e in list :: e == list[0] || e in list[1..];
      r
  }

  function ReplaceFirst(list: seq<Value>, sel: Selector, e: Value): (r: seq<Value>)
    ensures |r| == |list|
    ensures forall x | x in r :: x in list || x == e
  {
    if list == [] then []
    else if Selects(sel, list[0]) then [e] + list[1..]
    else [list[0]] + ReplaceFirst(list[1..], sel, e)
  }

  function Reject(list: seq<Value>, sel: Selector): seq<Value> {
    if list == [] then []
    else if Selects(sel, list[0]) then Reject(list[1..], sel)
    else [list[0]] + Reject(list[1..], sel)
  }

  /** Rejection drops exactly what is selected. */
  lemma {:induction false} RejectMembers(list: seq<Value>, sel: Selector)
    ensures forall x :: x in Reject(list, sel) <==> x in list && !Selects(sel, x)
    ensures Lookup(list, sel).None? ==> Reject(list, sel) == list
  {
    if list != [] {
      assert forall x :: x in list <==> x == list[0] || x in list[1..];
      RejectMembers(list[1..], sel);
    }
  }

  // What the three edits do to what any selector reads.

  lemma {:induction false} LookupAppend(list: seq<Value>, e: Value, sel: Selector)
    ensures Lookup(list + [e], sel) ==
            if Lookup(list, sel).Some? then Lookup(list, sel)
            else if Selects(sel, e) then Some(e) else None
  {
    if list != [] {
      assert (list + [e])[1..] == list[1..] + [e];
      LookupAppend(list[1..], e, sel);
    }
  }

  lemma {:induction false} LookupReplace(list: seq<Value>, sel: Selector, e: Value, other: Selector)
    requires Lookup(list, sel).Some?
    requires other == sel ==> Selects(sel, e)
    requires other != sel ==> !Selects(other, e) && !Selects(other, Lookup(list, sel).value)
    ensures Lookup(ReplaceFirst(list, sel, e), other) ==
            if other == sel then Some(e) else Lookup(list, other)
  {
    if !Selects(sel, list[0]) {
      LookupReplace(list[1..], sel, e, other);
    }
  }

  lemma {:induction false} LookupReject(list: seq<Value>, sel: Selector, other: Selector)
    requires other != sel ==> forall x | x in list :: !(Selects(sel, x) && Selects(other, x))
    ensures Lookup(Reject(list, sel), other) == if other == sel then None else Lookup(list, other)
  {
    if list != [] {
      LookupReject(list[1..], sel, other);
    }
  }

  // Lists in which a selector finds no second entry.

  predicate AtMostOne(list: seq<Value>, sel: Selector) {
    list == [] ||
    if Selects(sel, list[0]) then Lookup(list[1..], sel).None? else AtMostOne(list[1..], sel)
  }

  lemma {:induction false} OneOnly(list: seq<Value>, sel: Selector, v: Value)
    requires AtMostOne(list, sel) && v in list && Selects(sel, v)
    ensures Lookup(list, sel) == Some(v)
  {
    if !Selects(sel, list[0]) || v != list[0] {
      assert v in list[1..];
      if !Selects(sel, list[0]) { OneOnly(list[1..], sel, v); }
    }
  }

  lemma {:induction false} OneInAppend(list: seq<Value>, e: Value, sel: Selector)
    requires AtMostOne(list, sel) && (Lookup(list, sel).None? || !Selects(sel, e))
    ensures AtMostOne(list + [e], sel)
  {
    if list != [] {
      assert (list + [e])[1..] == list[1..] + [e];
      if Selects(sel, list[0]) { LookupAppend(list[1..], e, sel); } else { OneInAppend(list[1..], e, sel); }
    } else {
      assert ([] + [e])[1..] == [];
    }
  }

  lemma {:induction false} OneInReplace(list: seq<Value>, sel: Selector, e: Value, other: Selector)
    requires AtMostOne(list, other) && Lookup(list, sel).Some?
    requires other != sel ==> !Selects(other, e)
    ensures AtMostOne(ReplaceFirst(list, sel, e), other)
  {
    if Selects(sel, list[0]) {
      assert ([e] + list[1..])[1..] == list[1..];
      if Selects(other, list[0]) { NoneIsAtMostOne(list[1..], other); }
    } else {
      var rest := ReplaceFirst(list[1..], sel, e);
      assert ([list[0]] + rest)[1..] == rest;
      if Selects(other, list[0]) {
        NoneStaysNone(list[1..], sel, e, other);
      } else {
        OneInReplace(list[1..], sel, e, other);
      }
    }
  }

  lemma {:induction false} NoneIsAtMostOne(list: seq<Value>, sel: Selector)
    requires Lookup(list, sel).None?
    ensures AtMostOne(list, sel)
  {
    if list != [] { NoneIsAtMostOne(list[1..], sel); }
  }

  lemma NoneStaysNone(list: seq<Value>, sel: Selector, e: Value, other: Selector)
    requires Lookup(list, other).None? && (Selects(other, e) ==> other == sel && Lookup(list, sel).Some?)
    ensures Lookup(ReplaceFirst(list, sel, e), other).None?
  {
  }

  lemma {:induction false} OneInReject(list: seq<Value>, sel: Selector, other: Selector)
    requires AtMostOne(list, other)
    ensures AtMostOne(Reject(list, sel), other)
  {
    if list != [] {
      if Selects(other, list[0]) {
        RejectMembers(list[1..], sel);
        NoneIsAtMostOne(Reject(list[1..], sel), other);
        assert ([list[0]] + Reject(list[1..], sel))[1..] == Reject(list[1..], sel);
      } else {
        OneInReject(list[1..], sel, other);
        assert ([list[0]] + Reject(list[1..], sel))[1..] == Reject(list[1..], sel);
      }
    }
  }

  // The loops that compute the edits go by position.

  /** The position of what is found. */
  lemma {:induction false} FirstIndex(list: seq<Value>, sel: Selector) returns (i: nat)
    requires Lookup(list, sel).Some?
    ensures i < |list| && Selects(sel, list[i]) && forall j | 0 <= j < i :: !Selects(sel, list[j])
  {
    if Selects(sel, list[0]) {
      i := 0;
    } else {
      i := FirstIndex(list[1..], sel);
      i := i + 1;
    }
  }

  lemma {:induction false} LookupAt(list: seq<Value>, sel: Selector, i: nat)
    requires i < |list| && Selects(sel, list[i])
    requires forall j | 0 <= j < i :: !Selects(sel, list[j])
    ensures Lookup(list, sel) == Some(list[i])
    ensures forall e :: ReplaceFirst(list, sel, e) == list[i := e]
  {
    if i > 0 {
      LookupAt(list[1..], sel, i - 1);
    }
  }

  lemma {:induction false} RejectSnoc(list: seq<Value>, e: Value, sel: Selector)
    ensures Reject(list + [e], sel) == Reject(list, sel) + if Selects(sel, e) then [] else [e]
  {
    if list != [] {
      assert (list + [e])[1..] == list[1..] + [e];
      RejectSnoc(list[1..], e, sel);
    }
  }
}
