/** The desired-versus-current diff. Go's map iteration order is arbitrary, so a
    diff is specified as any list of changes that is right, complete and names
    each key once. */
module Diff {
  import opened Wrappers
  import opened Sets
  import opened Json
  import opened Models

  datatype ChangeType = Create | Update | Delete | Unknown(name: string)

  datatype Change<V> = Change(kind: ChangeType, item: V, previous: Option<V>)

  type InboundChange = Change<Inbound>
  type UserChange = Change<User>

  function InboundKey(ib: Inbound): string { ib.tag }

  function UserKey(u: User): string { u.subID }

  /** The map built from a list; a later entry with the same key wins. */
  function ByKey<V>(key: V -> string, items: seq<V>): (m: map<string, V>)
    ensures forall k | k in m :: key(m[k]) == k && m[k] in items
    ensures forall v | v in items :: key(v) in m
  {
    if items == [] then map[]
    else
      var v := items[|items| - 1];
      assert forall x | x in items :: x == v || x in items[..|items| - 1];
      ByKey(key, items[..|items| - 1])[key(v) := v]
  }

  lemma {:induction false} LaterWins<V>(key: V -> string, items: seq<V>, i: nat)
    requires i < |items| && forall j | i < j < |items| :: key(items[j]) != key(items[i])
    ensures key(items[i]) in ByKey(key, items) && ByKey(key, items)[key(items[i])] == items[i]
    decreases |items|
  {
    if i < |items| - 1 {
      var front := items[..|items| - 1];
      LaterWins(key, front, i);
    }
  }

  /** What a key gets: no change exactly when both sides agree on it. */
  ghost function Expected<V>(desired: map<string, V>, current: map<string, V>, k: string): Option<Change<V>> {
    if k in desired && k in current then
      if desired[k] == current[k] then None else Some(Change(Update, desired[k], Some(current[k])))
    else if k in desired then Some(Change(Create, desired[k], None))
    else if k in current then Some(Change(Delete, current[k], Some(current[k])))
    else None
  }

  ghost predicate IsDiff<V(!new)>(key: V -> string, desired: map<string, V>, current: map<string, V>, changes: seq<Change<V>>) {
    && (forall i | 0 <= i < |changes| :: Expected(desired, current, key(changes[i].item)) == Some(changes[i]))
    && (forall i, j | 0 <= i < j < |changes| :: key(changes[i].item) != key(changes[j].item))
    && (forall k | Expected(desired, current, k).Some? :: Expected(desired, current, k).value in changes)
  }

  // A diff is exactly a patch from the current to the desired state.

  function ApplyChange<V>(key: V -> string, m: map<string, V>, c: Change<V>): map<string, V> {
    if c.kind.Delete? then m - {key(c.item)} else m[key(c.item) := c.item]
  }

  function ApplyChanges<V>(key: V -> string, m: map<string, V>, changes: seq<Change<V>>): map<string, V>
    decreases |changes|
  {
    if changes == [] then m else ApplyChanges(key, ApplyChange(key, m, changes[0]), changes[1..])
  }

  lemma {:induction false} DiffIsPatch<V(!new)>(key: V -> string, desired: map<string, V>, current: map<string, V>, changes: seq<Change<V>>)
    requires forall k | k in desired :: key(desired[k]) == k
    requires forall k | k in current :: key(current[k]) == k
    requires IsDiff(key, desired, current, changes)
    ensures ApplyChanges(key, current, changes) == desired
    ensures changes == [] <==> desired == current
    decreases |changes|
  {
    if changes == [] {
      forall k ensures k in desired <==> k in current
               ensures k in desired ==> desired[k] == current[k]
      {
        assert Expected(desired, current, k).None?;
      }
      assert desired == current;
    } else {
      var c, k := changes[0], key(changes[0].item);
      assert Expected(desired, current, k).Some?;
      var next := ApplyChange(key, current, c);
      forall other ensures Expected(desired, next, other) ==
                           if other == k then None else Expected(desired, current, other)
      {
      }
      forall other | Expected(desired, next, other).Some?
        ensures Expected(desired, next, other).value in changes[1..]
      {
        assert Expected(desired, current, other).value in changes;
      }
      DiffIsPatch(key, desired, next, changes[1..]);
    }
  }

  predicate InboundsDiffer(a: Inbound, b: Inbound) {
    a.tag != b.tag || a.kind != b.kind || a.listen != b.listen || a.port != b.port ||
    |a.options| != |b.options| ||
    exists k | k in a.options :: !(k in b.options && InterfaceEqual(a.options[k], b.options[k]))
  }

  predicate UsersDiffer(a: User, b: User) {
    a.subID != b.subID || a.uuid != b.uuid || a.inboundTag != b.inboundTag ||
    a.email != b.email || a.enabled != b.enabled || a.flow != b.flow ||
    a.limitIP != b.limitIP || a.uploadLimit != b.uploadLimit || a.downloadLimit != b.downloadLimit ||
    a.resetAt.None? != b.resetAt.None? ||
    (a.resetAt.Some? && b.resetAt.Some? && a.resetAt.value != b.resetAt.value)
  }

  /** The comparisons never miss and never invent a difference. */
  lemma InboundsDifferIsInequality(a: Inbound, b: Inbound)
    ensures InboundsDiffer(a, b) <==> a != b
  {
    InterfaceEqualIsEquality(Obj(a.options), Obj(b.options));
  }

  lemma UsersDifferIsInequality(a: User, b: User)
    ensures UsersDiffer(a, b) <==> a != b
  {
  }

  method BuildMap<V>(key: V -> string, items: seq<V>) returns (m: map<string, V>)
    ensures m == ByKey(key, items)
  {
    m := map[];
    for i := 0 to |items|
      invariant m == ByKey(key, items[..i])
    {
      assert items[..i + 1][..i] == items[..i];
      m := m[key(items[i]) := items[i]];
    }
    assert items[..|items|] == items;
  }

  method DiffInbounds(desired: seq<Inbound>, current: seq<Inbound>) returns (changes: seq<InboundChange>)
    ensures IsDiff(InboundKey, ByKey(InboundKey, desired), ByKey(InboundKey, current), changes)
  {
    var desiredMap := BuildMap(InboundKey, desired);
    var currentMap := BuildMap(InboundKey, current);
    forall a, b ensures InboundsDiffer(a, b) <==> a != b { InboundsDifferIsInequality(a, b); }
    changes := DiffMaps(InboundKey, InboundsDiffer, desiredMap, currentMap);
  }

  method DiffUsers(desired: seq<User>, current: seq<User>) returns (changes: seq<UserChange>)
    ensures IsDiff(UserKey, ByKey(UserKey, desired), ByKey(UserKey, current), changes)
  {
    var desiredMap := BuildMap(UserKey, desired);
    var currentMap := BuildMap(UserKey, current);
    changes := DiffMaps(UserKey, UsersDiffer, desiredMap, currentMap);
  }

  /** The changes for the keys in the order in which they are visited. */
  ghost function ChangesFor<V(!new)>(desired: map<string, V>, current: map<string, V>, order: seq<string>): seq<Change<V>>
    decreases |order|
  {
    if order == [] then []
    else
      var k := order[|order| - 1];
      ChangesFor(desired, current, order[..|order| - 1]) +
      match Expected(desired, current, k) case None => [] case Some(c) => [c]
  }

  lemma Visit<V(!new)>(desired: map<string, V>, current: map<string, V>, order: seq<string>, k: string)
    requires Distinct(order) && k !in order
    ensures Distinct(order + [k])
    ensures forall x :: x in order + [k] <==> x in order || x == k
    ensures ChangesFor(desired, current, order + [k]) ==
            ChangesFor(desired, current, order) + match Expected(desired, current, k) case None => [] case Some(c) => [c]
  {
    assert (order + [k])[..|order|] == order;
  }

  /** The two loops of either diff, over the keys in any order. */
  method DiffMaps<V(!new)>(key: V -> string, differ: (V, V) -> bool, desired: map<string, V>, current: map<string, V>)
    returns (changes: seq<Change<V>>)
    requires forall a, b :: differ(a, b) <==> a != b
    requires forall k | k in desired :: key(desired[k]) == k
    requires forall k | k in current :: key(current[k]) == k
    ensures IsDiff(key, desired, current, changes)
  {
    changes := [];
    ghost var order: seq<string> := [];
    var keys := desired.Keys;
    while keys != {}
      invariant keys <= desired.Keys
      invariant forall k :: k in order <==> k in desired && k !in keys
      invariant Distinct(order)
      invariant changes == ChangesFor(desired, current, order)
      decreases |keys|
    {
      var k: string :| k in keys;
      Visit(desired, current, order, k);
      order := order + [k];
      if k in current {
        if differ(desired[k], current[k]) {
          changes := changes + [Change(Update, desired[k], Some(current[k]))];
        }
      } else {
        changes := changes + [Change(Create, desired[k], None)];
      }
      keys := keys - {k};
    }
    keys := current.Keys;
    while keys != {}
      invariant keys <= current.Keys
      invariant forall k :: k in order <==> k in desired || (k in current && k !in keys)
      invariant Distinct(order)
      invariant changes == ChangesFor(desired, current, order)
      decreases |keys|
    {
      var k: string :| k in keys;
      if k !in desired {
        Visit(desired, current, order, k);
        order := order + [k];
        changes := changes + [Change(Delete, current[k], Some(current[k]))];
      }
      keys := keys - {k};
    }
    ChangesForIsDiff(key, desired, current, order);
  }

  lemma ExpectedKey<V(!new)>(key: V -> string, desired: map<string, V>, current: map<string, V>)
    requires forall k | k in desired :: key(desired[k]) == k
    requires forall k | k in current :: key(current[k]) == k
    ensures forall k | Expected(desired, current, k).Some? :: key(Expected(desired, current, k).value.item) == k
  {
  }

  lemma {:induction false} ChangesForHold<V(!new)>(key: V -> string, desired: map<string, V>, current: map<string, V>, order: seq<string>)
    requires forall k | Expected(desired, current, k).Some? :: key(Expected(desired, current, k).value.item) == k
    requires Distinct(order)
    ensures var changes := ChangesFor(desired, current, order);
      && (forall c | c in changes :: key(c.item) in order && Expected(desired, current, key(c.item)) == Some(c))
      && (forall i, j | 0 <= i < j < |changes| :: key(changes[i].item) != key(changes[j].item))
      && (forall k | k in order && Expected(desired, current, k).Some? :: Expected(desired, current, k).value in changes)
    decreases |order|
  {
    hide Expected;
    if order != [] {
      var front, last := order[..|order| - 1], order[|order| - 1];
      assert order == front + [last] && last !in front;
      ChangesForHold(key, desired, current, front);
    }
  }

  lemma ChangesForIsDiff<V(!new)>(key: V -> string, desired: map<string, V>, current: map<string, V>, order: seq<string>)
    requires forall k | k in desired :: key(desired[k]) == k
    requires forall k | k in current :: key(current[k]) == k
    requires Distinct(order)
    ensures (forall k | k in desired || k in current :: k in order) ==>
              IsDiff(key, desired, current, ChangesFor(desired, current, order))
  {
    ExpectedKey(key, desired, current);
    ChangesForHold(key, desired, current, order);
    assert forall k | Expected(desired, current, k).Some? :: k in desired || k in current;
    hide Expected, ChangesFor, Distinct;
  }
}
