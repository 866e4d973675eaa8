/** What the view of a config leaves out: nothing but the order of inbounds and of
    users, and whether an empty list of users is there. */
module ConfigShown {
  import opened Json
  import opened Entries
  import opened Models
  import opened ConfigManager
  import opened SyncView

  /** The same inbound, but for the order of its users and an empty or absent list. */
  predicate SameInbound(a: Object, b: Object) {
    Body(a) == Body(b) && UsersInOptions(a) == UsersInOptions(b) && multiset(UsersOf(a)) == multiset(UsersOf(b))
  }

  /** Under every tag the same inbound. */
  ghost predicate SameInbounds(a: Object, b: Object) {
    forall tag :: SameUnder(tag, a, b)
  }

  // A list of users and its two parts.

  lemma KeyedTail(users: seq<Value>, ids: set<string>)
    requires users != [] && WellKeyed(users, ids)
    ensures WellKeyed(users[1..], ids)
  {
    hide Selects;
    assert forall v | v in users[1..] :: v in users;
    forall s | s in ids ensures AtMostOne(users[1..], BySubID(s)) {
      assert AtMostOne(users, BySubID(s));
      if Selects(BySubID(s), users[0]) { NoneIsAtMostOne(users[1..], BySubID(s)); }
    }
  }

  /** Each entry occurs as often as among the others, or once if it answers. */
  lemma {:induction false} EntryCount(users: seq<Value>, ids: set<string>, x: Value)
    requires WellKeyed(users, ids)
    ensures multiset(users)[x] == if Answers(x, ids) then (if x in users then 1 else 0) else multiset(OthersOf(users, ids))[x]
    ensures Answers(x, ids) ==> multiset(OthersOf(users, ids))[x] == 0
  {
    hide Selects;
    if users != [] {
      var rest := users[1..];
      assert users == [users[0]] + rest;
      KeyedTail(users, ids);
      EntryCount(rest, ids, x);
      if x == users[0] && Answers(x, ids) {
        var s :| s in ids && Selects(BySubID(s), x);
        assert AtMostOne(users, BySubID(s));
        assert x !in rest;
      }
    }
  }

  /** What a SubID in play finds is what the list holds under it. */
  lemma ViewedEntry(users: seq<Value>, ids: set<string>, v: Value, s: string)
    requires WellKeyed(users, ids) && s in ids && Selects(BySubID(s), v)
    ensures v in users <==> s in UsersView(users, ids) && UsersView(users, ids)[s] == v.fields
  {
    hide Selects, AtMostOne, Lookup;
    if v in users {
      OneOnly(users, BySubID(s), v);
    }
    SelectedIsObject(BySubID(s), v);
  }

  lemma SelectedIsObject(sel: Selector, v: Value)
    ensures Selects(sel, v) ==> v.Obj?
  {
  }

  /** The two parts determine the list but for its order, and it them. */
  lemma PartsAreList(a: seq<Value>, b: seq<Value>, ids: set<string>)
    requires WellKeyed(a, ids) && WellKeyed(b, ids)
    ensures multiset(a) == multiset(b) <==>
            UsersView(a, ids) == UsersView(b, ids) && multiset(OthersOf(a, ids)) == multiset(OthersOf(b, ids))
  {
    if multiset(a) == multiset(b) {
      SameMembers(a, b);
      SameView(a, b, ids);
      forall x ensures multiset(OthersOf(a, ids))[x] == multiset(OthersOf(b, ids))[x] {
        EntryCount(a, ids, x);
        EntryCount(b, ids, x);
      }
    }
    if UsersView(a, ids) == UsersView(b, ids) && multiset(OthersOf(a, ids)) == multiset(OthersOf(b, ids)) {
      hide WellKeyed, UsersView, OthersOf, Selects;
      forall x ensures multiset(a)[x] == multiset(b)[x] {
        EntryCount(a, ids, x);
        EntryCount(b, ids, x);
        if Answers(x, ids) {
          var s :| s in ids && Selects(BySubID(s), x);
          ViewedEntry(a, ids, x, s);
          ViewedEntry(b, ids, x, s);
        }
      }
    }
  }

  lemma SameMembers(a: seq<Value>, b: seq<Value>)
    requires multiset(a) == multiset(b)
    ensures forall x :: x in a <==> x in b
  {
    forall x ensures x in a <==> x in b {
      assert x in multiset(a) <==> x in multiset(b);
    }
  }

  lemma SameView(a: seq<Value>, b: seq<Value>, ids: set<string>)
    requires WellKeyed(a, ids) && WellKeyed(b, ids)
    requires forall x :: x in a <==> x in b
    ensures UsersView(a, ids) == UsersView(b, ids)
  {
    hide Selects, AtMostOne, Lookup;
    forall s | s in ids ensures Lookup(a, BySubID(s)) == Lookup(b, BySubID(s)) {
      if Lookup(a, BySubID(s)).Some? { OneOnly(b, BySubID(s), Lookup(a, BySubID(s)).value); }
    }
  }

  // The whole config.

  ghost predicate SameUnder(tag: string, a: Object, b: Object) {
    var m, n := Lookup(Inbounds(a), ByTag(tag)), Lookup(Inbounds(b), ByTag(tag));
    (m.Some? <==> n.Some?) && (m.Some? && n.Some? ==> SameInbound(m.value.fields, n.value.fields))
  }

  predicate SameAt(tag: string, a: View, b: View) {
    (tag in a <==> tag in b) && (tag in a && tag in b ==> a[tag] == b[tag])
  }

  lemma TagShown(a: Object, b: Object, scope: Scope, tag: string)
    requires Sound(a, scope) && Sound(b, scope)
    ensures SameUnder(tag, a, b) <==> SameAt(tag, ViewConfig(a, scope.ids), ViewConfig(b, scope.ids))
  {
    hide Lookup, UsersOf, Body, UsersInOptions, WellKeyed, OthersOf, UsersView, AtMostOne, Inbounds, ViewConfig;
    ViewedTags(a, scope, tag);
    ViewedTags(b, scope, tag);
    var m, n := Lookup(Inbounds(a), ByTag(tag)), Lookup(Inbounds(b), ByTag(tag));
    if m.Some? && n.Some? {
      PartsAreList(UsersOf(m.value.fields), UsersOf(n.value.fields), scope.ids);
    }
  }

  /** Sound configs with one view are one config but for order, and the other way round. */
  lemma ViewIsConfig(a: Object, b: Object, scope: Scope)
    requires Sound(a, scope) && Sound(b, scope)
    ensures ViewConfig(a, scope.ids) == ViewConfig(b, scope.ids) <==> SameInbounds(a, b)
  {
    hide Sound, ViewConfig, SameUnder;
    var v, w := ViewConfig(a, scope.ids), ViewConfig(b, scope.ids);
    forall tag ensures SameUnder(tag, a, b) <==> SameAt(tag, v, w) {
      TagShown(a, b, scope, tag);
    }
    if forall tag :: SameAt(tag, v, w) {
      forall tag ensures tag in v <==> tag in w
                 ensures tag in v ==> v[tag] == w[tag]
      {
        assert SameAt(tag, v, w);
      }
      assert v == w;
    }
  }

  // What no edit touches.

  /** The items of the list of inbounds that are no objects. */
  function Strays(items: seq<Value>): seq<Value> {
    if items == [] then [] else (if items[0].Obj? then [] else [items[0]]) + Strays(items[1..])
  }

  /** The config but for its inbounds. */
  predicate SameOutside(a: Object, b: Object) {
    a - {"inbounds"} == b - {"inbounds"} && Strays(Inbounds(a)) == Strays(Inbounds(b))
  }

  lemma {:induction false} StraysAppend(items: seq<Value>, e: Value)
    requires e.Obj?
    ensures Strays(items + [e]) == Strays(items)
  {
    if items != [] {
      assert (items + [e])[1..] == items[1..] + [e];
      StraysAppend(items[1..], e);
    } else {
      assert ([] + [e])[1..] == [];
    }
  }

  lemma {:induction false} StraysReplace(items: seq<Value>, sel: Selector, e: Value)
    requires e.Obj?
    ensures Strays(ReplaceFirst(items, sel, e)) == Strays(items)
  {
    if items != [] {
      SelectedIsObject(sel, items[0]);
      hide Selects;
      if Selects(sel, items[0]) {
        assert ([e] + items[1..])[1..] == items[1..];
      } else {
        var rest := ReplaceFirst(items[1..], sel, e);
        assert ([items[0]] + rest)[1..] == rest;
        StraysReplace(items[1..], sel, e);
      }
    }
  }

  lemma {:induction false} StraysReject(items: seq<Value>, sel: Selector)
    ensures Strays(Reject(items, sel)) == Strays(items)
  {
    if items != [] {
      SelectedIsObject(sel, items[0]);
      hide Selects;
      StraysReject(items[1..], sel);
      if !Selects(sel, items[0]) {
        var rest := Reject(items[1..], sel);
        assert ([items[0]] + rest)[1..] == rest;
      }
    }
  }

  /** Edits concern inbounds only. */
  lemma EditInside(cfg: Object, edit: Edit)
    requires Edited(cfg, edit).Ok?
    ensures SameOutside(Edited(cfg, edit).value, cfg)
  {
    hide Lookup, ReplaceFirst, Reject, Strays, UsersAccessor, SetUsers, PreserveUsers, InboundToMap, UserToMap;
    var changed := Edited(cfg, edit).value;
    assert changed - {"inbounds"} == cfg - {"inbounds"};
    match edit
    case AddInbound(ib) => StraysAppend(Inbounds(cfg), Obj(InboundToMap(ib)));
    case DeleteInbound(tag) => StraysReject(Inbounds(cfg), ByTag(tag));
    case UpdateInbound(ib) =>
      var found := Lookup(Inbounds(cfg), ByTag(ib.tag)).value.fields;
      StraysReplace(Inbounds(cfg), ByTag(ib.tag), Obj(PreserveUsers(found, InboundToMap(ib))));
    case _ =>
      var e := StoredBy(cfg, edit);
      StraysReplace(Inbounds(cfg), ByTag(edit.tag), Obj(e));
  }

  /** The inbound that an edit of users puts back. */
  lemma StoredBy(cfg: Object, edit: Edit) returns (e: Object)
    requires edit.AddUser? || edit.UpdateUser? || edit.DeleteUser?
    requires Edited(cfg, edit).Ok?
    ensures "inbounds" in cfg && cfg["inbounds"].Arr? && Edited(cfg, edit).value == StoreInbound(cfg, edit.tag, e)
  {
    hide Lookup, ReplaceFirst, Reject, UserToMap;
    var inbound := FindInbound(cfg, edit.tag).value;
    var (users, place) := UsersAccessor(inbound, edit.AddUser?).value;
    e := SetUsers(inbound, place,
                  if edit.AddUser? then users + [Obj(UserToMap(edit.user))]
                  else if edit.UpdateUser? then ReplaceFirst(users, BySubID(edit.user.subID), Obj(UserToMap(edit.user)))
                  else Reject(users, BySubID(edit.subID)));
  }
}
