/** What a config means to the reconciler: tag -> (the inbound without its users,
    SubID -> stored entry). Every edit of the JSON tree is simulated by an edit of
    this view, and two configs with one view differ in order only. */
module SyncView {
  import opened Wrappers
  import opened Json
  import opened Entries
  import opened Models
  import opened ConfigManager

  /** An inbound but for the users that a reconciliation deals with: the object
      without its list of users, whether that list is in the options, and the
      entries in it that answer to no SubID in play. */
  datatype Shell = Shell(body: Object, inOptions: bool, others: multiset<Value>)

  datatype InboundView = InboundView(shell: Shell, users: map<string, Object>)

  type View = map<string, InboundView>

  /** The SubIDs in play, and the tags of inbounds known to have a `users` list of
      their own. */
  datatype Scope = Scope(ids: set<string>, listed: set<string>)

  /** The list of users that is read is the one in the options. */
  predicate UsersInOptions(inbound: Object) {
    "users" !in inbound && "options" in inbound && inbound["options"].Obj? && "users" in inbound["options"].fields
  }

  /** An inbound without the list of users that is read. */
  function Body(inbound: Object): Object {
    if UsersInOptions(inbound) then inbound["options" := Obj(inbound["options"].fields - {"users"})] else inbound - {"users"}
  }

  function UsersOf(inbound: Object): seq<Value> {
    match UsersAccessor(inbound, true)
    case Ok((users, _)) => users
    case Err(_) => []
  }

  /** The entry answers to a SubID in play. */
  predicate Answers(v: Value, ids: set<string>) {
    exists s | s in ids :: Selects(BySubID(s), v)
  }

  function OthersOf(users: seq<Value>, ids: set<string>): seq<Value> {
    if users == [] then []
    else (if Answers(users[0], ids) then [] else [users[0]]) + OthersOf(users[1..], ids)
  }

  /** The entries that answer to the SubIDs in play, as they are stored. */
  function UsersView(users: seq<Value>, ids: set<string>): map<string, Object> {
    map s | s in ids && Lookup(users, BySubID(s)).Some? :: Lookup(users, BySubID(s)).value.fields
  }

  function ShellOf(inbound: Object, ids: set<string>): Shell {
    Shell(Body(inbound), UsersInOptions(inbound), multiset(OthersOf(UsersOf(inbound), ids)))
  }

  function ViewOf(inbound: Object, ids: set<string>): InboundView {
    InboundView(ShellOf(inbound, ids), UsersView(UsersOf(inbound), ids))
  }

  function Inbounds(cfg: Object): seq<Value> {
    match InboundsSlice(cfg, true)
    case Ok(inbounds) => inbounds
    case Err(_) => []
  }

  function Tags(inbounds: seq<Value>): (tags: set<string>)
    ensures forall tag :: tag in tags <==> Lookup(inbounds, ByTag(tag)).Some?
  {
    var tags := set v | v in inbounds && v.Obj? :: GetString(v.fields, "tag");
    assert forall v | v in inbounds && v.Obj? :: Selects(ByTag(GetString(v.fields, "tag")), v);
    tags
  }

  /** The view with respect to the SubIDs in play. */
  function ViewConfig(cfg: Object, ids: set<string>): View {
    var inbounds := Inbounds(cfg);
    map tag | tag in Tags(inbounds) :: ViewOf(Lookup(inbounds, ByTag(tag)).value.fields, ids)
  }

  /** No two entries answer to one SubID in play, and none answers to two. */
  ghost predicate WellKeyed(users: seq<Value>, ids: set<string>) {
    && (forall s | s in ids :: AtMostOne(users, BySubID(s)))
    && (forall v, a, b | v in users && a in ids && b in ids && Selects(BySubID(a), v) && Selects(BySubID(b), v) :: a == b)
  }

  ghost predicate SoundInbound(inbound: Object, tag: string, scope: Scope) {
    && UsersAccessor(inbound, true).Ok? && WellKeyed(UsersOf(inbound), scope.ids)
    && (tag in scope.listed ==> "users" in inbound)
  }

  /** The lists have the shape the manager expects, and tags and SubIDs are unambiguous. */
  ghost predicate Sound(cfg: Object, scope: Scope) {
    && ("inbounds" in cfg ==> cfg["inbounds"].Arr?)
    && (forall tag :: AtMostOne(Inbounds(cfg), ByTag(tag)))
    && forall tag | tag in Tags(Inbounds(cfg)) ::
         SoundInbound(Lookup(Inbounds(cfg), ByTag(tag)).value.fields, tag, scope)
  }

  /** An edit whose data keeps SubIDs unambiguous. Options may carry users, as those
      of listed inbounds do: an added inbound then has those users, an updated one
      keeps the list it has. */
  ghost predicate Clean(edit: Edit, scope: Scope) {
    match edit
    case AddUser(tag, u) => CleanUser(u, scope.ids)
    case UpdateUser(tag, u) => CleanUser(u, scope.ids)
    case DeleteUser(tag, subID) => subID in scope.ids
    case AddInbound(ib) =>
      ib.tag !in scope.listed && ("users" in ib.options ==> ib.options["users"].Arr?) && WellKeyed(OptionUsers(ib), scope.ids)
    case UpdateInbound(ib) => "users" in ib.options ==> ib.tag in scope.listed
    case DeleteInbound(tag) => true
  }

  /** The users that an inbound carries in its options. */
  function OptionUsers(ib: Inbound): seq<Value> {
    if "users" in ib.options && ib.options["users"].Arr? then ib.options["users"].items else []
  }

  predicate CleanUser(u: User, ids: set<string>) {
    u.subID in ids && u.subID != "" && (u.uuid in ids ==> u.uuid == u.subID)
  }

  /** The shell of an inbound that is added. */
  function NewShell(ib: Inbound, ids: set<string>): Shell {
    Shell(if "users" in ib.options then InboundToMap(ib)["options" := Obj(ib.options - {"users"})] else InboundToMap(ib),
          "users" in ib.options, multiset(OthersOf(OptionUsers(ib), ids)))
  }

  /** The shell of an inbound that is replaced: the new settings, and what the old
      options leave behind. */
  function Updated(shell: Shell, ib: Inbound): Shell {
    shell.(body := PreserveUsers(shell.body, InboundToMap(ib)))
  }

  /** The edit of the view; `None` when it does not apply. */
  function EditView(view: View, edit: Edit, ids: set<string>): Option<View> {
    match edit
    case AddUser(tag, u) =>
      if tag in view && u.subID !in view[tag].users then Some(WithUser(view, tag, u)) else None
    case UpdateUser(tag, u) =>
      if tag in view && u.subID in view[tag].users then Some(WithUser(view, tag, u)) else None
    case DeleteUser(tag, subID) =>
      if tag in view && subID in view[tag].users then
        Some(view[tag := InboundView(view[tag].shell, view[tag].users - {subID})])
      else None
    case AddInbound(ib) =>
      if ib.tag !in view then Some(view[ib.tag := InboundView(NewShell(ib, ids), UsersView(OptionUsers(ib), ids))]) else None
    case UpdateInbound(ib) =>
      if ib.tag in view then Some(view[ib.tag := InboundView(Updated(view[ib.tag].shell, ib), view[ib.tag].users)]) else None
    case DeleteInbound(tag) =>
      if tag in view then Some(view - {tag}) else None
  }

  function WithUser(view: View, tag: string, u: User): View
    requires tag in view
  {
    view[tag := InboundView(view[tag].shell, view[tag].users[u.subID := UserToMap(u)])]
  }

  // Reading one inbound after its users list changed.

  lemma SetUsersReads(inbound: Object, create: bool, users: seq<Value>)
    requires UsersAccessor(inbound, create).Ok?
    ensures var changed := SetUsers(inbound, UsersAccessor(inbound, create).value.1, users);
      && UsersAccessor(changed, true).Ok? && UsersOf(changed) == users
      && Body(changed) == Body(inbound) && UsersInOptions(changed) == UsersInOptions(inbound)
      && GetString(changed, "tag") == GetString(inbound, "tag")
      && ("users" in inbound ==> "users" in changed)
  {
    var place := UsersAccessor(inbound, create).value.1;
    var changed := SetUsers(inbound, place, users);
    if place.TopLevel? {
      assert changed - {"users"} == inbound - {"users"};
    } else {
      var o := inbound["options"].fields;
      assert o["users" := Arr(users)] - {"users"} == o - {"users"};
      assert changed["options" := Obj(o - {"users"})] == inbound["options" := Obj(o - {"users"})];
    }
  }

  /** Among the SubIDs in play a clean user's entry answers to its own only. */
  lemma CleanUserKeyed(u: User, ids: set<string>, s: string)
    requires CleanUser(u, ids) && s in ids && "" !in ids
    ensures Selects(BySubID(s), Obj(UserToMap(u))) <==> s == u.subID
  {
    UserIdentityReads(u);
  }

  lemma OthersAppend(users: seq<Value>, e: Value, ids: set<string>)
    requires Answers(e, ids)
    ensures OthersOf(users + [e], ids) == OthersOf(users, ids)
  {
    hide Answers;
    if users != [] {
      assert (users + [e])[1..] == users[1..] + [e];
      OthersAppend(users[1..], e, ids);
    } else {
      assert ([] + [e])[1..] == [];
    }
  }

  lemma OthersReplace(users: seq<Value>, subID: string, e: Value, ids: set<string>)
    requires subID in ids && Answers(e, ids) && Lookup(users, BySubID(subID)).Some?
    ensures OthersOf(ReplaceFirst(users, BySubID(subID), e), ids) == OthersOf(users, ids)
  {
    hide Selects;
    if Selects(BySubID(subID), users[0]) {
      assert Answers(users[0], ids);
      assert ([e] + users[1..])[1..] == users[1..];
    } else {
      var rest := ReplaceFirst(users[1..], BySubID(subID), e);
      assert ([users[0]] + rest)[1..] == rest;
      OthersReplace(users[1..], subID, e, ids);
    }
  }

  lemma OthersReject(users: seq<Value>, subID: string, ids: set<string>)
    requires subID in ids
    ensures OthersOf(Reject(users, BySubID(subID)), ids) == OthersOf(users, ids)
  {
    hide Selects;
    if users != [] {
      OthersReject(users[1..], subID, ids);
      if Selects(BySubID(subID), users[0]) {
        assert Answers(users[0], ids);
      } else {
        var rest := Reject(users[1..], BySubID(subID));
        assert ([users[0]] + rest)[1..] == rest;
      }
    }
  }

  lemma UserAppended(users: seq<Value>, ids: set<string>, u: User)
    requires WellKeyed(users, ids) && CleanUser(u, ids) && "" !in ids
    requires Lookup(users, BySubID(u.subID)).None?
    ensures var grown := users + [Obj(UserToMap(u))];
      && WellKeyed(grown, ids) && OthersOf(grown, ids) == OthersOf(users, ids)
      && UsersView(grown, ids) == UsersView(users, ids)[u.subID := UserToMap(u)]
  {
    EntryAppended(users, ids, u, u.subID);
    KeyedAppended(users, ids, u);
    ViewedAppended(users, ids, u);
    hide Selects, UserToMap, Lookup, UsersView, WellKeyed;
    OthersAppend(users, Obj(UserToMap(u)), ids);
  }

  lemma KeyedAppended(users: seq<Value>, ids: set<string>, u: User)
    requires WellKeyed(users, ids) && CleanUser(u, ids) && "" !in ids
    requires Lookup(users, BySubID(u.subID)).None?
    ensures WellKeyed(users + [Obj(UserToMap(u))], ids)
  {
    hide Selects, UserToMap, Lookup, AtMostOne;
    var e := Obj(UserToMap(u));
    forall s | s in ids ensures AtMostOne(users + [e], BySubID(s)) && (Selects(BySubID(s), e) <==> s == u.subID) {
      EntryAppended(users, ids, u, s);
    }
    assert forall v | v in users + [e] :: v in users || v == e;
  }

  lemma ViewedAppended(users: seq<Value>, ids: set<string>, u: User)
    requires WellKeyed(users, ids) && CleanUser(u, ids) && "" !in ids
    requires Lookup(users, BySubID(u.subID)).None?
    ensures UsersView(users + [Obj(UserToMap(u))], ids) == UsersView(users, ids)[u.subID := UserToMap(u)]
  {
    var e := Obj(UserToMap(u));
    forall s | s in ids
      ensures Lookup(users + [e], BySubID(s)) == if s == u.subID then Some(e) else Lookup(users, BySubID(s))
    {
      EntryAppended(users, ids, u, s);
    }
    hide Selects, UserToMap, Lookup, WellKeyed;
  }

  lemma EntryAppended(users: seq<Value>, ids: set<string>, u: User, s: string)
    requires WellKeyed(users, ids) && CleanUser(u, ids) && "" !in ids && s in ids
    requires Lookup(users, BySubID(u.subID)).None?
    ensures var e := Obj(UserToMap(u));
      && (Selects(BySubID(s), e) <==> s == u.subID)
      && Lookup(users + [e], BySubID(s)) == (if s == u.subID then Some(e) else Lookup(users, BySubID(s)))
      && AtMostOne(users + [e], BySubID(s))
  {
    hide Selects, UserToMap, Lookup, AtMostOne;
    LookupAppend(users, Obj(UserToMap(u)), BySubID(s));
    CleanUserKeyed(u, ids, s);
    OneInAppend(users, Obj(UserToMap(u)), BySubID(s));
  }

  lemma UserReplaced(users: seq<Value>, ids: set<string>, u: User)
    requires WellKeyed(users, ids) && CleanUser(u, ids) && "" !in ids
    requires Lookup(users, BySubID(u.subID)).Some?
    ensures var changed := ReplaceFirst(users, BySubID(u.subID), Obj(UserToMap(u)));
      && WellKeyed(changed, ids) && OthersOf(changed, ids) == OthersOf(users, ids)
      && UsersView(changed, ids) == UsersView(users, ids)[u.subID := UserToMap(u)]
  {
    hide Selects, UserToMap, Lookup, AtMostOne, ReplaceFirst;
    var e := Obj(UserToMap(u));
    var changed := ReplaceFirst(users, BySubID(u.subID), e);
    forall s | s in ids
      ensures Selects(BySubID(s), e) <==> s == u.subID
      ensures Lookup(changed, BySubID(s)) == if s == u.subID then Some(e) else Lookup(users, BySubID(s))
      ensures AtMostOne(changed, BySubID(s))
    {
      CleanUserKeyed(u, ids, s);
      OneInReplace(users, BySubID(u.subID), e, BySubID(s));
      LookupReplace(users, BySubID(u.subID), e, BySubID(s));
    }
    OthersReplace(users, u.subID, e, ids);
  }

  lemma UserRejected(users: seq<Value>, ids: set<string>, subID: string)
    requires WellKeyed(users, ids) && subID in ids
    ensures var fewer := Reject(users, BySubID(subID));
      && WellKeyed(fewer, ids) && OthersOf(fewer, ids) == OthersOf(users, ids)
      && UsersView(fewer, ids) == UsersView(users, ids) - {subID}
  {
    hide Selects, Lookup, AtMostOne, Reject, UsersView;
    RejectedKeyed(users, ids, subID);
    RejectedViewed(users, ids, subID);
    OthersReject(users, subID, ids);
  }

  lemma RejectedKeyed(users: seq<Value>, ids: set<string>, subID: string)
    requires WellKeyed(users, ids)
    ensures WellKeyed(Reject(users, BySubID(subID)), ids)
  {
    hide Selects, Lookup, AtMostOne, Reject;
    RejectMembers(users, BySubID(subID));
    forall s | s in ids ensures AtMostOne(Reject(users, BySubID(subID)), BySubID(s)) {
      OneInReject(users, BySubID(subID), BySubID(s));
    }
  }

  lemma RejectedViewed(users: seq<Value>, ids: set<string>, subID: string)
    requires WellKeyed(users, ids) && subID in ids
    ensures UsersView(Reject(users, BySubID(subID)), ids) == UsersView(users, ids) - {subID}
  {
    hide Selects, Lookup, AtMostOne, Reject;
    forall s | s in ids
      ensures Lookup(Reject(users, BySubID(subID)), BySubID(s)) == if s == subID then None else Lookup(users, BySubID(s))
    {
      LookupReject(users, BySubID(subID), BySubID(s));
    }
  }

  /** A SubID in play is found exactly when the view has it. */
  lemma FoundIsViewed(users: seq<Value>, ids: set<string>, subID: string)
    requires subID in ids
    ensures Lookup(users, BySubID(subID)).Some? <==> subID in UsersView(users, ids)
  {
  }

  /** A replaced inbound keeps its list of users, where it was, and gets the new
      settings; users in the new options stay there beside the list. */
  lemma PreserveUsersReads(source: Object, ib: Inbound)
    requires UsersAccessor(source, true).Ok? && ("users" in ib.options ==> "users" in source)
    ensures var kept := PreserveUsers(source, InboundToMap(ib));
      && UsersAccessor(kept, true).Ok? && UsersOf(kept) == UsersOf(source) && UsersInOptions(kept) == UsersInOptions(source)
      && Body(kept) == PreserveUsers(Body(source), InboundToMap(ib)) && GetString(kept, "tag") == ib.tag
      && ("users" in source ==> "users" in kept)
  {
    StoredReads(ib);
    hide InboundToMap;
    var target := InboundToMap(ib);
    if UsersInOptions(source) {
      PreservedInOptions(source, target);
    } else if "users" in source {
      PreservedOnTop(source, target);
    } else {
      PreservedNone(source, target);
    }
  }

  lemma PreservedOnTop(source: Object, target: Object)
    requires "users" !in target && "users" in source && source["users"].Arr?
    ensures var kept := PreserveUsers(source, target);
      && "users" in kept && kept["users"] == source["users"] && Body(kept) == PreserveUsers(Body(source), target)
      && ("tag" in target ==> "tag" in kept && kept["tag"] == target["tag"])
  {
    var kept, without := PreserveUsers(source, target), PreserveUsers(source - {"users"}, target);
    assert target["users" := source["users"]] - {"users"} == target;
    assert kept == without["users" := source["users"]];
    assert kept - {"users"} == without;
  }

  lemma PreservedInOptions(source: Object, target: Object)
    requires "users" !in target && UsersInOptions(source)
    requires "options" in target ==> target["options"].Obj? && "users" !in target["options"].fields
    ensures var kept := PreserveUsers(source, target);
      && UsersInOptions(kept) && kept["options"].fields["users"] == source["options"].fields["users"]
      && Body(kept) == PreserveUsers(Body(source), target)
      && ("tag" in target ==> "tag" in kept && kept["tag"] == target["tag"])
  {
    var kept := PreserveUsers(source, target);
    var into: Object := if "options" in target then target["options"].fields else map[];
    var users := source["options"].fields["users"];
    assert kept == target["options" := Obj(into["users" := users])];
    assert into["users" := users] - {"users"} == into;
    assert kept["options" := Obj(into)] == target["options" := Obj(into)];
  }

  lemma PreservedNone(source: Object, target: Object)
    requires "users" !in target && "users" !in source && !UsersInOptions(source)
    requires "options" in target ==> target["options"].Obj? && "users" !in target["options"].fields
    ensures var kept := PreserveUsers(source, target);
      && "users" !in kept && !UsersInOptions(kept) && ("options" in kept ==> kept["options"].Obj?)
      && Body(kept) == PreserveUsers(Body(source), target)
      && ("tag" in target ==> "tag" in kept && kept["tag"] == target["tag"])
  {
    assert source - {"users"} == source;
    var kept := PreserveUsers(source, target);
    assert kept - {"users"} == kept;
  }

  lemma StoredReads(ib: Inbound)
    ensures var m := InboundToMap(ib);
      && "users" !in m && "tag" in m && GetString(m, "tag") == ib.tag
      && ("options" in m <==> ib.options != map[]) && ("options" in m ==> m["options"] == Obj(ib.options))
  {
  }

  lemma NewInboundReads(ib: Inbound, ids: set<string>)
    requires "users" in ib.options ==> ib.options["users"].Arr?
    ensures var m := InboundToMap(ib);
      && UsersAccessor(m, true).Ok? && UsersOf(m) == OptionUsers(ib) && GetString(m, "tag") == ib.tag
      && ViewOf(m, ids) == InboundView(NewShell(ib, ids), UsersView(OptionUsers(ib), ids))
  {
    var m := InboundToMap(ib);
    StoredReads(ib);
    hide InboundToMap, UsersView, OthersOf;
    assert m - {"users"} == m;
  }

  // Reading the whole config after one inbound changed.

  /** If only what the lists hold under one tag differs, so do the views. */
  lemma OneInboundChanged(cfg: Object, changed: Object, scope: Scope, tag: string, entry: Option<Object>)
    requires Sound(cfg, scope) && "inbounds" in changed && changed["inbounds"].Arr?
    requires forall t :: Lookup(Inbounds(changed), ByTag(t)) ==
                         if t != tag then Lookup(Inbounds(cfg), ByTag(t))
                         else if entry.Some? then Some(Obj(entry.value)) else None
    requires entry.Some? ==> SoundInbound(entry.value, tag, scope)
    requires forall t :: AtMostOne(Inbounds(changed), ByTag(t))
    ensures Sound(changed, scope)
    ensures ViewConfig(changed, scope.ids) ==
            if entry.Some? then ViewConfig(cfg, scope.ids)[tag := ViewOf(entry.value, scope.ids)]
            else ViewConfig(cfg, scope.ids) - {tag}
  {
    hide SoundInbound, ViewOf, Lookup, Inbounds, AtMostOne;
    assert Sound(changed, scope);
    hide Sound;
    OneViewChanged(Inbounds(cfg), Inbounds(changed), scope.ids, tag, entry);
  }

  lemma OneViewChanged(was: seq<Value>, now: seq<Value>, ids: set<string>, tag: string, entry: Option<Object>)
    requires forall t :: Lookup(now, ByTag(t)) ==
                         if t != tag then Lookup(was, ByTag(t)) else if entry.Some? then Some(Obj(entry.value)) else None
    ensures forall t :: t in Tags(now) <==> if t == tag then entry.Some? else t in Tags(was)
    ensures forall t | t in Tags(now) ::
              ViewOf(Lookup(now, ByTag(t)).value.fields, ids) ==
              if t == tag then ViewOf(entry.value, ids) else ViewOf(Lookup(was, ByTag(t)).value.fields, ids)
  {
    hide ViewOf, Lookup;
  }

  lemma InboundStored(cfg: Object, scope: Scope, tag: string, inbound: Object)
    requires Sound(cfg, scope) && tag in Tags(Inbounds(cfg))
    requires GetString(inbound, "tag") == tag && SoundInbound(inbound, tag, scope)
    ensures Sound(StoreInbound(cfg, tag, inbound), scope)
    ensures ViewConfig(StoreInbound(cfg, tag, inbound), scope.ids) == ViewConfig(cfg, scope.ids)[tag := ViewOf(inbound, scope.ids)]
  {
    assert "inbounds" in cfg && cfg["inbounds"].Arr? && forall t :: AtMostOne(Inbounds(cfg), ByTag(t));
    hide SoundInbound, ViewOf, Sound, ViewConfig, Lookup, Tags, AtMostOne;
    var changed := StoreInbound(cfg, tag, inbound);
    forall t ensures Lookup(Inbounds(changed), ByTag(t)) ==
                     if t == tag then Some(Obj(inbound)) else Lookup(Inbounds(cfg), ByTag(t))
             ensures AtMostOne(Inbounds(changed), ByTag(t))
    {
      OneInReplace(Inbounds(cfg), ByTag(tag), Obj(inbound), ByTag(t));
      LookupReplace(Inbounds(cfg), ByTag(tag), Obj(inbound), ByTag(t));
    }
    OneInboundChanged(cfg, changed, scope, tag, Some(inbound));
  }

  lemma UserEditSimulated(cfg: Object, scope: Scope, edit: Edit)
    requires Sound(cfg, scope) && Clean(edit, scope) && "" !in scope.ids
    requires edit.AddUser? || edit.UpdateUser? || edit.DeleteUser?
    ensures Simulates(cfg, scope, edit)
  {
    hide WellKeyed, UsersView, OthersOf, Body, UsersInOptions, UserToMap, Lookup, StoreInbound, SetUsers, Tags, ReplaceFirst, Reject,
         UserMapMatchesSubID, AtMostOne;
    if edit.tag in Tags(Inbounds(cfg)) {
      var inbound := Lookup(Inbounds(cfg), ByTag(edit.tag)).value.fields;
      var users := UsersOf(inbound);
      var subID := if edit.DeleteUser? then edit.subID else edit.user.subID;
      FoundIsViewed(users, scope.ids, subID);
      if UsersAccessor(inbound, edit.AddUser?).Ok? && (edit.AddUser? <==> Lookup(users, BySubID(subID)).None?) {
        var changed :=
          if edit.AddUser? then users + [Obj(UserToMap(edit.user))]
          else if edit.UpdateUser? then ReplaceFirst(users, BySubID(subID), Obj(UserToMap(edit.user)))
          else Reject(users, BySubID(subID));
        if edit.AddUser? {
          UserAppended(users, scope.ids, edit.user);
        } else if edit.UpdateUser? {
          UserReplaced(users, scope.ids, edit.user);
        } else {
          UserRejected(users, scope.ids, subID);
        }
        SetUsersReads(inbound, edit.AddUser?, changed);
        InboundStored(cfg, scope, edit.tag, SetUsers(inbound, UsersAccessor(inbound, edit.AddUser?).value.1, changed));
      }
    }
  }

  lemma LookupWithNew(inbounds: seq<Value>, m: Object, tag: string)
    requires GetString(m, "tag") == tag
    ensures forall t :: Lookup(inbounds + [Obj(m)], ByTag(t)) ==
                        (if Lookup(inbounds, ByTag(t)).Some? then Lookup(inbounds, ByTag(t))
                         else if t == tag then Some(Obj(m)) else None)
  {
    hide Lookup;
    forall t ensures Lookup(inbounds + [Obj(m)], ByTag(t)) ==
                     if Lookup(inbounds, ByTag(t)).Some? then Lookup(inbounds, ByTag(t))
                     else if t == tag then Some(Obj(m)) else None
    {
      LookupAppend(inbounds, Obj(m), ByTag(t));
    }
  }

  lemma AddInboundSimulated(cfg: Object, scope: Scope, ib: Inbound)
    requires Sound(cfg, scope) && Clean(AddInbound(ib), scope)
    ensures Simulates(cfg, scope, AddInbound(ib))
  {
    hide ViewOf, Sound, SoundInbound, ViewConfig, Lookup, InboundToMap, UsersAccessor, Tags, UsersOf,
         OptionUsers, Body, NewShell, WellKeyed, UsersView, Inbounds, Edited;
    var m := InboundToMap(ib);
    EditedByAdd(cfg, scope, ib);
    NewInboundSound(ib, scope);
    NewInboundReads(ib, scope.ids);
    if Lookup(Inbounds(cfg), ByTag(ib.tag)).None? {
      InboundAppended(cfg, scope, ib.tag, m);
    }
    ViewedTags(cfg, scope, ib.tag);
  }

  lemma EditedByAdd(cfg: Object, scope: Scope, ib: Inbound)
    requires Sound(cfg, scope)
    ensures Edited(cfg, AddInbound(ib)) ==
            if Lookup(Inbounds(cfg), ByTag(ib.tag)).Some? then Err(InboundExists(ib.tag))
            else Ok(cfg["inbounds" := Arr(Inbounds(cfg) + [Obj(InboundToMap(ib))])])
  {
    hide Lookup, InboundToMap;
  }

  lemma NewInboundSound(ib: Inbound, scope: Scope)
    requires Clean(AddInbound(ib), scope)
    ensures SoundInbound(InboundToMap(ib), ib.tag, scope)
  {
    hide UsersAccessor, InboundToMap, UsersOf, OptionUsers, Body, NewShell, ViewOf;
    NewInboundReads(ib, scope.ids);
  }

  lemma InboundAppended(cfg: Object, scope: Scope, tag: string, m: Object)
    requires Sound(cfg, scope) && Lookup(Inbounds(cfg), ByTag(tag)).None?
    requires GetString(m, "tag") == tag && SoundInbound(m, tag, scope)
    ensures var changed := cfg["inbounds" := Arr(Inbounds(cfg) + [Obj(m)])];
      Sound(changed, scope) && ViewConfig(changed, scope.ids) == ViewConfig(cfg, scope.ids)[tag := ViewOf(m, scope.ids)]
  {
    assert forall t :: AtMostOne(Inbounds(cfg), ByTag(t));
    hide Sound, SoundInbound, ViewOf, ViewConfig, Lookup, Tags, AtMostOne;
    LookupWithNew(Inbounds(cfg), m, tag);
    forall t ensures AtMostOne(Inbounds(cfg) + [Obj(m)], ByTag(t)) {
      OneInAppend(Inbounds(cfg), Obj(m), ByTag(t));
    }
    OneInboundChanged(cfg, cfg["inbounds" := Arr(Inbounds(cfg) + [Obj(m)])], scope, tag, Some(m));
  }

  lemma UpdateInboundSimulated(cfg: Object, scope: Scope, ib: Inbound)
    requires Sound(cfg, scope) && Clean(UpdateInbound(ib), scope)
    ensures Simulates(cfg, scope, UpdateInbound(ib))
  {
    hide ViewConfig, Lookup, Tags, PreserveUsers, InboundToMap, WellKeyed, UsersAccessor, Body, UsersInOptions, OthersOf, UsersView,
         StoreInbound, AtMostOne;
    ViewedTags(cfg, scope, ib.tag);
    if ib.tag in Tags(Inbounds(cfg)) {
      var source := Lookup(Inbounds(cfg), ByTag(ib.tag)).value.fields;
      PreserveUsersReads(source, ib);
      InboundStored(cfg, scope, ib.tag, PreserveUsers(source, InboundToMap(ib)));
    }
  }

  lemma DeleteInboundSimulated(cfg: Object, scope: Scope, tag: string)
    requires Sound(cfg, scope)
    ensures Simulates(cfg, scope, DeleteInbound(tag))
  {
    hide SoundInbound, ViewOf, ViewConfig, Lookup, Tags, AtMostOne;
    ViewedTags(cfg, scope, tag);
    var inbounds := Inbounds(cfg);
    forall t ensures Lookup(Reject(inbounds, ByTag(tag)), ByTag(t)) ==
                     if t == tag then None else Lookup(inbounds, ByTag(t))
             ensures AtMostOne(Reject(inbounds, ByTag(tag)), ByTag(t))
    {
      OneInReject(inbounds, ByTag(tag), ByTag(t));
      LookupReject(inbounds, ByTag(tag), ByTag(t));
    }
    if "inbounds" in cfg {
      OneInboundChanged(cfg, cfg["inbounds" := Arr(Reject(inbounds, ByTag(tag)))], scope, tag, None);
    }
  }

  lemma ViewedTags(cfg: Object, scope: Scope, tag: string)
    ensures tag in ViewConfig(cfg, scope.ids) <==> Lookup(Inbounds(cfg), ByTag(tag)).Some?
    ensures tag in ViewConfig(cfg, scope.ids) ==>
              ViewConfig(cfg, scope.ids)[tag] == ViewOf(Lookup(Inbounds(cfg), ByTag(tag)).value.fields, scope.ids)
  {
  }

  /** The edit applies to the tree exactly when it applies to the view, with the
      viewed result, and leaves a sound tree. */
  ghost predicate Simulates(cfg: Object, scope: Scope, edit: Edit) {
    match Edited(cfg, edit)
    case Err(_) => EditView(ViewConfig(cfg, scope.ids), edit, scope.ids).None?
    case Ok(changed) => Sound(changed, scope) && EditView(ViewConfig(cfg, scope.ids), edit, scope.ids) == Some(ViewConfig(changed, scope.ids))
  }

  /** The manager's edits of JSON lists refine edits of a finite map. */
  lemma EditSimulated(cfg: Object, scope: Scope, edit: Edit)
    requires Sound(cfg, scope) && Clean(edit, scope) && "" !in scope.ids
    ensures Simulates(cfg, scope, edit)
  {
    match edit
    case AddInbound(ib) => AddInboundSimulated(cfg, scope, ib);
    case UpdateInbound(ib) => UpdateInboundSimulated(cfg, scope, ib);
    case DeleteInbound(tag) => DeleteInboundSimulated(cfg, scope, tag);
    case _ => UserEditSimulated(cfg, scope, edit);
  }
}
