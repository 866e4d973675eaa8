/** The two-writer protocol with the edits that the writers really make: whatever
    both create, in any interleaving, is there in the end if nothing is rolled back. */
module TwoWriters {
  import opened Wrappers
  import opened Json
  import opened Entries
  import opened Models
  import Client = ClientEdits
  import Stats = StatsUsers
  import Manager = ConfigManager
  import SyncView
  import Relisting
  import Protocol = Debounce

  datatype Creation =
    | ClientUser(user: User, generated: string)
    | ClientInbound(inbound: Inbound)
    | ManagerUser(tag: string, user: User)
    | ManagerInbound(inbound: Inbound)

  /** The parsed file after a creation; `None` when it returns an error. */
  function Created(file: Option<Value>, c: Creation): Option<Value> {
    match c
    case ClientUser(u, g) => Committed(Stats.Served(file, Client.CreateUser(u, g)))
    case ClientInbound(ib) => Committed(Stats.Served(file, Client.CreateInbound(ib)))
    case ManagerUser(tag, u) => Committed(Manager.Committed(file, Manager.AddUser(tag, u)))
    case ManagerInbound(ib) => Committed(Manager.Committed(file, Manager.AddInbound(ib)))
  }

  function Committed<E>(p: (Option<Value>, Option<E>)): Option<Value> {
    if p.1.None? then p.0 else None
  }

  /** The same on the bytes of the file. */
  function EditOf(parse: Protocol.Bytes -> Option<Value>, text: Value -> Protocol.Bytes, c: Creation): Protocol.Edit {
    (b: Protocol.Bytes) =>
      match Created(parse(b), c)
      case None => None
      case Some(v) => Some(text(v))
  }

  /** A user is listed under this SubID in this inbound. */
  ghost predicate Lists(root: Object, subID: string, tag: string) {
    exists u | u in Client.GetUsers(root) :: u.subID == subID && u.inboundTag == tag
  }

  ghost predicate HasInbound(root: Object, tag: string) {
    exists v | v in Client.GetInbounds(root) :: GetString(v.fields, "tag") == tag
  }

  /** What was created is there. */
  ghost predicate Present(file: Option<Value>, c: Creation) {
    file.Some? && file.value.Obj? &&
    match c
    case ClientUser(u, _) => u.subID != "" ==> Lists(file.value.fields, u.subID, u.inboundTag)
    case ManagerUser(tag, u) => u.subID != "" ==> Lists(file.value.fields, u.subID, tag)
    case ClientInbound(ib) => "tag" !in ib.options ==> HasInbound(file.value.fields, ib.tag)
    case ManagerInbound(ib) => HasInbound(file.value.fields, ib.tag)
  }

  /** A config that holds every inbound of another, or one with all its users in its place. */
  ghost predicate Extends(after: Object, before: Object) {
    forall v | v in Client.GetInbounds(before) :: exists w | w in Client.GetInbounds(after) :: Grown(w, v)
  }

  ghost predicate Grown(w: Value, v: Value) {
    && w.Obj? && v.Obj? && GetString(w.fields, "tag") == GetString(v.fields, "tag")
    && forall u | u in Client.UsersOfInbound(v) :: u in Client.UsersOfInbound(w)
  }

  lemma ExtendsLists(after: Object, before: Object, s: string, t: string)
    requires Extends(after, before) && Lists(before, s, t)
    ensures Lists(after, s, t)
  {
    hide Client.GetInbounds, Client.UsersOfInbound, Lists;
    var v, u := Lister(before, s, t);
    var w :| w in Client.GetInbounds(after) && Grown(w, v);
    ListsIn(after, w, u);
  }

  lemma ExtendsTags(after: Object, before: Object, t: string)
    requires Extends(after, before) && HasInbound(before, t)
    ensures HasInbound(after, t)
  {
    hide Client.GetInbounds, Client.UsersOfInbound;
    var v :| v in Client.GetInbounds(before) && GetString(v.fields, "tag") == t;
    var w :| w in Client.GetInbounds(after) && Grown(w, v);
  }

  lemma Lister(root: Object, s: string, t: string) returns (v: Value, u: User)
    requires Lists(root, s, t)
    ensures v in Client.GetInbounds(root) && u in Client.UsersOfInbound(v) && u.subID == s && u.inboundTag == t
  {
    hide Client.GetInbounds, Client.UsersOfInbounds, Client.UsersOfInbound;
    u :| u in Client.GetUsers(root) && u.subID == s && u.inboundTag == t;
    Relisting.UsersHold(Client.GetInbounds(root));
    v :| v in Client.GetInbounds(root) && u in Client.UsersOfInbound(v);
  }

  lemma ListsIn(root: Object, v: Value, u: User)
    requires v in Client.GetInbounds(root) && u in Client.UsersOfInbound(v)
    ensures Lists(root, u.subID, u.inboundTag)
  {
    hide Client.GetInbounds, Client.UsersOfInbounds, Client.UsersOfInbound;
    Relisting.UsersHold(Client.GetInbounds(root));
    assert u in Client.GetUsers(root);
  }

  // The client's creations.

  lemma OneGrown(after: Object, before: Object, i: nat, w: Value)
    requires i < |Client.GetInbounds(before)| && w.Obj?
    requires Client.GetInbounds(after) == Client.GetInbounds(before)[i := w]
    requires Grown(w, Client.GetInbounds(before)[i])
    ensures Extends(after, before)
    ensures forall u | u in Client.UsersOfInbound(w) :: Lists(after, u.subID, u.inboundTag)
  {
    hide Client.GetInbounds, Client.UsersOfInbound, Lists;
    var was, now := Client.GetInbounds(before), Client.GetInbounds(after);
    forall v | v in was ensures exists x | x in now :: Grown(x, v) {
      var j :| 0 <= j < |was| && was[j] == v;
      assert now[j] in now && Grown(now[j], v);
    }
    assert now[i] == w;
    forall u | u in Client.UsersOfInbound(w) ensures Lists(after, u.subID, u.inboundTag) {
      ListsIn(after, w, u);
    }
  }

  lemma ClientUserCreated(root: Object, u: User, generated: string)
    requires Client.Edited(root, Client.CreateUser(u, generated)).Ok?
    ensures var after := Client.Edited(root, Client.CreateUser(u, generated)).value;
      Extends(after, root) && (u.subID != "" ==> Lists(after, u.subID, u.inboundTag))
  {
    hide Client.Edited, Client.GetInbounds, Client.SetInbounds, Client.GetInboundUsers, Client.SetInboundUsers,
         Client.BuildProtocolUser, Client.FindIndex, UserFromMap, Client.ReadUsers, Lists, Extends;
    Client.CreatedTree(root, u, generated);
    var inbounds := Client.GetInbounds(root);
    var i := Client.FindIndex(inbounds, ByTag(u.inboundTag));
    var inbound := inbounds[i].fields;
    var users := Client.GetInboundUsers(inbound);
    var built := Client.BuildProtocolUser(GetString(inbound, "type"), u, map[], generated);
    var w := Obj(Client.SetInboundUsers(inbound, users + [Obj(built)]));
    var changed := inbounds[i := w];
    forall v | v in changed ensures v.Obj? { assert v == changed[i] || v in inbounds; }
    Client.GetAfterSetInbounds(root, changed);
    Client.GetAfterSet(inbound, users + [Obj(built)]);
    Client.SetAfterSet(inbound, users + [Obj(built)], []);
    Client.ReadUsersConcat(users, [Obj(built)], u.inboundTag);
    Client.ReadOne(Obj(built), u.inboundTag);
    OneGrown(Client.Edited(root, Client.CreateUser(u, generated)).value, root, i, w);
    if u.subID != "" {
      Client.BuiltUserReads(GetString(inbound, "type"), u, map[], generated);
    }
  }

  /** One inbound more at the end. */
  lemma OneAppended(after: Object, before: Object, w: Value)
    requires w.Obj? && Client.GetInbounds(after) == Client.GetInbounds(before) + [w]
    ensures Extends(after, before) && HasInbound(after, GetString(w.fields, "tag"))
  {
    hide Client.GetInbounds, Client.UsersOfInbound;
    forall v | v in Client.GetInbounds(before) ensures exists x | x in Client.GetInbounds(after) :: Grown(x, v) {
      assert v in Client.GetInbounds(after) && Grown(v, v);
    }
    assert w in Client.GetInbounds(after);
  }

  lemma ClientInboundCreated(root: Object, ib: Inbound)
    requires Client.Edited(root, Client.CreateInbound(ib)).Ok?
    ensures var after := Client.Edited(root, Client.CreateInbound(ib)).value;
      Extends(after, root) && ("tag" !in ib.options ==> HasInbound(after, ib.tag))
  {
    hide Client.GetInbounds, Client.SetInbounds, Client.FindIndex, Extends, HasInbound;
    var inbounds := Client.GetInbounds(root);
    var w := Obj(Client.InboundSettings(map["tag" := Str(ib.tag)], ib));
    Client.GetAfterSetInbounds(root, inbounds + [w]);
    OneAppended(Client.Edited(root, Client.CreateInbound(ib)).value, root, w);
  }

  // The manager's creations.

  lemma {:induction false} ObjectsSnoc(items: seq<Value>, v: Value)
    ensures Client.ObjectsOf(items + [v]) == Client.ObjectsOf(items) + if v.Obj? then [v] else []
  {
    assert (items + [v])[..|items|] == items;
  }

  lemma ManagerInboundCreated(root: Object, ib: Inbound)
    requires Manager.Edited(root, Manager.AddInbound(ib)).Ok?
    ensures var after := Manager.Edited(root, Manager.AddInbound(ib)).value;
      Extends(after, root) && HasInbound(after, ib.tag)
  {
    hide InboundToMap, Lookup, Extends, HasInbound, Client.ObjectsOf;
    var items := SyncView.Inbounds(root);
    var w := Obj(InboundToMap(ib));
    ObjectsSnoc(items, w);
    SyncView.StoredReads(ib);
    assert Client.ObjectsOf([]) == [] by { EmptyObjects(); }
    OneAppended(Manager.Edited(root, Manager.AddInbound(ib)).value, root, w);
  }

  lemma EmptyObjects()
    ensures Client.ObjectsOf([]) == []
  {
  }

  lemma ManagerUserCreated(root: Object, tag: string, u: User)
    requires Manager.Edited(root, Manager.AddUser(tag, u)).Ok?
    ensures var after := Manager.Edited(root, Manager.AddUser(tag, u)).value;
      Extends(after, root) && (u.subID != "" ==> Lists(after, u.subID, tag))
  {
    hide Manager.Edited, Lookup, Extends, Lists, UserToMap, UserFromMap, ReplaceFirst;
    var after := Manager.Edited(root, Manager.AddUser(tag, u)).value;
    var w := AddedTree(root, tag, u);
    var v := Lookup(SyncView.Inbounds(root), ByTag(tag)).value;
    AddedReads(v, w, tag, u);
    FirstReplaced(after, root, tag, v, w);
    if u.subID != "" {
      ListsIn(after, w, UserFromMap(UserToMap(u), tag).value);
    }
  }

  /** The inbound that the manager finds and what it puts in its place. */
  lemma AddedTree(root: Object, tag: string, u: User) returns (w: Value)
    requires Manager.Edited(root, Manager.AddUser(tag, u)).Ok?
    ensures "inbounds" in root && root["inbounds"].Arr? && SyncView.Inbounds(root) == root["inbounds"].items
    ensures var found := Lookup(SyncView.Inbounds(root), ByTag(tag));
      && found.Some? && Manager.UsersAccessor(found.value.fields, true).Ok?
      && var place := Manager.UsersAccessor(found.value.fields, true).value.1;
      && w == Obj(Manager.SetUsers(found.value.fields, place, SyncView.UsersOf(found.value.fields) + [Obj(UserToMap(u))]))
      && Manager.Edited(root, Manager.AddUser(tag, u)).value == Manager.StoreInbound(root, tag, w.fields)
  {
    hide UserToMap, Lookup;
    var v := Lookup(SyncView.Inbounds(root), ByTag(tag)).value;
    var place := Manager.UsersAccessor(v.fields, true).value.1;
    w := Obj(Manager.SetUsers(v.fields, place, SyncView.UsersOf(v.fields) + [Obj(UserToMap(u))]));
  }

  lemma AddedReads(v: Value, w: Value, tag: string, u: User)
    requires Selects(ByTag(tag), v) && Manager.UsersAccessor(v.fields, true).Ok?
    requires var place := Manager.UsersAccessor(v.fields, true).value.1;
             w == Obj(Manager.SetUsers(v.fields, place, SyncView.UsersOf(v.fields) + [Obj(UserToMap(u))]))
    ensures Grown(w, v)
    ensures u.subID != "" ==> var read := UserFromMap(UserToMap(u), tag);
              read.Some? && read.value in Client.UsersOfInbound(w) && read.value.subID == u.subID && read.value.inboundTag == tag
  {
    var users := SyncView.UsersOf(v.fields);
    var added := Obj(UserToMap(u));
    SyncView.SetUsersReads(v.fields, true, users + [added]);
    UserIdentityReads(u);
    FirstOfFour(u.subID, "", GetString(UserToMap(u), "email"), u.uuid);
    assert u.subID != "" ==> UserFromMap(UserToMap(u), tag).Some? && UserFromMap(UserToMap(u), tag).value.subID == u.subID;
    hide UserToMap, UserFromMap, Manager.UsersAccessor, Manager.SetUsers, SyncView.UsersOf, Client.GetInboundUsers, Client.ReadUsers,
         SyncView.Body;
    Relisting.UsersAgree(v.fields);
    Relisting.UsersAgree(w.fields);
    Client.ReadUsersConcat(users, [added], tag);
    Client.ReadOne(added, tag);
    Relisting.ReadsTag(UserToMap(u), tag);
  }

  /** Replacing the first inbound of a tag by a grown one. */
  lemma FirstReplaced(after: Object, root: Object, tag: string, v: Value, w: Value)
    requires "inbounds" in root && root["inbounds"].Arr? && w.Obj?
    requires Lookup(root["inbounds"].items, ByTag(tag)) == Some(v) && Grown(w, v)
    requires after == Manager.StoreInbound(root, tag, w.fields)
    ensures Extends(after, root) && w in Client.GetInbounds(after)
  {
    var items := root["inbounds"].items;
    var k := Client.FindIndex(items, ByTag(tag));
    hide Lookup, ReplaceFirst, Client.FindIndex, Client.UsersOfInbound, Selects, Client.ObjectsOf;
    assert k < |items|;
    LookupAt(items, ByTag(tag), k);
    var now := items[k := w];
    assert after["inbounds"] == Arr(now);
    assert now[k] == w;
    forall x | x in Client.GetInbounds(root) ensures exists y | y in Client.GetInbounds(after) :: Grown(y, x) {
      var j :| 0 <= j < |items| && items[j] == x;
      assert now[j] in now && Grown(now[j], x);
    }
  }

  // Both writers.

  /** The trees before and after a creation. */
  lemma CreationExtends(file: Option<Value>, c: Creation)
    requires Created(file, c).Some?
    ensures Present(Created(file, c), c)
    ensures Created(file, c).value.Obj?
    ensures file.Some? && (file.value.Obj? ==> Extends(Created(file, c).value.fields, file.value.fields))
  {
    hide Client.Edited, Manager.Edited, Stats.SyncStatsUsers, Extends, Lists, HasInbound, Stats.StatsExact;
    match c
    case ClientUser(u, g) =>
      var root := Stats.LoadRootConfig(file).value;
      ClientUserCreated(root, u, g);
      ClientWrites(file, Client.CreateUser(u, g));
    case ClientInbound(ib) =>
      var root := Stats.LoadRootConfig(file).value;
      ClientInboundCreated(root, ib);
      ClientWrites(file, Client.CreateInbound(ib));
    case ManagerUser(tag, u) =>
      ManagerUserCreated(Manager.LoadConfigMap(file).value, tag, u);
    case ManagerInbound(ib) =>
      ManagerInboundCreated(Manager.LoadConfigMap(file).value, ib);
  }

  /** Bringing the statistics up to date changes no inbound, nor does loading. */
  lemma ClientWrites(file: Option<Value>, r: Client.Request)
    requires Stats.Served(file, r).1.None?
    ensures file.Some? && file.value.Obj? && Stats.LoadRootConfig(file).Ok? && Client.Edited(Stats.LoadRootConfig(file).value, r).Ok?
    ensures var edited, after := Client.Edited(Stats.LoadRootConfig(file).value, r).value, Stats.Served(file, r).0;
      && after.Some? && after.value.Obj?
      && (Extends(edited, Stats.LoadRootConfig(file).value) ==> Extends(after.value.fields, file.value.fields))
      && (forall s, t | Lists(edited, s, t) :: Lists(after.value.fields, s, t))
      && (forall t | HasInbound(edited, t) :: HasInbound(after.value.fields, t))
  {
    hide Client.Edited;
    var root := Stats.LoadRootConfig(file).value;
    var edited := Client.Edited(root, r).value;
    Stats.SyncMakesExact(edited);
    assert Client.GetInbounds(root) == Client.GetInbounds(file.value.fields);
    assert Client.GetInbounds(Stats.SyncStatsUsers(edited)) == Client.GetInbounds(edited);
  }

  lemma PresentKept(file: Option<Value>, c: Creation, other: Creation)
    requires Present(file, other) && Created(file, c).Some?
    ensures Present(Created(file, c), other)
  {
    hide Created, Extends, Lists, HasInbound;
    CreationExtends(file, c);
    var before, after := file.value.fields, Created(file, c).value.fields;
    match other
    case ClientUser(u, _) => if u.subID != "" { ExtendsLists(after, before, u.subID, u.inboundTag); }
    case ManagerUser(tag, u) => if u.subID != "" { ExtendsLists(after, before, u.subID, tag); }
    case ClientInbound(ib) => if "tag" !in ib.options { ExtendsTags(after, before, ib.tag); }
    case ManagerInbound(ib) => ExtendsTags(after, before, ib.tag);
  }

  /** What these creations write is read back. */
  ghost predicate ReadsBack(parse: Protocol.Bytes -> Option<Value>, text: Value -> Protocol.Bytes, creations: seq<Creation>) {
    forall c, b | c in creations && Created(parse(b), c).Some? :: parse(text(Created(parse(b), c).value)) == Created(parse(b), c)
  }

  /** Every write of the history is a creation, or a rollback. */
  ghost predicate Creates(parse: Protocol.Bytes -> Option<Value>, text: Value -> Protocol.Bytes,
                          history: seq<Protocol.Write>, creations: seq<Creation>)
  {
    && |creations| == |history|
    && forall i | 0 <= i < |history| && history[i].Edited? :: history[i].edit == EditOf(parse, text, creations[i])
  }

  /** The i-th write was not rolled back: no later rollback goes back to before it. */
  ghost predicate Stands(history: seq<Protocol.Write>, i: nat) {
    i < |history| && history[i].Edited? && forall j | i < j < |history| && history[j].Restored? :: i < history[j].first
  }

  /** Every run of both writers, whatever its interleaving with timer fires and
      reloads, in which what is edited are creations: all that was created and not
      rolled back is in the file at the end. Without rollbacks that is everything. */
  lemma CreationsSurvive(parse: Protocol.Bytes -> Option<Value>, text: Value -> Protocol.Bytes,
                         start: Protocol.Bytes, actions: seq<Protocol.Action>, creations: seq<Creation>)
    requires ReadsBack(parse, text, creations)
    requires Protocol.Run(Protocol.Start(start), actions).Some?
    requires Creates(parse, text, Protocol.Run(Protocol.Start(start), actions).value.history, creations)
    ensures var s := Protocol.Run(Protocol.Start(start), actions).value;
      forall i | 0 <= i < |creations| && Stands(s.history, i) :: Present(parse(s.file), creations[i])
  {
    Protocol.RunKeepsInv(start, actions);
    var s := Protocol.Run(Protocol.Start(start), actions).value;
    hide Protocol.Run, Present, Created;
    forall i | 0 <= i < |creations| && Stands(s.history, i) ensures Present(parse(s.file), creations[i]) {
      WrittenPresent(parse, text, start, s.history, creations, i);
      var kept := (b: Protocol.Bytes) => Present(parse(b), creations[i]);
      forall j, b | i < j < |s.history| && s.history[j].Edited? && kept(b) && s.history[j].edit(b).Some?
        ensures kept(s.history[j].edit(b).value)
      {
        assert creations[j] in creations;
        PresentKept(parse(b), creations[j], creations[i]);
      }
      Protocol.WriteSurvives(start, s.history, i, |s.history|, kept);
    }
  }

  lemma WrittenPresent(parse: Protocol.Bytes -> Option<Value>, text: Value -> Protocol.Bytes,
                       start: Protocol.Bytes, history: seq<Protocol.Write>, creations: seq<Creation>, i: nat)
    requires ReadsBack(parse, text, creations)
    requires Protocol.HistoryOk(start, history) && i < |history| == |creations|
    requires history[i].Edited? && history[i].edit == EditOf(parse, text, creations[i])
    ensures Present(parse(history[i].after), creations[i])
  {
    hide Present, Created;
    var before := Protocol.ContentAt(start, history, i);
    assert Protocol.WriteOk(start, history, i);
    assert EditOf(parse, text, creations[i])(before) == Some(history[i].after);
    assert creations[i] in creations;
    CreationExtends(parse(before), creations[i]);
  }
}
