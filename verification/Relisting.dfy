/** The current state that a reconciliation plans from is what the REST client lists.
    How that listing relates to the view of the file, and what it takes for a failed
    reconciliation to leave no trace. */
module Relisting {
  import opened Wrappers
  import opened Json
  import opened Entries
  import opened Models
  import opened Diff
  import opened ConfigManager
  import opened Plan
  import opened SyncView
  import opened Rollback
  import opened Reconcile
  import opened InboundListing
  import Client = ClientEdits

  function ListedInbounds(root: Object): map<string, Inbound> {
    ByKey(InboundKey, ReadInbounds(Client.GetInbounds(root)))
  }

  function ListedUsers(root: Object): map<string, User> {
    ByKey(UserKey, Client.GetUsers(root))
  }

  /** Tags and SubIDs are unique, lists are lists, and a stored user answers to the
      SubID under which it is listed, which is in play, and to no other in play. */
  ghost predicate Tidy(root: Object, ids: set<string>) {
    && ("inbounds" in root ==> root["inbounds"].Arr?)
    && (forall tag :: AtMostOne(Inbounds(root), ByTag(tag)))
    && DistinctSubIDs(Client.GetUsers(root))
    && forall v | v in Client.GetInbounds(root) :: TidyInbound(v.fields, ids)
  }

  ghost predicate DistinctSubIDs(users: seq<User>) {
    forall i, j | 0 <= i < j < |users| :: users[i].subID != users[j].subID
  }

  ghost predicate TidyInbound(inbound: Object, ids: set<string>) {
    && UsersAccessor(inbound, true).Ok? && WellKeyed(UsersOf(inbound), ids)
    && forall x | x in UsersOf(inbound) :: TidyEntry(x, GetString(inbound, "tag"), ids)
  }

  ghost predicate TidyEntry(x: Value, tag: string, ids: set<string>) {
    && (x.Obj? && UserFromMap(x.fields, tag).Some? ==>
          var u := UserFromMap(x.fields, tag).value;
          CleanUser(u, ids) && Selects(BySubID(u.subID), x))
    && forall s | s in ids && Selects(BySubID(s), x) :: UserFromMap(x.fields, tag).Some? && UserFromMap(x.fields, tag).value.subID == s
  }

  /** Both readers find an inbound's users in the same place. */
  lemma UsersAgree(inbound: Object)
    requires UsersAccessor(inbound, true).Ok?
    ensures UsersOf(inbound) == Client.GetInboundUsers(inbound)
  {
  }

  lemma {:induction false} ReadUsersHold(users: seq<Value>, tag: string)
    ensures forall u :: u in Client.ReadUsers(users, tag) <==>
              exists x | x in users :: x.Obj? && UserFromMap(x.fields, tag) == Some(u)
  {
    hide UserFromMap;
    if users != [] {
      var last := |users| - 1;
      ReadUsersHold(users[..last], tag);
      assert forall x :: x in users <==> x in users[..last] || x == users[last];
    }
  }

  lemma {:induction false} UsersHold(inbounds: seq<Value>)
    ensures forall u :: u in Client.UsersOfInbounds(inbounds) <==>
              exists v | v in inbounds :: u in Client.UsersOfInbound(v)
  {
    hide Client.UsersOfInbound;
    if inbounds != [] {
      var last := |inbounds| - 1;
      UsersHold(inbounds[..last]);
      assert forall v :: v in inbounds <==> v in inbounds[..last] || v == inbounds[last];
    }
  }

  /** A listed inbound is the one that the manager finds under its tag. */
  lemma InboundListed(root: Object, tag: string)
    requires "inbounds" in root ==> root["inbounds"].Arr?
    requires AtMostOne(Inbounds(root), ByTag(tag))
    ensures var found := Lookup(Inbounds(root), ByTag(tag));
      && (tag in ListedInbounds(root) <==> found.Some?)
      && (found.Some? ==> found.value in Client.GetInbounds(root) && ListedInbounds(root)[tag] == ReadInbound(found.value.fields))
  {
    hide ReadInbound, ByKey, Lookup, AtMostOne;
    var inbounds := Client.GetInbounds(root);
    var read := ReadInbounds(inbounds);
    var found := Lookup(Inbounds(root), ByTag(tag));
    TagRead(inbounds);
    if found.Some? {
      assert found.value in inbounds;
      var k :| 0 <= k < |inbounds| && inbounds[k] == found.value;
      assert read[k] in read && InboundKey(read[k]) == tag;
    }
    if tag in ListedInbounds(root) {
      var j :| 0 <= j < |read| && read[j] == ListedInbounds(root)[tag];
      assert inbounds[j] in inbounds && Selects(ByTag(tag), inbounds[j]);
      OneOnly(Inbounds(root), ByTag(tag), inbounds[j]);
    }
  }

  lemma TagRead(inbounds: seq<Value>)
    requires forall v | v in inbounds :: v.Obj?
    ensures forall k | 0 <= k < |inbounds| :: InboundKey(ReadInbounds(inbounds)[k]) == GetString(inbounds[k].fields, "tag")
  {
  }

  lemma EntryListed(root: Object, v: Value, x: Value, u: User)
    requires v in Client.GetInbounds(root) && x in Client.GetInboundUsers(v.fields) && x.Obj?
    requires UserFromMap(x.fields, GetString(v.fields, "tag")) == Some(u)
    ensures u in Client.GetUsers(root)
  {
    hide Client.GetInbounds, Client.GetInboundUsers, UserFromMap, Client.UsersOfInbounds, Client.ReadUsers;
    ReadUsersHold(Client.GetInboundUsers(v.fields), GetString(v.fields, "tag"));
    UsersHold(Client.GetInbounds(root));
  }

  /** The view of one inbound, by its users. */
  lemma ViewedUser(root: Object, ids: set<string>, tag: string, s: string)
    ensures var found := Lookup(Inbounds(root), ByTag(tag));
      UserAt(ViewConfig(root, ids), tag, s) ==
      if found.Some? && s in ids && Lookup(UsersOf(found.value.fields), BySubID(s)).Some?
      then Some(Lookup(UsersOf(found.value.fields), BySubID(s)).value.fields)
      else None
  {
    hide Lookup, Body, UsersAccessor, UsersOf, OthersOf;
    ViewedTags(root, Scope(ids, {}), tag);
  }

  /** What the view holds under a SubID is listed as the client reads it. */
  lemma StoredIsListed(root: Object, ids: set<string>, tag: string, s: string)
    requires Tidy(root, ids) && UserAt(ViewConfig(root, ids), tag, s).Some?
    ensures s in ListedUsers(root) && Some(ListedUsers(root)[s]) == UserFromMap(UserAt(ViewConfig(root, ids), tag, s).value, tag)
    ensures ListedUsers(root)[s].inboundTag == tag
  {
    hide Client.GetInbounds, UserFromMap, UsersAccessor, Selects, ByKey, Client.GetUsers, Lookup, ViewConfig, Tags, UserAt, WellKeyed,
         AtMostOne, CleanUser;
    ViewedUser(root, ids, tag, s);
    InboundListed(root, tag);
    var v := Lookup(Inbounds(root), ByTag(tag)).value;
    TaggedSo(v, tag);
    assert TidyInbound(v.fields, ids);
    UsersAgree(v.fields);
    var x := Lookup(UsersOf(v.fields), BySubID(s)).value;
    assert TidyEntry(x, tag, ids);
    var u := UserFromMap(x.fields, tag).value;
    ReadsTag(x.fields, tag);
    hide UsersOf, Client.GetInboundUsers;
    EntryListed(root, v, x, u);
    ListedOnce(root, u);
  }

  lemma TaggedSo(v: Value, tag: string)
    requires Selects(ByTag(tag), v)
    ensures GetString(v.fields, "tag") == tag
  {
  }

  lemma ListedOnce(root: Object, u: User)
    requires DistinctSubIDs(Client.GetUsers(root)) && u in Client.GetUsers(root)
    ensures u.subID in ListedUsers(root) && ListedUsers(root)[u.subID] == u
  {
    hide Client.GetUsers, ByKey;
    var users, listed := Client.GetUsers(root), ListedUsers(root);
    assert UserKey(u) in listed && UserKey(listed[u.subID]) == u.subID;
    var i :| 0 <= i < |users| && users[i] == u;
    var j :| 0 <= j < |users| && users[j] == listed[u.subID];
    assert i == j;
  }

  /** And what is listed under a SubID the view holds. */
  lemma ListedIsStored(root: Object, ids: set<string>, s: string)
    requires Tidy(root, ids) && s in ListedUsers(root)
    ensures var u := ListedUsers(root)[s];
      u.subID == s && CleanUser(u, ids) && u.inboundTag in ListedInbounds(root) && UserAt(ViewConfig(root, ids), u.inboundTag, s).Some?
  {
    hide Client.GetInbounds, UserFromMap, UsersAccessor, Selects, ByKey, Client.UsersOfInbounds, Client.ReadUsers, WellKeyed, AtMostOne,
         UserAt, ViewConfig;
    var u := ListedUsers(root)[s];
    assert UserKey(u) == s && u in Client.GetUsers(root);
    UsersHold(Client.GetInbounds(root));
    var v :| v in Client.GetInbounds(root) && u in Client.UsersOfInbound(v);
    var tag := GetString(v.fields, "tag");
    assert TidyInbound(v.fields, ids);
    UsersAgree(v.fields);
    var users := UsersOf(v.fields);
    ReadUsersHold(users, tag);
    var x :| x in users && x.Obj? && UserFromMap(x.fields, tag) == Some(u);
    assert TidyEntry(x, tag, ids);
    ReadsTag(x.fields, tag);
    FoundByTag(root, v);
    InboundListed(root, tag);
    ViewedUser(root, ids, tag, s);
    assert Lookup(users, BySubID(s)).Some?;
  }

  lemma ReadsTag(m: Object, tag: string)
    ensures UserFromMap(m, tag).Some? ==> UserFromMap(m, tag).value.inboundTag == tag
  {
  }

  lemma FoundByTag(root: Object, v: Value)
    requires "inbounds" in root ==> root["inbounds"].Arr?
    requires v in Client.GetInbounds(root) && AtMostOne(Inbounds(root), ByTag(GetString(v.fields, "tag")))
    ensures Lookup(Inbounds(root), ByTag(GetString(v.fields, "tag"))) == Some(v)
  {
    hide Lookup, AtMostOne;
    var tag := GetString(v.fields, "tag");
    assert v in Inbounds(root) && Selects(ByTag(tag), v);
    OneOnly(Inbounds(root), ByTag(tag), v);
  }

  // A tidy file can be planned for.

  lemma ListedInboundFits(root: Object, ids: set<string>, tag: string)
    requires Tidy(root, ids) && tag in ListedInbounds(root)
    ensures var ib := ListedInbounds(root)[tag];
            var m := StoredInbound(root, tag);
      && Lookup(Inbounds(root), ByTag(tag)) == Some(Obj(m))
      && ib == ReadInbound(m) && ib.tag == tag && GetString(m, "tag") == tag && TidyInbound(m, ids)
  {
    hide Client.GetInbounds, UserFromMap, ByKey, Lookup, CleanUser, GetInt, TidyInbound;
    InboundListed(root, tag);
    var v := Lookup(Inbounds(root), ByTag(tag)).value;
    TaggedSo(v, tag);
  }

  /** The inbound stored under a tag. */
  function StoredInbound(root: Object, tag: string): Object {
    match Lookup(Inbounds(root), ByTag(tag))
    case Some(Obj(m)) => m
    case _ => map[]
  }

  /** Users among the listed options are the inbound's own list. */
  lemma ListedOptions(m: Object)
    requires UsersAccessor(m, true).Ok?
    ensures var ib := ReadInbound(m);
      && ("users" in ib.options <==> "users" in m) && ("users" in ib.options ==> ib.options["users"].Arr?)
      && OptionUsers(ib) == (if "users" in m then UsersOf(m) else [])
      && ("options" in ib.options <==> "options" in m) && ("options" in m ==> ib.options["options"] == m["options"])
  {
    hide GetInt, GetString;
    assert "users" !in SETTINGS && "options" !in SETTINGS;
  }

  lemma CarriedIsStored(root: Object, ids: set<string>, tag: string, s: string)
    requires Tidy(root, ids) && tag in ListedInbounds(root) && s in Carried(ListedInbounds(root)[tag], ids)
    ensures UserAt(ViewConfig(root, ids), tag, s).Some?
  {
    hide Tidy, ListedInbounds, OptionUsers, UsersOf, UserAt, ViewConfig, ReadInbound, UsersAccessor, WellKeyed, TidyEntry;
    ListedInboundFits(root, ids, tag);
    ListedOptions(StoredInbound(root, tag));
    ViewedUser(root, ids, tag, s);
    NothingFound(s);
  }

  lemma NothingFound(s: string)
    ensures Lookup([], BySubID(s)) == None
  {
  }

  lemma InboundFound(root: Object, ids: set<string>, tag: string)
    requires Tidy(root, ids)
    ensures tag in ListedInbounds(root) <==> Lookup(Inbounds(root), ByTag(tag)).Some?
    ensures tag in ListedInbounds(root) <==> tag in ViewConfig(root, ids)
  {
    InboundListed(root, tag);
    ViewedTags(root, Scope(ids, {}), tag);
    hide Lookup, AtMostOne;
  }

  lemma TidyKeys(root: Object, ids: set<string>)
    requires Tidy(root, ids)
    ensures KeysOf(ListedInbounds(root), ListedUsers(root), ViewConfig(root, ids))
  {
    hide Tidy, UserAt, ViewConfig, ListedInbounds, ListedUsers;
    forall t ensures t in ListedInbounds(root) <==> t in ViewConfig(root, ids) {
      InboundFound(root, ids, t);
    }
    forall t, s ensures UserAt(ViewConfig(root, ids), t, s).Some? <==> s in ListedUsers(root) && ListedUsers(root)[s].inboundTag == t {
      if UserAt(ViewConfig(root, ids), t, s).Some? { StoredIsListed(root, ids, t, s); }
      if s in ListedUsers(root) { ListedIsStored(root, ids, s); }
    }
  }

  lemma TidyListable(root: Object, ids: set<string>)
    requires Tidy(root, ids)
    ensures Listable(ListedInbounds(root), ListedUsers(root), ids)
  {
    hide Tidy, UserAt, ViewConfig, ListedInbounds, ListedUsers, OptionUsers, WellKeyed, CleanUser, Carried, ReadInbound, UsersAccessor,
         UsersOf, TidyEntry, StoredInbound;
    forall t | t in ListedInbounds(root)
      ensures ListedInbounds(root)[t].tag == t && ListableInbound(ListedInbounds(root)[t], ListedUsers(root), ids)
    {
      ListedInboundFits(root, ids, t);
      ListedOptions(StoredInbound(root, t));
      NothingKeyed(ids);
      forall s | s in Carried(ListedInbounds(root)[t], ids)
        ensures s in ListedUsers(root) && ListedUsers(root)[s].inboundTag == t
      {
        CarriedIsStored(root, ids, t, s);
        StoredIsListed(root, ids, t, s);
      }
    }
    forall s | s in ListedUsers(root)
      ensures var u := ListedUsers(root)[s]; u.subID == s && u.inboundTag in ListedInbounds(root) && CleanUser(u, ids)
    {
      ListedIsStored(root, ids, s);
    }
  }

  lemma NothingKeyed(ids: set<string>)
    ensures WellKeyed([], ids)
  {
  }

  lemma TidySound(root: Object, ids: set<string>, listed: set<string>)
    requires Tidy(root, ids)
    requires forall t | t in listed :: t in ListedInbounds(root) && "users" in ListedInbounds(root)[t].options
    ensures Sound(root, Scope(ids, listed))
  {
    hide Lookup, ListedInbounds, UsersAccessor, WellKeyed, UsersOf, TidyEntry, AtMostOne, ReadInbound, StoredInbound;
    forall t | t in Tags(Inbounds(root))
      ensures SoundInbound(Lookup(Inbounds(root), ByTag(t)).value.fields, t, Scope(ids, listed))
    {
      InboundFound(root, ids, t);
      ListedInboundFits(root, ids, t);
      ListedOptions(StoredInbound(root, t));
    }
  }

  // What can be put back from the listing.

  /** An inbound with nothing but canonical settings. */
  predicate Plain(m: Object) {
    && m.Keys <= {"tag", "type", "listen", "port"}
    && "tag" in m && m["tag"].Str? && "type" in m && m["type"].Str?
    && ("listen" in m ==> m["listen"].Str? && m["listen"].s != "")
    && ("port" in m ==> m["port"].Num? && m["port"].n == Truncated(m["port"].n) as real && m["port"].n != 0.0)
  }

  /** Replacing an inbound and replacing it again by what was listed for it gives it
      again exactly when it is plain and has not been given options. */
  lemma RestoresPlain(m: Object, item: Inbound)
    requires UsersAccessor(m, true).Ok?
    ensures Restores(Body(m), item, ReadInbound(m)) <==> Plain(m) && item.options == map[]
  {
    hide InboundToMap;
    if Plain(m) { PlainReads(m); }
    if Restores(Body(m), item, ReadInbound(m)) {
      NoOptions(m, item);
      ReadsPlain(m);
    }
  }

  /** Deleting an inbound and adding what was listed for it gives it again exactly
      when it is plain. */
  lemma AddsPlain(m: Object, ids: set<string>)
    requires UsersAccessor(m, true).Ok?
    ensures NewShell(ReadInbound(m), ids) == ShellOf(m, ids) && Carried(ReadInbound(m), ids) == map[] <==> Plain(m)
  {
    var ib := ReadInbound(m);
    ListedOptions(m);
    StoredReads(ib);
    if Plain(m) {
      PlainReads(m);
      AddedPlainly(ib, ids);
      assert UsersOf(m) == [];
    }
    if NewShell(ib, ids) == ShellOf(m, ids) {
      assert "users" !in m && !UsersInOptions(m);
      AddedPlainly(ib, ids);
      hide InboundToMap, GetInt;
      assert Body(m) == m;
      assert "options" !in m && ib.options == map[];
      assert m - {"options", "users"} == InboundToMap(ib) - {"options"};
      ReadsPlain(m);
    }
  }

  lemma PlainReads(m: Object)
    requires Plain(m)
    ensures var ib := ReadInbound(m); ib.options == map[] && m == InboundToMap(ib) && Body(m) == m
    ensures m - {"options", "users"} == InboundToMap(ReadInbound(m)) - {"options"} && OptionsOf(m) == None
  {
    var ib := ReadInbound(m);
    PortReads(m);
    SettingsStored(ib);
    StoredReads(ib);
    hide InboundToMap, Truncated, GetInt;
    assert ib.options == map[];
    assert m - {"users"} == m;
  }

  /** Its listed options would contain themselves. */
  lemma NoOptions(m: Object, item: Inbound)
    requires UsersAccessor(m, true).Ok? && Restores(Body(m), item, ReadInbound(m))
    ensures "options" !in m && "users" !in m && item.options == map[] && ReadInbound(m).options == map[]
    ensures m - {"options", "users"} == InboundToMap(ReadInbound(m)) - {"options"}
  {
    ListedOptions(m);
    hide InboundToMap, ReadInbound;
    var ib := ReadInbound(m);
    if "options" in m {
      var o := OptionsOf(Body(m)).value;
      assert "options" in ib.options - {"users"} && "options" in o - {"users"};
      assert o["options"] == m["options"];
      NotInItself(m["options"], "options");
      assert false;
    }
    assert Body(m) - {"options", "users"} == m - {"options", "users"};
  }

  lemma ReadsPlain(m: Object)
    requires "options" !in m && "users" !in m && ReadInbound(m).options == map[]
    requires m - {"options", "users"} == InboundToMap(ReadInbound(m)) - {"options"}
    ensures Plain(m)
  {
    var ib := ReadInbound(m);
    PortReads(m);
    SettingsStored(ib);
    StoredReads(ib);
    hide InboundToMap, Truncated, GetInt;
    assert m - {"options", "users"} == m && InboundToMap(ib) - {"options"} == InboundToMap(ib);
  }

  /** An entry as the manager writes it for a user of this inbound without limits. */
  predicate Managed(m: Object, tag: string) {
    && m.Keys <= {"subId", "uuid", "inboundTag", "email", "enabled", "flow"}
    && "subId" in m && m["subId"].Str? && m["subId"].s != ""
    && "inboundTag" in m && m["inboundTag"] == Str(tag) && "enabled" in m && m["enabled"].Bool?
    && (forall key | key in m && key in {"uuid", "email", "flow"} :: m[key].Str? && m[key].s != "")
  }

  /** Storing a user as it was listed gives its entry again exactly when the manager
      wrote the entry, and without limits or a reset date. */
  lemma ManagedExactly(m: Object, tag: string)
    requires UserFromMap(m, tag).Some?
    ensures m == UserToMap(UserFromMap(m, tag).value) <==> Managed(m, tag)
  {
    hide UserToMap, UserFromMap;
    var u := UserFromMap(m, tag).value;
    EntryReads(m, tag);
    UserStored(u);
    if Managed(m, tag) { ManagedStored(m, tag, u, UserToMap(u)); }
  }

  /** What the client makes of an entry, field by field. */
  lemma EntryReads(m: Object, tag: string)
    requires UserFromMap(m, tag).Some?
    ensures var u := UserFromMap(m, tag).value;
      && u.subID != "" && u.inboundTag == tag && Unlimited(u) == u
      && (GetString(m, "subId") != "" ==> u.subID == GetString(m, "subId"))
      && ("password" !in m ==> u.uuid == GetString(m, "uuid"))
      && u.email == GetString(m, "email") && u.flow == GetString(m, "flow")
      && ("enabled" in m && m["enabled"].Bool? ==> u.enabled == m["enabled"].b)
  {
    FirstOfFour(GetString(m, "subId"), GetString(m, "name"), GetString(m, "email"), GetString(m, "uuid"));
    FirstNonEmptyPair(GetString(m, "uuid"), GetString(m, "password"));
    hide FirstNonEmpty;
  }

  lemma ManagedStored(m: Object, tag: string, u: User, b: Object)
    requires Managed(m, tag) && EntryOf(u, b) && u == Unlimited(u)
    requires u.subID == GetString(m, "subId") && u.inboundTag == tag && u.uuid == GetString(m, "uuid")
    requires u.email == GetString(m, "email") && u.flow == GetString(m, "flow") && u.enabled == m["enabled"].b
    ensures m == b
  {
    assert EntryOf(u, m);
    EntryDetermines(u, m, b);
  }

  /** The manager finds an entry that it wrote for such a user. */
  predicate ManagedAt(view: View, tag: string, s: string) {
    match UserAt(view, tag, s)
    case None => false
    case Some(m) => Managed(m, tag)
  }

  /** A listed user is stored as it is listed exactly when its entry is managed. */
  lemma ListedUserIsStored(root: Object, ids: set<string>, s: string)
    requires Tidy(root, ids) && s in ListedUsers(root)
    ensures StoredAs(ViewConfig(root, ids), ListedUsers(root)[s]) <==> ManagedAt(ViewConfig(root, ids), ListedUsers(root)[s].inboundTag, s)
  {
    hide Tidy, UserAt, ViewConfig, ListedUsers, Managed, UserFromMap, UserToMap;
    var tag := ListedUsers(root)[s].inboundTag;
    ListedIsStored(root, ids, s);
    StoredIsListed(root, ids, tag, s);
    ManagedExactly(UserAt(ViewConfig(root, ids), tag, s).value, tag);
  }

  // When the listing says what is stored.

  lemma ListedShell(root: Object, ids: set<string>, tag: string)
    requires Tidy(root, ids) && tag in ListedInbounds(root)
    ensures ShellAt(ViewConfig(root, ids), tag) == Some(ShellOf(StoredInbound(root, tag), ids))
    ensures ListedInbounds(root)[tag] == ReadInbound(StoredInbound(root, tag)) && UsersAccessor(StoredInbound(root, tag), true).Ok?
    ensures ViewConfig(root, ids)[tag].users == UsersView(UsersOf(StoredInbound(root, tag)), ids)
  {
    hide Lookup, ReadInbound, ListedInbounds, UsersView, UsersOf, ShellOf, Tidy, UsersAccessor, WellKeyed, TidyEntry;
    ListedInboundFits(root, ids, tag);
    ViewedTags(root, Scope(ids, {}), tag);
  }

  /** But for its own list of users the inbound is plain, and all entries are listed. */
  predicate ShownByListing(m: Object, ids: set<string>) {
    Plain(m - {"users"}) && forall x | x in UsersOf(m) :: Answers(x, ids)
  }

  lemma {:induction false} NoOthers(users: seq<Value>, ids: set<string>)
    ensures multiset(OthersOf(users, ids)) == multiset{} <==> forall x | x in users :: Answers(x, ids)
  {
    hide Answers;
    if users != [] {
      NoOthers(users[1..], ids);
      assert users == [users[0]] + users[1..];
    }
  }

  lemma ShellShown(m: Object, ids: set<string>)
    requires UsersAccessor(m, true).Ok?
    ensures ShellOf(m, ids) == PlainShell(Bare(ReadInbound(m))) <==> ShownByListing(m, ids)
  {
    var bare := m - {"users"};
    NoOthers(UsersOf(m), ids);
    ListedOptions(m);
    BareRead(m);
    StoredReads(ReadInbound(bare));
    hide InboundToMap, ReadInbound, OthersOf, Answers, UsersOf;
    if Plain(bare) {
      PlainReads(bare);
      assert !UsersInOptions(m);
    }
    if Body(m) == InboundToMap(ReadInbound(bare)) && !UsersInOptions(m) {
      NoOptionsShown(m);
      ReadsPlain(bare);
    }
  }

  lemma BareRead(m: Object)
    ensures Bare(ReadInbound(m)) == ReadInbound(m - {"users"})
  {
    PortReads(m);
    PortReads(m - {"users"});
    hide GetInt;
    assert (m - SETTINGS) - {"users"} == (m - {"users"}) - SETTINGS;
  }

  lemma NoOptionsShown(m: Object)
    requires UsersAccessor(m, true).Ok? && !UsersInOptions(m)
    requires Body(m) == InboundToMap(ReadInbound(m - {"users"}))
    ensures var bare := m - {"users"};
      && "options" !in bare && "users" !in bare && ReadInbound(bare).options == map[]
      && bare - {"options", "users"} == InboundToMap(ReadInbound(bare)) - {"options"}
  {
    var bare := m - {"users"};
    var ib := ReadInbound(bare);
    StoredReads(ib);
    hide InboundToMap, GetInt, GetString;
    NotInItself(Obj(ib.options), "options");
    assert Body(m) == bare;
    assert At(ib.options, "options") == At(bare, "options");
    assert bare - {"options", "users"} == bare && InboundToMap(ib) - {"options"} == InboundToMap(ib);
  }

  /** The client's listing of a tidy file is the state that the file shows exactly
      when every inbound is plain but for a list of its own, in which every entry is
      listed, and every listed user's entry is one that the manager wrote. */
  lemma ListingShows(root: Object, ids: set<string>)
    requires Tidy(root, ids)
    ensures ViewConfig(root, ids) == StateView(ListedInbounds(root), ListedUsers(root)) <==>
            && (forall t | t in ListedInbounds(root) :: ShownByListing(StoredInbound(root, t), ids))
            && (forall s | s in ListedUsers(root) :: ManagedAt(ViewConfig(root, ids), ListedUsers(root)[s].inboundTag, s))
  {
    var view, listed := ViewConfig(root, ids), StateView(ListedInbounds(root), ListedUsers(root));
    hide Tidy, ViewConfig, ListedInbounds, ListedUsers, StateView, ShownByListing, ManagedAt, StoredInbound, ShellAt, UserAt;
    forall t ensures ShellAt(listed, t) == ShellAt(view, t) <==> (t in ListedInbounds(root) ==> ShownByListing(StoredInbound(root, t), ids)) {
      ShellAtShown(root, ids, t);
    }
    UsersShown(root, ids);
    if (forall t :: ShellAt(listed, t) == ShellAt(view, t)) && (forall t, s :: UserAt(listed, t, s) == UserAt(view, t, s)) {
      ViewsEqual(listed, view);
    }
  }

  lemma ShellAtShown(root: Object, ids: set<string>, t: string)
    requires Tidy(root, ids)
    ensures ShellAt(StateView(ListedInbounds(root), ListedUsers(root)), t) == ShellAt(ViewConfig(root, ids), t) <==>
            (t in ListedInbounds(root) ==> ShownByListing(StoredInbound(root, t), ids))
  {
    TidyListable(root, ids);
    hide Tidy, ViewConfig, ListedInbounds, ListedUsers, StateView, ShownByListing, StoredInbound, ShellOf, PlainShell, Bare, ReadInbound,
         CleanUser, ListableInbound, UsersAccessor;
    StateAt(ListedInbounds(root), ListedUsers(root), t, "");
    InboundFound(root, ids, t);
    if t in ListedInbounds(root) {
      ListedShell(root, ids, t);
      ShellShown(StoredInbound(root, t), ids);
    }
  }

  lemma UsersShown(root: Object, ids: set<string>)
    requires Tidy(root, ids)
    ensures (forall t, s :: UserAt(StateView(ListedInbounds(root), ListedUsers(root)), t, s) == UserAt(ViewConfig(root, ids), t, s)) <==>
            forall s | s in ListedUsers(root) :: ManagedAt(ViewConfig(root, ids), ListedUsers(root)[s].inboundTag, s)
  {
    TidyListable(root, ids);
    TidyKeys(root, ids);
    hide Tidy, ViewConfig, ListedInbounds, ListedUsers, StateView, ManagedAt, CleanUser, ListableInbound, UserToMap;
    var view, listed := ViewConfig(root, ids), StateView(ListedInbounds(root), ListedUsers(root));
    forall t, s ensures UserAt(listed, t, s) == UserAt(view, t, s) <==>
                        (s in ListedUsers(root) && ListedUsers(root)[s].inboundTag == t ==> ManagedAt(view, t, s))
    {
      StateAt(ListedInbounds(root), ListedUsers(root), t, s);
      assert UserAt(view, t, s).Some? <==> s in ListedUsers(root) && ListedUsers(root)[s].inboundTag == t;
      if s in ListedUsers(root) { ListedIsStored(root, ids, s); ListedUserIsStored(root, ids, s); }
      hide UserAt;
    }
    hide UserAt;
    forall s | s in ListedUsers(root) && UserAt(listed, ListedUsers(root)[s].inboundTag, s) == UserAt(view, ListedUsers(root)[s].inboundTag, s)
      ensures ManagedAt(view, ListedUsers(root)[s].inboundTag, s)
    {
    }
  }

  // Reconciling from the client's own listing.

  /** The changes between a desired state and what the client lists of a file. */
  ghost predicate Planned(d: Diffs, root: Object) {
    && d.currentInbounds == ListedInbounds(root) && d.currentUsers == ListedUsers(root)
    && IsDiff(InboundKey, d.desiredInbounds, d.currentInbounds, d.inbounds)
    && IsDiff(UserKey, d.desiredUsers, d.currentUsers, d.users)
  }

  ghost predicate FromListing(d: Diffs, root: Object, ids: set<string>) {
    Planned(d, root) && Desirable(d.desiredInbounds, d.desiredUsers, ids)
  }

  /** What the step meets in the file can be put back from the listing: a plain inbound,
      unless it is given options, or a user's entry that the manager wrote, without
      limits. */
  predicate PutBack(step: Step, root: Object, ids: set<string>) {
    match step
    case InboundStep(Change(Update, ib, _)) => Plain(StoredInbound(root, ib.tag)) && ib.options == map[]
    case InboundStep(Change(Delete, ib, _)) => Plain(StoredInbound(root, ib.tag))
    case UserStep(Change(Create, u, _)) => true
    case UserStep(Change(_, _, Some(prev))) => ManagedAt(ViewConfig(root, ids), prev.inboundTag, prev.subID)
    case _ => true
  }

  lemma InboundPutBack(d: Diffs, root: Object, ids: set<string>, c: InboundChange)
    requires Tidy(root, ids) && FromListing(d, root, ids) && c in d.inbounds
    ensures Recorded(InboundStep(c), ViewConfig(root, ids), ids) <==> PutBack(InboundStep(c), root, ids)
  {
    hide Tidy, ViewConfig, ListedInbounds, ListedUsers, Plain, StoredInbound, Desirable, Carried, ReadInbound, Restores, Body, NewShell,
         UsersAccessor, UsersInOptions, OthersOf, UsersOf;
    var tag := InboundKey(c.item);
    assert Expected(d.desiredInbounds, d.currentInbounds, tag) == Some(c);
    hide IsDiff;
    if tag in ListedInbounds(root) {
      var m := StoredInbound(root, tag);
      ListedShell(root, ids, tag);
      InboundFound(root, ids, tag);
      assert ReadInbound(m).tag == tag by { ListedInboundFits(root, ids, tag); }
      RestoresPlain(m, c.item);
      AddsPlain(m, ids);
    }
  }

  lemma UserPutBack(d: Diffs, root: Object, ids: set<string>, c: UserChange)
    requires Tidy(root, ids) && FromListing(d, root, ids) && c in d.users
    ensures Recorded(UserStep(c), ViewConfig(root, ids), ids) <==> PutBack(UserStep(c), root, ids)
  {
    hide Tidy, ViewConfig, ListedInbounds, ListedUsers, Desirable, ManagedAt, StoredAs;
    var s := UserKey(c.item);
    assert Expected(d.desiredUsers, d.currentUsers, s) == Some(c);
    hide IsDiff;
    if s in ListedUsers(root) {
      ListedUserIsStored(root, ids, s);
      ListedIsStored(root, ids, s);
    }
  }

  lemma FromListingValid(d: Diffs, root: Object, ids: set<string>)
    requires Tidy(root, ids) && FromListing(d, root, ids)
    ensures d.Valid(ids) && KeysOf(d.currentInbounds, d.currentUsers, ViewConfig(root, ids))
    ensures Shows(Some(Obj(root)), d.Scope(ids), ViewConfig(root, ids))
  {
    hide Tidy, ViewConfig, ListedInbounds, ListedUsers, Desirable, IsDiff, Sound, Listable;
    TidyListable(root, ids);
    TidyKeys(root, ids);
    TidySound(root, ids, d.Scope(ids).listed);
  }

  /** The plan that the engine makes for a tidy file: it is applied exactly when
      nobody moves and the reload succeeds or is not needed, and what is desired is
      then reached wherever it differs from the listing. Otherwise the config is as
      before, and no rollback fails, exactly when everything that a tried step meets
      can be put back. */
  lemma OwnListingExactly(d: Diffs, root: Object, ids: set<string>, reload: bool, again: bool)
    requires Tidy(root, ids) && FromListing(d, root, ids) && "" !in ids
    ensures var (after, outcome) := Executed(true, d.Steps(), Some(Obj(root)), reload, again);
      && (outcome.Applied? <==> d.NobodyMoves() && (reload || d.NothingToDo()))
      && (outcome.Applied? ==> Shows(after, d.Scope(ids), d.Goal(ViewConfig(root, ids))))
      && (!outcome.Applied? ==>
            (Unchanged(Some(Obj(root)), after) && !RollbackFailed(outcome) <==>
             forall step | step in d.Steps()[..FirstMove(d.Steps())] :: PutBack(step, root, ids)))
  {
    FromListingValid(d, root, ids);
    StepsForHolds(d.inbounds, d.users);
    hide Shows, Executed, StepsFor, Recorded, PutBack, FirstMove, Tidy, Diffs.Valid, KeysOf, FromListing, ViewConfig, Unchanged;
    ReconcilesExactly(d, ids, ViewConfig(root, ids), Some(Obj(root)), reload, again);
    forall step | step in d.Steps() ensures Recorded(step, ViewConfig(root, ids), ids) <==> PutBack(step, root, ids) {
      match step
      case InboundStep(c) => InboundPutBack(d, root, ids, c);
      case UserStep(c) => UserPutBack(d, root, ids, c);
    }
    assert forall step | step in d.Steps()[..FirstMove(d.Steps())] :: step in d.Steps();
  }

  /** An up-to-date listing is not enough: below an inbound with options gets a new
      type, the reload fails, and the rollback stores the listed options, which hold
      the old options object, in place of the old options. */
  lemma RelistedInboundChanges()
    ensures var was: Object := map["tag" := Str("a"), "type" := Str("vless"), "options" := Obj(map["x" := Bool(true)])];
            var now: Object := was["options" := Obj(map["options" := was["options"]])];
            var step := InboundStep(Change(Update, Inbound("a", "vmess", "", 0, map["x" := Bool(true)]), Some(ReadInbound(was))));
      Executed(true, [step], Alone(was), false, true) == (Alone(now), ReloadFailed)
  {
    var x: Object := map["x" := Bool(true)];
    var was: Object := map["tag" := Str("a"), "type" := Str("vless"), "options" := Obj(x)];
    var wanted := Inbound("a", "vmess", "", 0, x);
    var prev := ReadInbound(was);
    PortReads(was);
    assert prev == Inbound("a", "vless", "", 0, map["options" := Obj(x)]);
    var mid: Object := map["tag" := Str("a"), "type" := Str("vmess"), "options" := Obj(x)];
    var now: Object := map["tag" := Str("a"), "type" := Str("vless"), "options" := Obj(map["options" := Obj(x)])];
    StoredWith("a", "vmess", x, "x");
    StoredWith("a", "vless", map["options" := Obj(x)], "options");
    hide InboundToMap;
    assert PreserveUsers(was, mid) == mid && PreserveUsers(mid, now) == now;
    UpdatedAlone(was, wanted, mid);
    UpdatedAlone(mid, prev, now);
    hide ReadInbound, InboundToMap, PreserveUsers;
    RolledBack(InboundStep(Change(Update, wanted, Some(prev))), Alone(was), Alone(mid), Alone(now));
    assert was["options" := Obj(map["options" := was["options"]])] == now;
  }

  lemma StoredWith(tag: string, kind: string, options: Object, key: string)
    requires key in options
    ensures InboundToMap(Inbound(tag, kind, "", 0, options)) == map["tag" := Str(tag), "type" := Str(kind), "options" := Obj(options)]
  {
    var m := InboundToMap(Inbound(tag, kind, "", 0, options));
    assert m.Keys == {"tag", "type", "options"};
  }

  /** Nor is it for an inbound without options that has users: the listed options hold
      its list of users, and the rollback leaves a copy there. */
  lemma RelistedUsersLinger()
    ensures var users := Arr([Obj(map["uuid" := Str("p"), "name" := Str("n")])]);
            var was: Object := map["tag" := Str("a"), "type" := Str("vless"), "users" := users];
            var now: Object := was["options" := Obj(map["users" := users])];
            var step := InboundStep(Change(Update, Inbound("a", "vmess", "", 0, map[]), Some(ReadInbound(was))));
      Executed(true, [step], Alone(was), false, true) == (Alone(now), ReloadFailed)
  {
    var users := Arr([Obj(map["uuid" := Str("p"), "name" := Str("n")])]);
    var was: Object := map["tag" := Str("a"), "type" := Str("vless"), "users" := users];
    var wanted := Inbound("a", "vmess", "", 0, map[]);
    var prev := ReadInbound(was);
    PortReads(was);
    assert prev == Inbound("a", "vless", "", 0, map["users" := users]);
    StoredWithout("a", "vmess");
    StoredWith("a", "vless", map["users" := users], "users");
    hide InboundToMap;
    var mid: Object := map["tag" := Str("a"), "type" := Str("vmess"), "users" := users];
    var now: Object := was["options" := Obj(map["users" := users])];
    assert PreserveUsers(was, InboundToMap(wanted)) == mid;
    assert PreserveUsers(mid, InboundToMap(prev)) == now;
    UpdatedAlone(was, wanted, mid);
    UpdatedAlone(mid, prev, now);
    RolledBack(InboundStep(Change(Update, wanted, Some(prev))), Alone(was), Alone(mid), Alone(now));
  }

  lemma StoredWithout(tag: string, kind: string)
    ensures InboundToMap(Inbound(tag, kind, "", 0, map[])) == map["tag" := Str(tag), "type" := Str(kind)]
  {
    var m := InboundToMap(Inbound(tag, kind, "", 0, map[]));
    assert m.Keys == {"tag", "type"};
  }

  /** A single step that applies, a reload that fails, and the step's rollback. */
  lemma RolledBack(step: Step, f: File, g: File, h: File)
    requires Tried(true, f, ExecuteEdit(step)) == (g, None) && Tried(true, g, RollbackEdit(step)) == (h, None)
    ensures Executed(true, [step], f, false, true) == (h, ReloadFailed)
  {
    hide Tried;
    assert [step][1..] == [] && [step][..0] == [];
    assert Run(true, [step], f) == Progress(g, 1, None);
    assert Unwind(true, [step], g) == (h, None);
  }

  /** Nor for a user whose entry the REST client wrote: the rollback stores the listed
      user as the manager writes it, and the password is gone. */
  lemma RelistedUserRewritten()
    ensures var was: Object := map["name" := Str("n"), "password" := Str("p")];
            var prev := User("n", "p", "a", "", true, "", 0, 0, 0, None);
            var step := UserStep(Change(Update, prev.(email := "e"), Some(prev)));
      && UserFromMap(was, "a") == Some(prev) && "password" !in UserToMap(prev)
      && Executed(true, [step], AloneWith(was), false, true) == (AloneWith(UserToMap(prev)), ReloadFailed)
  {
    hide UserToMap, UserFromMap, Tried, AloneWith, Executed, Committed, UserMapMatchesSubID;
    var was: Object := map["name" := Str("n"), "password" := Str("p")];
    var prev := User("n", "p", "a", "", true, "", 0, 0, 0, None);
    var u := prev.(email := "e");
    ListedByName(was);
    StoredMatches(u);
    UserStored(prev);
    UserUpdatedAlone(was, u);
    UserUpdatedAlone(UserToMap(u), prev);
    var f, g, h := AloneWith(was), AloneWith(UserToMap(u)), AloneWith(UserToMap(prev));
    TriedIs(f, Edit.UpdateUser("a", u));
    TriedIs(g, Edit.UpdateUser("a", prev));
    RolledBack(UserStep(Change(Update, u, Some(prev))), f, g, h);
  }

  lemma ListedByName(was: Object)
    requires was == map["name" := Str("n"), "password" := Str("p")]
    ensures UserFromMap(was, "a") == Some(User("n", "p", "a", "", true, "", 0, 0, 0, None)) && UserMapMatchesSubID(was, "n")
  {
    FirstOfFour(GetString(was, "subId"), GetString(was, "name"), GetString(was, "email"), GetString(was, "uuid"));
    FirstNonEmptyPair(GetString(was, "uuid"), GetString(was, "password"));
    hide FirstNonEmpty;
  }

  lemma StoredMatches(u: User)
    ensures UserMapMatchesSubID(UserToMap(u), u.subID)
  {
    UserStored(u);
    hide UserToMap;
  }

  lemma TriedIs(file: File, edit: Edit)
    ensures Tried(true, file, Ok(edit)) == Committed(file, edit)
  {
  }

  /** The config with one inbound and one user in it. */
  function AloneWith(entry: Object): File {
    Alone(map["tag" := Str("a"), "type" := Str("trojan"), "users" := Arr([Obj(entry)])])
  }

  lemma UserUpdatedAlone(entry: Object, u: User)
    requires u.subID == "n" && UserMapMatchesSubID(entry, "n")
    ensures Committed(AloneWith(entry), Edit.UpdateUser("a", u)) == (AloneWith(UserToMap(u)), None)
  {
    hide UserToMap;
    var m: Object := map["tag" := Str("a"), "type" := Str("trojan"), "users" := Arr([Obj(entry)])];
    var after: Object := m["users" := Arr([Obj(UserToMap(u))])];
    var cfg: Object := map["inbounds" := Arr([Obj(m)])];
    assert Selects(ByTag("a"), Obj(m)) && Selects(BySubID("n"), Obj(entry));
    assert Lookup([Obj(m)], ByTag("a")) == Some(Obj(m)) && Lookup([Obj(entry)], BySubID("n")) == Some(Obj(entry));
    assert ReplaceFirst([Obj(m)], ByTag("a"), Obj(after)) == [Obj(after)];
    assert ReplaceFirst([Obj(entry)], BySubID("n"), Obj(UserToMap(u))) == [Obj(UserToMap(u))];
    assert cfg["inbounds" := Arr([Obj(after)])] == map["inbounds" := Arr([Obj(after)])];
    assert after == map["tag" := Str("a"), "type" := Str("trojan"), "users" := Arr([Obj(UserToMap(u))])];
  }

  function Alone(m: Object): File {
    Some(Obj(map["inbounds" := Arr([Obj(m)])]))
  }

  lemma UpdatedAlone(m: Object, ib: Inbound, after: Object)
    requires GetString(m, "tag") == ib.tag && PreserveUsers(m, InboundToMap(ib)) == after
    ensures Committed(Alone(m), UpdateInbound(ib)) == (Alone(after), None)
  {
    hide PreserveUsers, InboundToMap;
    var cfg: Object := map["inbounds" := Arr([Obj(m)])];
    assert Selects(ByTag(ib.tag), Obj(m));
    assert Lookup([Obj(m)], ByTag(ib.tag)) == Some(Obj(m));
    assert ReplaceFirst([Obj(m)], ByTag(ib.tag), Obj(after)) == [Obj(after)];
    assert cfg["inbounds" := Arr([Obj(after)])] == map["inbounds" := Arr([Obj(after)])];
  }
}
