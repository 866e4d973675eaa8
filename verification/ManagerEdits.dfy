/** The manager's edits by position: when each succeeds, with which error it fails, and
    what it writes, key by key. */
module ManagerEdits {
  import opened Wrappers
  import opened Json
  import opened Entries
  import opened Models
  import opened ConfigManager

  /** The i-th inbound is the first of the tag. */
  predicate FirstInbound(items: seq<Value>, tag: string, i: nat) {
    i < |items| && IsInbound(items[i], tag) && forall j | 0 <= j < i :: !IsInbound(items[j], tag)
  }

  predicate FirstUser(users: seq<Value>, subID: string, i: nat) {
    i < |users| && AnswersTo(users[i], subID) && forall j | 0 <= j < i :: !AnswersTo(users[j], subID)
  }

  /** Where users may be, there is a list of them or nothing. */
  predicate WellTyped(inbound: Object) {
    match At(inbound, "users")
    case Some(v) => v.Arr?
    case None =>
      match At(inbound, "options")
      case Some(Obj(o)) => "users" in o ==> o["users"].Arr?
      case Some(_) => false
      case None => true
  }

  /** The list is the one in the options. */
  predicate ListInOptions(inbound: Object) {
    match (At(inbound, "users"), At(inbound, "options"))
    case (None, Some(Obj(o))) => "users" in o
    case _ => false
  }

  /** The users of an inbound, none if there is no list. */
  function Members(inbound: Object): seq<Value> {
    match At(inbound, "users")
    case Some(Arr(users)) => users
    case Some(_) => []
    case None =>
      match At(inbound, "options")
      case Some(Obj(o)) => (match At(o, "users") case Some(Arr(users)) => users case _ => [])
      case _ => []
  }

  function WithMembers(inbound: Object, users: seq<Value>): Object {
    if ListInOptions(inbound) && inbound["options"].Obj? then
      inbound["options" := Obj(inbound["options"].fields["users" := Arr(users)])]
    else inbound["users" := Arr(users)]
  }

  /** The list without the entries that answer, the others in order. */
  function WithoutUser(users: seq<Value>, subID: string): seq<Value> {
    if users == [] then []
    else (if AnswersTo(users[0], subID) then [] else [users[0]]) + WithoutUser(users[1..], subID)
  }

  function WithoutInbound(items: seq<Value>, tag: string): seq<Value> {
    if items == [] then []
    else (if IsInbound(items[0], tag) then [] else [items[0]]) + WithoutInbound(items[1..], tag)
  }

  /** The list of inbounds, if the config has one. */
  function ItemsOf(cfg: Object): Option<seq<Value>> {
    match At(cfg, "inbounds")
    case Some(Arr(items)) => Some(items)
    case _ => None
  }

  // The finders agree with the positions.

  lemma SelectsInbound(tag: string)
    ensures forall v :: Selects(ByTag(tag), v) <==> IsInbound(v, tag)
  {
    forall v ensures Selects(ByTag(tag), v) <==> IsInbound(v, tag) { SelectsExactly(v, tag); }
  }

  lemma SelectsUser(subID: string)
    ensures forall v :: Selects(BySubID(subID), v) <==> AnswersTo(v, subID)
  {
    forall v ensures Selects(BySubID(subID), v) <==> AnswersTo(v, subID) { SelectsExactly(v, subID); }
  }

  lemma FoundInbound(items: seq<Value>, tag: string) returns (i: nat)
    ensures Lookup(items, ByTag(tag)).Some? <==> exists v | v in items :: IsInbound(v, tag)
    ensures Lookup(items, ByTag(tag)).Some? ==> FirstInbound(items, tag, i) && Lookup(items, ByTag(tag)) == Some(items[i])
    ensures Lookup(items, ByTag(tag)).Some? ==> forall e :: ReplaceFirst(items, ByTag(tag), e) == items[i := e]
  {
    SelectsInbound(tag);
    hide Selects, Lookup, ReplaceFirst, IsInbound;
    i := 0;
    if Lookup(items, ByTag(tag)).Some? {
      i := FirstIndex(items, ByTag(tag));
      LookupAt(items, ByTag(tag), i);
    }
  }

  lemma FoundUser(users: seq<Value>, subID: string) returns (i: nat)
    ensures Lookup(users, BySubID(subID)).Some? <==> exists v | v in users :: AnswersTo(v, subID)
    ensures Lookup(users, BySubID(subID)).Some? ==> FirstUser(users, subID, i)
    ensures Lookup(users, BySubID(subID)).Some? ==> forall e :: ReplaceFirst(users, BySubID(subID), e) == users[i := e]
  {
    SelectsUser(subID);
    hide Selects, Lookup, ReplaceFirst, AnswersTo;
    i := 0;
    if Lookup(users, BySubID(subID)).Some? {
      i := FirstIndex(users, BySubID(subID));
      LookupAt(users, BySubID(subID), i);
    }
  }

  lemma {:induction false} RejectedUsers(users: seq<Value>, subID: string)
    ensures Reject(users, BySubID(subID)) == WithoutUser(users, subID)
  {
    if users != [] {
      SelectsUser(subID);
      hide Selects, AnswersTo;
      RejectedUsers(users[1..], subID);
    }
  }

  lemma {:induction false} RejectedInbounds(items: seq<Value>, tag: string)
    ensures Reject(items, ByTag(tag)) == WithoutInbound(items, tag)
  {
    if items != [] {
      SelectsInbound(tag);
      hide Selects, IsInbound;
      RejectedInbounds(items[1..], tag);
    }
  }

  lemma AccessorReads(inbound: Object, create: bool)
    ensures UsersAccessor(inbound, create).Ok? <==>
            WellTyped(inbound) && (create || "users" in inbound || ListInOptions(inbound))
    ensures UsersAccessor(inbound, create).Ok? ==>
              var (users, place) := UsersAccessor(inbound, create).value;
              users == Members(inbound) && forall others :: SetUsers(inbound, place, others) == WithMembers(inbound, others)
    ensures UsersAccessor(inbound, create).Err? ==>
              UsersAccessor(inbound, create).error ==
              if "users" in inbound then InvalidUsers
              else if !WellTyped(inbound) then (if inbound["options"].Obj? then InvalidOptionsUsers else InvalidOptions)
              else UsersListNotFound
  {
  }

  // The six edits.

  /** The config with other inbounds. */
  function WithItems(cfg: Object, items: seq<Value>): Object {
    cfg["inbounds" := Arr(items)]
  }

  /** What an edit of an inbound that has to be there is refused for. */
  function NoInbound(cfg: Object, tag: string): Option<Error> {
    match At(cfg, "inbounds")
    case None => Some(InboundsNotFound)
    case Some(Arr(items)) => if exists v | v in items :: IsInbound(v, tag) then None else Some(InboundNotFound(tag))
    case Some(_) => Some(InvalidInbounds)
  }

  /** What an edit of the users of an inbound is refused for. */
  function NoMembers(inbound: Object): Option<Error> {
    if WellTyped(inbound) then None
    else if "users" in inbound then Some(InvalidUsers)
    else if "options" in inbound && inbound["options"].Obj? then Some(InvalidOptionsUsers)
    else Some(InvalidOptions)
  }

  /** The inbound keeps a list of users somewhere. */
  predicate HasList(inbound: Object) {
    "users" in inbound || ListInOptions(inbound)
  }

  /** A new user goes to the end of the list of the first inbound of the tag, which gets a
      list if it has none; an inbound with such a user is left alone. */
  lemma AddUserExactly(cfg: Object, tag: string, u: User) returns (i: nat, entry: Object)
    ensures var r := Edited(cfg, Edit.AddUser(tag, u));
      if NoInbound(cfg, tag) != None then r == Err(NoInbound(cfg, tag).value)
      else
        && ItemsOf(cfg).Some? && var items := ItemsOf(cfg).value;
        && FirstInbound(items, tag, i) && var f := items[i].fields;
        if NoMembers(f) != None then r == Err(NoMembers(f).value)
        else if exists v | v in Members(f) :: AnswersTo(v, u.subID) then r == Err(UserExists(u.subID))
        else EntryOf(u, entry) && r == Ok(WithItems(cfg, items[i := Obj(WithMembers(f, Members(f) + [Obj(entry)]))]))
  {
    entry := UserToMap(u);
    UserStored(u);
    i := 0;
    if NoInbound(cfg, tag) == None {
      i := FoundInbound(cfg["inbounds"].items, tag);
      AccessorReads(cfg["inbounds"].items[i].fields, true);
      var _ := FoundUser(Members(cfg["inbounds"].items[i].fields), u.subID);
      hide UserToMap, EntryOf, AnswersTo, IsInbound, Members, WithMembers, Lookup, ReplaceFirst;
    } else if "inbounds" in cfg && cfg["inbounds"].Arr? {
      var _ := FoundInbound(cfg["inbounds"].items, tag);
    }
  }

  /** The first entry that answers to the user is replaced by the given one. */
  lemma UpdateUserExactly(cfg: Object, tag: string, u: User) returns (i: nat, k: nat, entry: Object)
    ensures var r := Edited(cfg, Edit.UpdateUser(tag, u));
      if NoInbound(cfg, tag) != None then r == Err(NoInbound(cfg, tag).value)
      else
        && ItemsOf(cfg).Some? && var items := ItemsOf(cfg).value;
        && FirstInbound(items, tag, i) && var f := items[i].fields;
        if NoMembers(f) != None then r == Err(NoMembers(f).value)
        else if !HasList(f) then r == Err(UsersListNotFound)
        else if !exists v | v in Members(f) :: AnswersTo(v, u.subID) then r == Err(UserNotFound(u.subID))
        else
          && EntryOf(u, entry) && FirstUser(Members(f), u.subID, k)
          && r == Ok(WithItems(cfg, items[i := Obj(WithMembers(f, Members(f)[k := Obj(entry)]))]))
  {
    entry := UserToMap(u);
    UserStored(u);
    i, k := 0, 0;
    if NoInbound(cfg, tag) == None {
      i := FoundInbound(cfg["inbounds"].items, tag);
      AccessorReads(cfg["inbounds"].items[i].fields, false);
      k := FoundUser(Members(cfg["inbounds"].items[i].fields), u.subID);
      hide UserToMap, EntryOf, AnswersTo, IsInbound, Members, WithMembers, Lookup, ReplaceFirst;
    } else if "inbounds" in cfg && cfg["inbounds"].Arr? {
      var _ := FoundInbound(cfg["inbounds"].items, tag);
    }
  }

  /** Every entry that answers to the user is dropped. */
  lemma DeleteUserExactly(cfg: Object, tag: string, subID: string) returns (i: nat)
    ensures var r := Edited(cfg, Edit.DeleteUser(tag, subID));
      if NoInbound(cfg, tag) != None then r == Err(NoInbound(cfg, tag).value)
      else
        && ItemsOf(cfg).Some? && var items := ItemsOf(cfg).value;
        && FirstInbound(items, tag, i) && var f := items[i].fields;
        if NoMembers(f) != None then r == Err(NoMembers(f).value)
        else if !HasList(f) then r == Err(UsersListNotFound)
        else if !exists v | v in Members(f) :: AnswersTo(v, subID) then r == Err(UserNotFound(subID))
        else r == Ok(WithItems(cfg, items[i := Obj(WithMembers(f, WithoutUser(Members(f), subID)))]))
  {
    i := 0;
    if NoInbound(cfg, tag) == None {
      i := FoundInbound(cfg["inbounds"].items, tag);
      AccessorReads(cfg["inbounds"].items[i].fields, false);
      var _ := FoundUser(Members(cfg["inbounds"].items[i].fields), subID);
      RejectedUsers(Members(cfg["inbounds"].items[i].fields), subID);
    } else if "inbounds" in cfg && cfg["inbounds"].Arr? {
      var _ := FoundInbound(cfg["inbounds"].items, tag);
    }
  }

  /** The stored inbound has the given settings and the users of the one it replaces:
      those beside the options, and those in the options unless the given ones have a
      list; options that were there leave at least an empty object. */
  predicate InboundOver(source: Object, ib: Inbound, b: Object) {
    && b.Keys <= {"tag", "type", "listen", "port", "options", "users"}
    && At(b, "tag") == Some(Str(ib.tag)) && At(b, "type") == Some(Str(ib.kind))
    && At(b, "listen") == (if ib.listen == "" then None else Some(Str(ib.listen)))
    && At(b, "port") == (if ib.port == 0 then None else Some(Num(ib.port as real)))
    && At(b, "users") == At(source, "users")
    && At(b, "options") == match At(source, "options")
                           case Some(Obj(o)) =>
                             Some(Obj(if "users" in o && "users" !in ib.options then ib.options["users" := o["users"]] else ib.options))
                           case _ => if ib.options == map[] then None else Some(Obj(ib.options))
  }

  /** A new inbound goes to the end of the list, which is made if there is none. */
  lemma AddInboundExactly(cfg: Object, ib: Inbound) returns (entry: Object)
    ensures var r := Edited(cfg, Edit.AddInbound(ib));
      if At(cfg, "inbounds") != None && ItemsOf(cfg) == None then r == Err(InvalidInbounds)
      else
        var items := if ItemsOf(cfg) == None then [] else ItemsOf(cfg).value;
        if exists v | v in items :: IsInbound(v, ib.tag) then r == Err(InboundExists(ib.tag))
        else InboundOf(ib, entry) && r == Ok(WithItems(cfg, items + [Obj(entry)]))
  {
    entry := InboundToMap(ib);
    SettingsStored(ib);
    if ItemsOf(cfg) != None {
      var _ := FoundInbound(cfg["inbounds"].items, ib.tag);
    }
    hide IsInbound, InboundToMap;
  }

  lemma UpdateInboundExactly(cfg: Object, ib: Inbound) returns (i: nat, entry: Object)
    ensures var r := Edited(cfg, Edit.UpdateInbound(ib));
      if NoInbound(cfg, ib.tag) != None then r == Err(NoInbound(cfg, ib.tag).value)
      else
        && ItemsOf(cfg).Some? && var items := ItemsOf(cfg).value;
        && FirstInbound(items, ib.tag, i) && InboundOver(items[i].fields, ib, entry)
        && r == Ok(WithItems(cfg, items[i := Obj(entry)]))
  {
    i, entry := 0, map[];
    if NoInbound(cfg, ib.tag) == None {
      i := FoundInbound(cfg["inbounds"].items, ib.tag);
      entry := PreserveUsers(cfg["inbounds"].items[i].fields, InboundToMap(ib));
      SettingsOver(cfg["inbounds"].items[i].fields, ib);
      hide PreserveUsers, InboundOver;
    } else if "inbounds" in cfg && cfg["inbounds"].Arr? {
      var _ := FoundInbound(cfg["inbounds"].items, ib.tag);
    }
  }

  lemma SettingsOver(source: Object, ib: Inbound)
    ensures InboundOver(source, ib, PreserveUsers(source, InboundToMap(ib)))
  {
    SettingsStored(ib);
    hide InboundToMap;
  }

  /** Every inbound of the tag is dropped. */
  lemma DeleteInboundExactly(cfg: Object, tag: string)
    ensures Edited(cfg, Edit.DeleteInbound(tag)) ==
            if NoInbound(cfg, tag) != None then Err(NoInbound(cfg, tag).value)
            else Ok(WithItems(cfg, WithoutInbound(cfg["inbounds"].items, tag)))
  {
    if "inbounds" in cfg && cfg["inbounds"].Arr? {
      var _ := FoundInbound(cfg["inbounds"].items, tag);
      RejectedInbounds(cfg["inbounds"].items, tag);
    }
  }

  // What is in the file after the edit.

  /** A file that is missing, or holds something other than an object or null, is an error
      and stays; null is a config without entries. An edit that is refused leaves the file. */
  lemma CommittedExactly(file: File, edit: Edit)
    ensures file == None ==> Committed(file, edit) == (None, Some(ReadConfig))
    ensures file.Some? && !file.value.Obj? && !file.value.Null? ==> Committed(file, edit) == (file, Some(ParseConfig))
    ensures file.Some? && (file.value.Obj? || file.value.Null?) ==>
              var cfg := if file.value.Obj? then file.value.fields else map[];
              Committed(file, edit) == match Edited(cfg, edit)
                                       case Ok(cfg') => (Some(Obj(cfg')), None)
                                       case Err(e) => (file, Some(e))
  {
  }

  /** The list written to an inbound is the one it then has, and everything else stays. */
  lemma MembersWritten(inbound: Object, users: seq<Value>)
    requires WellTyped(inbound)
    ensures Members(WithMembers(inbound, users)) == users
    ensures forall key | key !in {"users", "options"} :: At(WithMembers(inbound, users), key) == At(inbound, key)
    ensures IsInbound(Obj(WithMembers(inbound, users)), Text(inbound, "tag"))
  {
    var w := WithMembers(inbound, users);
    assert At(w, "tag") == At(inbound, "tag");
    if ListInOptions(inbound) {
      assert At(w, "users") == None;
      assert w["options"].fields["users"] == Arr(users);
    }
  }

  /** The entry that the manager finds for the user in the file, if any. */
  ghost predicate Holds(cfg: Object, tag: string, u: User) {
    exists i: nat, k: nat, entry: Object ::
      && ItemsOf(cfg).Some? && FirstInbound(ItemsOf(cfg).value, tag, i)
      && FirstUser(Members(ItemsOf(cfg).value[i].fields), u.subID, k)
      && Members(ItemsOf(cfg).value[i].fields)[k] == Obj(entry) && EntryOf(u, entry)
  }

  /** After a user was added or updated, the first entry for it in the first inbound of the
      tag holds exactly its fields. */
  lemma UserWritten(cfg: Object, tag: string, u: User, edit: Edit)
    requires edit == Edit.AddUser(tag, u) || edit == Edit.UpdateUser(tag, u)
    requires Edited(cfg, edit).Ok?
    ensures Holds(Edited(cfg, edit).value, tag, u)
  {
    if edit.AddUser? {
      var i, entry := AddUserExactly(cfg, tag, u);
      var users := Members(ItemsOf(cfg).value[i].fields);
      hide Edited;
      assert (users + [Obj(entry)])[|users|] == Obj(entry);
      Placed(cfg, tag, u, i, |users|, entry, users + [Obj(entry)]);
    } else {
      var i, k, entry := UpdateUserExactly(cfg, tag, u);
      hide Edited;
      Placed(cfg, tag, u, i, k, entry, Members(ItemsOf(cfg).value[i].fields)[k := Obj(entry)]);
    }
  }

  lemma Placed(cfg: Object, tag: string, u: User, i: nat, k: nat, entry: Object, users: seq<Value>)
    requires ItemsOf(cfg).Some? && FirstInbound(ItemsOf(cfg).value, tag, i) && WellTyped(ItemsOf(cfg).value[i].fields)
    requires k < |users| && users[k] == Obj(entry) && EntryOf(u, entry)
    requires forall j | 0 <= j < k :: !AnswersTo(users[j], u.subID)
    ensures Holds(WithItems(cfg, ItemsOf(cfg).value[i := Obj(WithMembers(ItemsOf(cfg).value[i].fields, users))]), tag, u)
  {
    var items := ItemsOf(cfg).value;
    var stored := Obj(WithMembers(items[i].fields, users));
    var items' := items[i := stored];
    assert ItemsOf(WithItems(cfg, items')) == Some(items');
    MembersWritten(items[i].fields, users);
    assert IsInbound(stored, tag);
    hide WithMembers, Members, WellTyped;
    assert AnswersTo(Obj(entry), u.subID) by { assert At(entry, "subId") == Some(Str(u.subID)); }
    hide AnswersTo, IsInbound, EntryOf, WithItems, ItemsOf;
    assert FirstInbound(items', tag, i);
    assert FirstUser(users, u.subID, k);
    assert items'[i].fields == stored.fields && Members(items'[i].fields)[k] == Obj(entry);
  }
}
