/** The REST client itself: it loads the file, runs its loops, brings the statistics
    up to date and saves. The reload that follows is the subject of Debounce. */
module RestClient {
  import opened Wrappers
  import opened Json
  import opened Entries
  import opened Models
  import opened ClientEdits
  import opened StatsUsers
  import opened InboundListing

  method ListInbounds(root: Object) returns (inbounds: seq<Value>)
    ensures inbounds == GetInbounds(root)
  {
    inbounds := [];
    if "inbounds" !in root || !root["inbounds"].Arr? { return; }
    var raw := root["inbounds"].items;
    for i := 0 to |raw|
      invariant inbounds == ObjectsOf(raw[..i])
    {
      assert raw[..i + 1][..i] == raw[..i];
      if raw[i].Obj? {
        inbounds := inbounds + [raw[i]];
      }
    }
    assert raw[..|raw|] == raw;
  }

  /** The outer loop of GetUsers. */
  method ListUsers(inbounds: seq<Value>) returns (users: seq<User>)
    requires forall v | v in inbounds :: v.Obj?
    ensures users == UsersOfInbounds(inbounds)
  {
    users := [];
    assert inbounds[..0] == [] && UsersOfInbounds([]) == [];
    hide UsersOfInbounds, UsersOfInbound;
    for i := 0 to |inbounds|
      invariant users == UsersOfInbounds(inbounds[..i])
    {
      UsersOneMore(inbounds, i);
      users := ListUsersOf(inbounds[i].fields, users);
    }
    assert inbounds[..|inbounds|] == inbounds;
  }

  lemma UsersOneMore(inbounds: seq<Value>, i: nat)
    requires i < |inbounds|
    ensures UsersOfInbounds(inbounds[..i + 1]) == UsersOfInbounds(inbounds[..i]) + UsersOfInbound(inbounds[i])
  {
    hide UsersOfInbounds, UsersOfInbound;
    assert inbounds[..i + 1] == inbounds[..i] + [inbounds[i]];
    UsersSnoc(inbounds[..i], inbounds[i]);
  }

  /** The inner loop of GetUsers. */
  method ListUsersOf(inbound: Object, before: seq<User>) returns (users: seq<User>)
    ensures users == before + UsersOfInbound(Obj(inbound))
  {
    users := before;
    var tag := GetString(inbound, "tag");
    var raw := GetInboundUsers(inbound);
    assert raw[..0] == [] && ReadUsers([], tag) == [];
    hide UserFromMap, GetInboundUsers, ReadUsers;
    for j := 0 to |raw|
      invariant users == before + ReadUsers(raw[..j], tag)
    {
      ReadOneMore(raw, j, tag);
      if !raw[j].Obj? { continue; }
      var user := UserFromMap(raw[j].fields, tag);
      if user.Some? {
        users := users + [user.value];
      }
    }
    assert raw[..|raw|] == raw;
  }

  lemma ReadOneMore(raw: seq<Value>, j: nat, tag: string)
    requires j < |raw|
    ensures ReadUsers(raw[..j + 1], tag) == ReadUsers(raw[..j], tag) + ReadUsers([raw[j]], tag)
    ensures ReadUsers([raw[j]], tag) ==
            if raw[j].Obj? && UserFromMap(raw[j].fields, tag).Some? then [UserFromMap(raw[j].fields, tag).value] else []
  {
    hide ReadUsers, UserFromMap;
    assert raw[..j + 1] == raw[..j] + [raw[j]];
    ReadUsersConcat(raw[..j], [raw[j]], tag);
    ReadOne(raw[j], tag);
  }

  /** Position of the first entry selected, or -1. */
  method IndexOf(list: seq<Value>, sel: Selector) returns (at: int)
    ensures at == (if FindIndex(list, sel) < |list| then FindIndex(list, sel) else -1)
  {
    for i := 0 to |list|
      invariant forall j | 0 <= j < i :: !Selects(sel, list[j])
    {
      if Selects(sel, list[i]) {
        return i;
      }
    }
    return -1;
  }

  /** The filtering loop of DeleteUser for one inbound. */
  method FilterUsers(users: seq<Value>, id: string) returns (filtered: seq<Value>, removed: bool)
    ensures filtered == Reject(users, ByAnyID(id))
    ensures removed <==> FindIndex(users, ByAnyID(id)) < |users|
  {
    hide Selects;
    filtered, removed := [], false;
    var sel := ByAnyID(id);
    for i := 0 to |users|
      invariant filtered == Reject(users[..i], sel)
      invariant removed <==> exists j | 0 <= j < i :: Selects(sel, users[j])
    {
      assert users[..i + 1] == users[..i] + [users[i]];
      RejectSnoc(users[..i], users[i], sel);
      if Selects(sel, users[i]) {
        removed := true;
      } else {
        filtered := filtered + [users[i]];
      }
    }
    assert users[..|users|] == users;
  }

  lemma WithoutUserIs(v: Value, id: string)
    requires v.Obj?
    ensures var users := GetInboundUsers(v.fields);
      && (HasUser(v, id) <==> FindIndex(users, ByAnyID(id)) < |users|)
      && WithoutUser(v, id) == if HasUser(v, id) then Obj(SetInboundUsers(v.fields, Reject(users, ByAnyID(id)))) else v
  {
  }

  /** The nested loops of DeleteUser over a copy of the inbounds. */
  method RemoveUser(inbounds: seq<Value>, id: string) returns (changed: seq<Value>, removed: bool)
    requires forall v | v in inbounds :: v.Obj?
    ensures changed == WithoutUsers(inbounds, id)
    ensures removed <==> exists v | v in inbounds :: HasUser(v, id)
  {
    hide Selects, GetInboundUsers, SetInboundUsers, FindIndex, Reject;
    changed, removed := inbounds, false;
    for i := 0 to |inbounds|
      invariant |changed| == |inbounds|
      invariant forall j | 0 <= j < i :: changed[j] == WithoutUser(inbounds[j], id)
      invariant forall j | i <= j < |inbounds| :: changed[j] == inbounds[j]
      invariant removed <==> exists v | v in inbounds[..i] :: HasUser(v, id)
    {
      assert inbounds[..i + 1] == inbounds[..i] + [inbounds[i]];
      hide HasUser, WithoutUser;
      WithoutUserIs(inbounds[i], id);
      var inbound := changed[i].fields;
      var users := GetInboundUsers(inbound);
      if |users| == 0 {
        continue;
      }
      var filtered, removedHere := FilterUsers(users, id);
      if removedHere {
        removed := true;
        changed := changed[i := Obj(SetInboundUsers(inbound, filtered))];
      }
    }
    assert inbounds[..|inbounds|] == inbounds;
  }

  /** The loops of syncStatsUsers that collect the names. */
  method CollectNames(inbounds: seq<Value>) returns (names: seq<string>)
    requires forall v | v in inbounds :: v.Obj?
    ensures names == NamesOfInbounds(inbounds, [])
  {
    names := [];
    assert inbounds[0..] == inbounds;
    for i := 0 to |inbounds|
      invariant NamesOfInbounds(inbounds[i..], names) == NamesOfInbounds(inbounds, [])
    {
      var users := GetInboundUsers(inbounds[i].fields);
      assert inbounds[i..][1..] == inbounds[i + 1..];
      ghost var before := names;
      assert users[0..] == users;
      for j := 0 to |users|
        invariant NamesOf(users[j..], names) == NamesOf(users, before)
      {
        assert users[j..][1..] == users[j + 1..];
        if !users[j].Obj? { continue; }
        var name := GetString(users[j].fields, "name");
        if name == "" || name in names { continue; }
        names := names + [name];
      }
    }
  }

  method BringStatsUpToDate(root: Object) returns (synced: Object)
    ensures synced == SyncStatsUsers(root)
  {
    if "experimental" !in root || !root["experimental"].Obj? { return root; }
    var experimental := root["experimental"].fields;
    if "v2ray_api" !in experimental || !experimental["v2ray_api"].Obj? { return root; }
    var api := experimental["v2ray_api"].fields;
    if "stats" !in api || !api["stats"].Obj? { return root; }
    var stats := api["stats"].fields;
    var inbounds := ListInbounds(root);
    var names := CollectNames(inbounds);
    stats := stats["users" := Arr(Strings(SortedNames(names)))];
    synced := root["experimental" := Obj(experimental["v2ray_api" := Obj(api["stats" := Obj(stats)])])];
  }

  class ConfigClient {
    var file: File

    constructor (file: File)
      ensures this.file == file
    {
      this.file := file;
    }

    method Save(root: Object)
      modifies this
      ensures file == Some(Obj(SyncStatsUsers(root)))
    {
      var synced := BringStatsUpToDate(root);
      file := Some(Obj(synced));
    }

    method GetInbounds() returns (inbounds: Result<seq<Inbound>, Error>)
      ensures inbounds == match LoadRootConfig(file)
                          case Err(e) => Err(e)
                          case Ok(root) => Ok(ReadInbounds(ClientEdits.GetInbounds(root)))
    {
      var root := LoadRootConfig(file);
      if root.Err? { return Err(root.error); }
      var raw := ListInbounds(root.value);
      var result := [];
      for i := 0 to |raw|
        invariant |result| == i && forall j | 0 <= j < i :: result[j] == ReadInbound(raw[j].fields)
      {
        result := result + [ReadInbound(raw[i].fields)];
      }
      assert result == ReadInbounds(raw);
      return Ok(result);
    }

    method GetUsers() returns (users: Result<seq<User>, Error>)
      ensures users == match LoadRootConfig(file)
                       case Err(e) => Err(e)
                       case Ok(root) => Ok(ClientEdits.GetUsers(root))
    {
      var root := LoadRootConfig(file);
      if root.Err? { return Err(root.error); }
      var raw := ListInbounds(root.value);
      var all := ListUsers(raw);
      return Ok(all);
    }

    method CreateInbound(inbound: Inbound) returns (err: Option<Error>)
      modifies this
      ensures (file, err) == Served(old(file), Request.CreateInbound(inbound))
    {
      var root := LoadRootConfig(file);
      if root.Err? { return Some(root.error); }
      var inbounds := ListInbounds(root.value);
      var at := IndexOf(inbounds, ByTag(inbound.tag));
      if at >= 0 { return Some(InboundExists); }
      inbounds := inbounds + [Obj(InboundSettings(map["tag" := Str(inbound.tag)], inbound))];
      Save(SetInbounds(root.value, inbounds));
      return None;
    }

    method UpdateInbound(inbound: Inbound) returns (err: Option<Error>)
      modifies this
      ensures (file, err) == Served(old(file), Request.UpdateInbound(inbound))
    {
      var root := LoadRootConfig(file);
      if root.Err? { return Some(root.error); }
      var inbounds := ListInbounds(root.value);
      var at := IndexOf(inbounds, ByTag(inbound.tag));
      if at < 0 { return Some(InboundNotFound); }
      inbounds := inbounds[at := Obj(InboundSettings(inbounds[at].fields, inbound))];
      Save(SetInbounds(root.value, inbounds));
      return None;
    }

    method DeleteInbound(tag: string) returns (err: Option<Error>)
      modifies this
      ensures (file, err) == Served(old(file), Request.DeleteInbound(tag))
    {
      var root := LoadRootConfig(file);
      if root.Err? { return Some(root.error); }
      var inbounds := ListInbounds(root.value);
      var at := IndexOf(inbounds, ByTag(tag));
      if at < 0 { return Some(InboundNotFound); }
      Save(SetInbounds(root.value, inbounds[..at] + inbounds[at + 1..]));
      return None;
    }

    method CreateUser(user: User, generated: string) returns (err: Option<Error>)
      modifies this
      ensures (file, err) == Served(old(file), Request.CreateUser(user, generated))
    {
      var root := LoadRootConfig(file);
      if root.Err? { return Some(root.error); }
      var inbounds := ListInbounds(root.value);
      var at := IndexOf(inbounds, ByTag(user.inboundTag));
      if at < 0 { return Some(InboundNotFound); }
      var inbound := inbounds[at].fields;
      var users := GetInboundUsers(inbound);
      var existing := IndexOf(users, ByAnyID(user.subID));
      if existing >= 0 { return Some(UserExists); }
      users := users + [Obj(BuildProtocolUser(GetString(inbound, "type"), user, map[], generated))];
      Save(SetInbounds(root.value, inbounds[at := Obj(SetInboundUsers(inbound, users))]));
      return None;
    }

    method UpdateUser(user: User, generated: string) returns (err: Option<Error>)
      modifies this
      ensures (file, err) == Served(old(file), Request.UpdateUser(user, generated))
    {
      var root := LoadRootConfig(file);
      if root.Err? { return Some(root.error); }
      var inbounds := ListInbounds(root.value);
      var at := IndexOf(inbounds, ByTag(user.inboundTag));
      if at < 0 { return Some(InboundNotFound); }
      var inbound := inbounds[at].fields;
      var users := GetInboundUsers(inbound);
      var found := IndexOf(users, ByAnyID(user.subID));
      if found < 0 { return Some(UserNotFound); }
      users := users[found := Obj(BuildProtocolUser(GetString(inbound, "type"), user, users[found].fields, generated))];
      Save(SetInbounds(root.value, inbounds[at := Obj(SetInboundUsers(inbound, users))]));
      return None;
    }

    method DeleteUser(id: string) returns (err: Option<Error>)
      modifies this
      ensures (file, err) == Served(old(file), Request.DeleteUser(id))
    {
      hide WithoutUsers, HasUser, SyncStatsUsers, SetInbounds, BuildProtocolUser, InboundSettings, FindIndex;
      var root := LoadRootConfig(file);
      if root.Err? { return Some(root.error); }
      var inbounds := ListInbounds(root.value);
      var changed, removed := RemoveUser(inbounds, id);
      if !removed { return Some(UserNotFound); }
      Save(SetInbounds(root.value, changed));
      return None;
    }
  }
}
