/** The desired-state writer of the config file: six edits of the JSON tree,
    first as functions on the tree, then as the methods that load the file, run
    their loops and save it. */
module ConfigManager {
  import opened Wrappers
  import opened Json
  import opened Entries
  import opened Models

  datatype Error =
    | ReadConfig | ParseConfig
    | InboundsNotFound | InvalidInbounds | InboundNotFound(tag: string) | InboundExists(tag: string)
    | InvalidUsers | InvalidOptions | InvalidOptionsUsers | UsersListNotFound
    | UserExists(subID: string) | UserNotFound(subID: string)
    | MissingPrevious | NoConfigManager | UnknownChangeType

  datatype Edit =
    | AddUser(tag: string, user: User)
    | UpdateUser(tag: string, user: User)
    | DeleteUser(tag: string, subID: string)
    | AddInbound(inbound: Inbound)
    | UpdateInbound(inbound: Inbound)
    | DeleteInbound(tag: string)

  /** Where an inbound keeps its users: under `users`, or under `options.users`. */
  datatype UsersPlace = TopLevel | InOptions

  function InboundsSlice(cfg: Object, create: bool): Result<seq<Value>, Error> {
    if "inbounds" !in cfg then
      if create then Ok([]) else Err(InboundsNotFound)
    else if cfg["inbounds"].Arr? then Ok(cfg["inbounds"].items)
    else Err(InvalidInbounds)
  }

  function FindInbound(cfg: Object, tag: string): (r: Result<Object, Error>)
    ensures r.Ok? ==> GetString(r.value, "tag") == tag
  {
    var inbounds :- InboundsSlice(cfg, false);
    match Lookup(inbounds, ByTag(tag))
    case None => Err(InboundNotFound(tag))
    case Some(v) => Ok(v.fields)
  }

  function UsersAccessor(inbound: Object, create: bool): (r: Result<(seq<Value>, UsersPlace), Error>)
    ensures r.Ok? && r.value.1.InOptions? ==> "options" in inbound && inbound["options"].Obj?
  {
    if "users" in inbound then
      if inbound["users"].Arr? then Ok((inbound["users"].items, TopLevel)) else Err(InvalidUsers)
    else if "options" in inbound && !inbound["options"].Obj? then Err(InvalidOptions)
    else if "options" in inbound && "users" in inbound["options"].fields then
      var users := inbound["options"].fields["users"];
      if users.Arr? then Ok((users.items, InOptions)) else Err(InvalidOptionsUsers)
    else if create then Ok(([], TopLevel))
    else Err(UsersListNotFound)
  }

  function SetUsers(inbound: Object, place: UsersPlace, users: seq<Value>): Object
    requires place.InOptions? ==> "options" in inbound && inbound["options"].Obj?
  {
    match place
    case TopLevel => inbound["users" := Arr(users)]
    case InOptions => inbound["options" := Obj(inbound["options"].fields["users" := Arr(users)])]
  }

  /** Puts a changed inbound back in the place of the first one with its tag. */
  function StoreInbound(cfg: Object, tag: string, inbound: Object): Object
    requires "inbounds" in cfg && cfg["inbounds"].Arr?
  {
    cfg["inbounds" := Arr(ReplaceFirst(cfg["inbounds"].items, ByTag(tag), Obj(inbound)))]
  }

  /** Keeps the users of the replaced inbound unless the new one brings its own. */
  function PreserveUsers(source: Object, target: Object): Object {
    var kept := if "users" !in target && "users" in source then target["users" := source["users"]] else target;
    if "options" !in source || !source["options"].Obj? then kept
    else
      var from := source["options"].fields;
      var into := if "options" in kept && kept["options"].Obj? then kept["options"].fields else map[];
      kept["options" := Obj(if "users" !in into && "users" in from then into["users" := from["users"]] else into)]
  }

  /** The tree after an edit, or the reason why there is none. */
  function Edited(cfg: Object, edit: Edit): Result<Object, Error> {
    match edit
    case AddUser(tag, user) =>
      var inbound :- FindInbound(cfg, tag);
      var (users, place) :- UsersAccessor(inbound, true);
      if Lookup(users, BySubID(user.subID)).Some? then Err(UserExists(user.subID))
      else Ok(StoreInbound(cfg, tag, SetUsers(inbound, place, users + [Obj(UserToMap(user))])))
    case UpdateUser(tag, user) =>
      var inbound :- FindInbound(cfg, tag);
      var (users, place) :- UsersAccessor(inbound, false);
      if Lookup(users, BySubID(user.subID)).None? then Err(UserNotFound(user.subID))
      else Ok(StoreInbound(cfg, tag,
                SetUsers(inbound, place, ReplaceFirst(users, BySubID(user.subID), Obj(UserToMap(user))))))
    case DeleteUser(tag, subID) =>
      var inbound :- FindInbound(cfg, tag);
      var (users, place) :- UsersAccessor(inbound, false);
      if Lookup(users, BySubID(subID)).None? then Err(UserNotFound(subID))
      else Ok(StoreInbound(cfg, tag, SetUsers(inbound, place, Reject(users, BySubID(subID)))))
    case AddInbound(ib) =>
      var inbounds :- InboundsSlice(cfg, true);
      if Lookup(inbounds, ByTag(ib.tag)).Some? then Err(InboundExists(ib.tag))
      else Ok(cfg["inbounds" := Arr(inbounds + [Obj(InboundToMap(ib))])])
    case UpdateInbound(ib) =>
      var inbounds :- InboundsSlice(cfg, false);
      var found := Lookup(inbounds, ByTag(ib.tag));
      if found.None? then Err(InboundNotFound(ib.tag))
      else Ok(StoreInbound(cfg, ib.tag, PreserveUsers(found.value.fields, InboundToMap(ib))))
    case DeleteInbound(tag) =>
      var inbounds :- InboundsSlice(cfg, false);
      if Lookup(inbounds, ByTag(tag)).None? then Err(InboundNotFound(tag))
      else Ok(cfg["inbounds" := Arr(Reject(inbounds, ByTag(tag)))])
  }

  /** The file is what its text parses to, or `None` when it cannot be read. */
  type File = Option<Value>

  function LoadConfigMap(file: File): Result<Object, Error> {
    match file
    case None => Err(ReadConfig)
    case Some(Null) => Ok(map[])
    case Some(Obj(cfg)) => Ok(cfg)
    case Some(_) => Err(ParseConfig)
  }

  /** One load-modify-save cycle: the file is replaced on success and kept on failure. */
  function Committed(file: File, edit: Edit): (File, Option<Error>) {
    match LoadConfigMap(file)
    case Err(e) => (file, Some(e))
    case Ok(cfg) =>
      match Edited(cfg, edit)
      case Err(e) => (file, Some(e))
      case Ok(cfg') => (Some(Obj(cfg')), None)
  }

  class ConfigManager {
    var file: File

    constructor (file: File)
      ensures this.file == file
    {
      this.file := file;
    }

    method AddUser(tag: string, user: User) returns (err: Option<Error>)
      modifies this
      ensures (file, err) == Committed(old(file), Edit.AddUser(tag, user))
    {
      var cfg := LoadConfigMap(file);
      if cfg.Err? { return Some(cfg.error); }
      var inbound := FindInbound(cfg.value, tag);
      if inbound.Err? { return Some(inbound.error); }
      var access := UsersAccessor(inbound.value, true);
      if access.Err? { return Some(access.error); }
      var (users, place) := access.value;
      for i := 0 to |users|
        invariant forall j | 0 <= j < i :: !Selects(BySubID(user.subID), users[j])
      {
        if users[i].Obj? && UserMapMatchesSubID(users[i].fields, user.subID) {
          LookupAt(users, BySubID(user.subID), i);
          return Some(UserExists(user.subID));
        }
      }
      users := users + [Obj(UserToMap(user))];
      file := Some(Obj(StoreInbound(cfg.value, tag, SetUsers(inbound.value, place, users))));
      err := None;
    }

    method UpdateUser(tag: string, user: User) returns (err: Option<Error>)
      modifies this
      ensures (file, err) == Committed(old(file), Edit.UpdateUser(tag, user))
    {
      var cfg := LoadConfigMap(file);
      if cfg.Err? { return Some(cfg.error); }
      var inbound := FindInbound(cfg.value, tag);
      if inbound.Err? { return Some(inbound.error); }
      var access := UsersAccessor(inbound.value, false);
      if access.Err? { return Some(access.error); }
      var (users, place) := access.value;
      ghost var stored, sel := users, BySubID(user.subID);
      var updated := false;
      var i := 0;
      while i < |users|
        invariant 0 <= i <= |users| && !updated && users == stored
        invariant forall j | 0 <= j < i :: !Selects(sel, users[j])
      {
        if users[i].Obj? && UserMapMatchesSubID(users[i].fields, user.subID) {
          LookupAt(stored, sel, i);
          users := users[i := Obj(UserToMap(user))];
          updated := true;
          break;
        }
        i := i + 1;
      }
      if !updated { return Some(UserNotFound(user.subID)); }
      file := Some(Obj(StoreInbound(cfg.value, tag, SetUsers(inbound.value, place, users))));
      err := None;
    }

    method DeleteUser(tag: string, subID: string) returns (err: Option<Error>)
      modifies this
      ensures (file, err) == Committed(old(file), Edit.DeleteUser(tag, subID))
    {
      var cfg := LoadConfigMap(file);
      if cfg.Err? { return Some(cfg.error); }
      var inbound := FindInbound(cfg.value, tag);
      if inbound.Err? { return Some(inbound.error); }
      var access := UsersAccessor(inbound.value, false);
      if access.Err? { return Some(access.error); }
      var (users, place) := access.value;
      var filtered, removed := Filter(users, BySubID(subID));
      if !removed { return Some(UserNotFound(subID)); }
      file := Some(Obj(StoreInbound(cfg.value, tag, SetUsers(inbound.value, place, filtered))));
      err := None;
    }

    method AddInbound(inbound: Inbound) returns (err: Option<Error>)
      modifies this
      ensures (file, err) == Committed(old(file), Edit.AddInbound(inbound))
    {
      var cfg := LoadConfigMap(file);
      if cfg.Err? { return Some(cfg.error); }
      var slice := InboundsSlice(cfg.value, true);
      if slice.Err? { return Some(slice.error); }
      var inbounds := slice.value;
      for i := 0 to |inbounds|
        invariant forall j | 0 <= j < i :: !Selects(ByTag(inbound.tag), inbounds[j])
      {
        if inbounds[i].Obj? && GetString(inbounds[i].fields, "tag") == inbound.tag {
          LookupAt(inbounds, ByTag(inbound.tag), i);
          return Some(InboundExists(inbound.tag));
        }
      }
      file := Some(Obj(cfg.value["inbounds" := Arr(inbounds + [Obj(InboundToMap(inbound))])]));
      err := None;
    }

    method UpdateInbound(inbound: Inbound) returns (err: Option<Error>)
      modifies this
      ensures (file, err) == Committed(old(file), Edit.UpdateInbound(inbound))
    {
      var cfg := LoadConfigMap(file);
      if cfg.Err? { return Some(cfg.error); }
      var slice := InboundsSlice(cfg.value, false);
      if slice.Err? { return Some(slice.error); }
      var inbounds := slice.value;
      ghost var stored, sel := inbounds, ByTag(inbound.tag);
      var updated := false;
      var i := 0;
      while i < |inbounds|
        invariant 0 <= i <= |inbounds| && !updated && inbounds == stored
        invariant forall j | 0 <= j < i :: !Selects(sel, inbounds[j])
      {
        if inbounds[i].Obj? && GetString(inbounds[i].fields, "tag") == inbound.tag {
          LookupAt(stored, sel, i);
          inbounds := inbounds[i := Obj(PreserveUsers(inbounds[i].fields, InboundToMap(inbound)))];
          updated := true;
          break;
        }
        i := i + 1;
      }
      if !updated { return Some(InboundNotFound(inbound.tag)); }
      file := Some(Obj(cfg.value["inbounds" := Arr(inbounds)]));
      err := None;
    }

    method DeleteInbound(tag: string) returns (err: Option<Error>)
      modifies this
      ensures (file, err) == Committed(old(file), Edit.DeleteInbound(tag))
    {
      var cfg := LoadConfigMap(file);
      if cfg.Err? { return Some(cfg.error); }
      var slice := InboundsSlice(cfg.value, false);
      if slice.Err? { return Some(slice.error); }
      var filtered, deleted := Filter(slice.value, ByTag(tag));
      if !deleted { return Some(InboundNotFound(tag)); }
      file := Some(Obj(cfg.value["inbounds" := Arr(filtered)]));
      err := None;
    }
  }

  /** What the filtering loop has kept and found behind the i-th entry. */
  lemma OneMore(list: seq<Value>, i: nat, sel: Selector)
    requires i < |list|
    ensures Reject(list[..i + 1], sel) ==
            if Selects(sel, list[i]) then Reject(list[..i], sel) else Reject(list[..i], sel) + [list[i]]
    ensures Lookup(list[..i + 1], sel).Some? <==> Lookup(list[..i], sel).Some? || Selects(sel, list[i])
  {
    hide Reject, Selects, Lookup;
    assert list[..i + 1] == list[..i] + [list[i]];
    RejectSnoc(list[..i], list[i], sel);
    LookupAppend(list[..i], list[i], sel);
  }

  /** The filtering loop shared by both deletions. */
  method Filter(list: seq<Value>, sel: Selector) returns (filtered: seq<Value>, removed: bool)
    ensures filtered == Reject(list, sel)
    ensures removed <==> Lookup(list, sel).Some?
  {
    filtered, removed := [], false;
    assert list[..0] == [] && Reject([], sel) == [] && Lookup([], sel) == None;
    hide Selects, Reject, Lookup;
    for i := 0 to |list|
      invariant filtered == Reject(list[..i], sel)
      invariant removed <==> Lookup(list[..i], sel).Some?
    {
      OneMore(list, i, sel);
      if Selects(sel, list[i]) {
        removed := true;
      } else {
        filtered := filtered + [list[i]];
      }
    }
    assert list[..|list|] == list;
  }
}
