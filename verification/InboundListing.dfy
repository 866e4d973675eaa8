/** How the REST client lists inbounds, what its own requests do to that listing,
    and what it makes of what the desired-state manager stored. */
module InboundListing {
  import opened Wrappers
  import opened Json
  import opened Entries
  import opened Models
  import opened Diff
  import opened ClientEdits

  /** int(float64), which truncates towards zero. */
  function Truncated(n: real): int {
    if n >= 0.0 then n.Floor else -((-n).Floor)
  }

  /** The first of the keys that holds a number. */
  function GetInt(m: Object, keys: seq<string>): int {
    if keys == [] then 0
    else if keys[0] in m && m[keys[0]].Num? then Truncated(m[keys[0]].n)
    else GetInt(m, keys[1..])
  }

  const SETTINGS: set<string> := {"tag", "type", "listen", "listen_port", "port"}

  /** Every key that is not a setting ends up in the options, `users` included. */
  function ReadInbound(m: Object): Inbound {
    Inbound(GetString(m, "tag"), GetString(m, "type"), GetString(m, "listen"), GetInt(m, ["listen_port", "port"]), m - SETTINGS)
  }

  function ReadInbounds(inbounds: seq<Value>): seq<Inbound>
    requires forall v | v in inbounds :: v.Obj?
  {
    seq(|inbounds|, i requires 0 <= i < |inbounds| => ReadInbound(inbounds[i].fields))
  }

  lemma PortReads(m: Object)
    ensures GetInt(m, ["listen_port", "port"]) ==
            if "listen_port" in m && m["listen_port"].Num? then Truncated(m["listen_port"].n)
            else if "port" in m && m["port"].Num? then Truncated(m["port"].n)
            else 0
  {
    assert ["listen_port", "port"][1..] == ["port"] && ["port"][1..] == [];
    assert GetInt(m, ["port"]) == if "port" in m && m["port"].Num? then Truncated(m["port"].n) else GetInt(m, []);
  }

  lemma TruncatedInteger(i: int)
    ensures Truncated(i as real) == i
  {
    assert (i as real).Floor == i && (-i as real).Floor == -i && -(i as real) == -i as real;
  }

  lemma TruncatedTowardsZero(n: real)
    ensures n >= 0.0 ==> Truncated(n) as real <= n < Truncated(n) as real + 1.0
    ensures n <= 0.0 ==> Truncated(n) as real - 1.0 < n <= Truncated(n) as real
  {
  }

  function Or(first: Option<Value>, second: Option<Value>): Option<Value> {
    if first.Some? then first else second
  }

  /** The port for these two settings. */
  function PortOf(listenPort: Option<Value>, port: Option<Value>): int {
    if listenPort.Some? && listenPort.value.Num? then Truncated(listenPort.value.n)
    else if port.Some? && port.value.Num? then Truncated(port.value.n)
    else 0
  }

  /** How any inbound is listed: the number under `listen_port` is preferred to the one under
      `port`, and everything but the five settings is an option. */
  lemma ListedExactly(m: Object)
    ensures var listed := ReadInbound(m);
      && listed.tag == Text(m, "tag") && listed.kind == Text(m, "type") && listed.listen == Text(m, "listen")
      && listed.port == PortOf(At(m, "listen_port"), At(m, "port"))
      && forall key :: At(listed.options, key) ==
                       if key in {"tag", "type", "listen", "listen_port", "port"} then None else At(m, key)
  {
    PortReads(m);
    hide GetInt, Truncated;
  }

  /** How an inbound is listed after a request, setting by setting: options that bear
      the name of a setting win, then what the request gives, and an empty listen
      address or a zero port leaves the listed one as it was; all other options are
      added to those listed. */
  lemma SettingsRead(m: Object, ib: Inbound)
    ensures var was, now, o := ReadInbound(m), ReadInbound(InboundSettings(m, ib)), ib.options;
      && now.tag == (if "tag" in o then GetString(o, "tag") else was.tag)
      && now.kind == (if "type" in o then GetString(o, "type") else ib.kind)
      && now.listen == (if "listen" in o then GetString(o, "listen") else OrElse(ib.listen, was.listen))
      && now.port == PortOf(Or(At(o, "listen_port"), if ib.port != 0 then Some(Num(ib.port as real)) else At(m, "listen_port")),
                            Or(At(o, "port"), At(m, "port")))
      && now.options == was.options + (o - SETTINGS)
      && (o.Keys !! {"listen_port", "port"} ==> now.port == if ib.port != 0 then ib.port else was.port)
  {
    var after := InboundSettings(m, ib);
    PortReads(m);
    PortReads(after);
    TruncatedInteger(ib.port);
    SettingAt(m, ib, "tag");
    SettingAt(m, ib, "type");
    SettingAt(m, ib, "listen");
    SettingAt(m, ib, "listen_port");
    SettingAt(m, ib, "port");
    OptionsRead(m, ib);
    hide GetInt, Truncated, InboundSettings;
  }

  lemma SettingAt(m: Object, ib: Inbound, key: string)
    ensures At(InboundSettings(m, ib), key) ==
            Or(At(ib.options, key),
               if key == "type" then Some(Str(ib.kind))
               else if key == "listen" && ib.listen != "" then Some(Str(ib.listen))
               else if key == "listen_port" && ib.port != 0 then Some(Num(ib.port as real))
               else At(m, key))
  {
  }

  lemma OptionsRead(m: Object, ib: Inbound)
    ensures InboundSettings(m, ib) - SETTINGS == (m - SETTINGS) + (ib.options - SETTINGS)
  {
    var bare := ib.(options := map[]);
    assert InboundSettings(m, bare) - SETTINGS == m - SETTINGS;
    assert InboundSettings(m, ib) == InboundSettings(m, bare) + ib.options;
    hide InboundSettings;
  }

  /** A created inbound is listed as it was given exactly when no option bears the
      name of a setting. */
  lemma CreatedInboundReadsBack(ib: Inbound)
    ensures ReadInbound(InboundSettings(map["tag" := Str(ib.tag)], ib)) == ib <==> ib.options.Keys !! SETTINGS
  {
    var m: Object := map["tag" := Str(ib.tag)];
    if ib.options.Keys !! SETTINGS {
      PortReads(m);
      hide GetInt;
      SettingsRead(m, ib);
      assert (m - SETTINGS) + (ib.options - SETTINGS) == ib.options;
    } else {
      var key :| key in ib.options.Keys && key in SETTINGS;
      assert key !in ReadInbound(InboundSettings(m, ib)).options;
    }
  }

  lemma {:induction false} NotInItself(v: Value, key: string)
    ensures v.Obj? && key in v.fields ==> v.fields[key] != v
    decreases v
  {
    if v.Obj? && key in v.fields {
      NotInItself(v.fields[key], key);
    }
  }

  /** An inbound as the manager keeps it, with or without users beside it. */
  function Stored(ib: Inbound, users: Option<seq<Value>>): Object {
    if users.Some? then InboundToMap(ib)["users" := Arr(users.value)] else InboundToMap(ib)
  }

  lemma StoredSettingsRead(ib: Inbound, users: Option<seq<Value>>)
    ensures var r := ReadInbound(Stored(ib, users));
      r.tag == ib.tag && r.kind == ib.kind && r.listen == ib.listen && r.port == ib.port
  {
    PortReads(Stored(ib, users));
    TruncatedInteger(ib.port);
    hide GetInt, Truncated;
  }

  lemma StoredOptionsRead(ib: Inbound, users: Option<seq<Value>>)
    ensures var options := ReadInbound(Stored(ib, users)).options;
      && ("users" in options <==> users.Some?)
      && ("options" in options <==> ib.options != map[])
      && ("options" in options ==> options["options"] == Obj(ib.options))
      && (ib.options == map[] && users.None? ==> options == map[])
  {
    hide GetInt, GetString;
  }

  /** What the manager stored is listed as it was desired exactly when it has neither
      options nor users; in every other case a diff against the listing reports it
      as changed. */
  lemma ManagedInboundReadsBack(ib: Inbound, users: Option<seq<Value>>)
    ensures InboundsDiffer(ib, ReadInbound(Stored(ib, users))) <==> ib.options != map[] || users.Some?
  {
    hide InboundsDiffer, ReadInbound, Stored;
    InboundsDifferIsInequality(ib, ReadInbound(Stored(ib, users)));
    StoredSettingsRead(ib, users);
    StoredOptionsRead(ib, users);
    NotInItself(Obj(ib.options), "options");
  }

  /** Likewise a user: what is listed lacks the limits and the reset date. */
  lemma ManagedUserReadsBack(u: User)
    requires u.subID != ""
    ensures var listed := UserFromMap(UserToMap(u), u.inboundTag);
      && listed.Some?
      && (UsersDiffer(u, listed.value) <==> u.limitIP != 0 || u.uploadLimit != 0 || u.downloadLimit != 0 || u.resetAt.Some?)
  {
    UserReadsBack(u, u.inboundTag);
    hide UserToMap;
  }

  // What requests about inbounds do to the listing of users.

  /** Creating an inbound appends the users that its options bring along to the
      listing, and updating one replaces its block; unless the options say where users
      are or what the tag is, neither changes the listing. */
  lemma InboundRequestUsers(root: Object, r: Request)
    requires (r.CreateInbound? || r.UpdateInbound?) && Edited(root, r).Ok?
    ensures var inbounds, ib, after := GetInbounds(root), r.inbound, Edited(root, r).value;
            var i := FindIndex(inbounds, ByTag(ib.tag));
      if r.CreateInbound? then
        GetUsers(after) == GetUsers(root) + UsersOfInbound(Obj(InboundSettings(map["tag" := Str(ib.tag)], ib)))
      else
        && i < |inbounds|
        && GetUsers(root) == UsersOfInbounds(inbounds[..i]) + UsersOfInbound(inbounds[i]) + UsersOfInbounds(inbounds[i + 1..])
        && GetUsers(after) == UsersOfInbounds(inbounds[..i]) + UsersOfInbound(Obj(InboundSettings(inbounds[i].fields, ib)))
                              + UsersOfInbounds(inbounds[i + 1..])
    ensures r.inbound.options.Keys !! {"users", "options", "tag"} ==> GetUsers(Edited(root, r).value) == GetUsers(root)
  {
    var inbounds := GetInbounds(root);
    var ib := r.inbound;
    if r.CreateInbound? {
      var created := Obj(InboundSettings(map["tag" := Str(ib.tag)], ib));
      assert ib.options.Keys !! {"users", "options", "tag"} ==> UsersOfInbound(created) == [] by { NoUsersRead(created, ib); }
      hide InboundSettings, UsersOfInbounds, UsersOfInbound, FindIndex, GetInbounds;
      GetAfterSetInbounds(root, inbounds + [created]);
      UsersSnoc(inbounds, created);
    } else {
      var i := FindIndex(inbounds, ByTag(ib.tag));
      var changed := inbounds[i := Obj(InboundSettings(inbounds[i].fields, ib))];
      if ib.options.Keys !! {"users", "options", "tag"} { SettingsKeepUsers(inbounds[i].fields, ib); }
      hide InboundSettings, UsersOfInbounds, ReadUsers, FindIndex, GetInbounds, GetInboundUsers;
      GetAfterSetInbounds(root, changed);
      UsersAround(inbounds, i);
      UsersAround(changed, i);
      assert changed[..i] == inbounds[..i] && changed[i + 1..] == inbounds[i + 1..];
    }
  }

  lemma NoUsersRead(created: Value, ib: Inbound)
    requires created == Obj(InboundSettings(map["tag" := Str(ib.tag)], ib))
    ensures ib.options.Keys !! {"users", "options", "tag"} ==> UsersOfInbound(created) == []
  {
    if ib.options.Keys !! {"users", "options", "tag"} {
      assert GetInboundUsers(created.fields) == [];
    }
  }

  lemma SettingsKeepUsers(m: Object, ib: Inbound)
    requires ib.options.Keys !! {"users", "options", "tag"}
    ensures var after := InboundSettings(m, ib);
      GetInboundUsers(after) == GetInboundUsers(m) && GetString(after, "tag") == GetString(m, "tag")
  {
  }

  lemma DeletedTree(root: Object, tag: string)
    requires Edited(root, DeleteInbound(tag)).Ok?
    ensures var before := GetInbounds(root);
            var i := FindIndex(before, ByTag(tag));
      && i < |before| && GetString(before[i].fields, "tag") == tag
      && (forall j | 0 <= j < i :: GetString(before[j].fields, "tag") != tag)
      && Edited(root, DeleteInbound(tag)).value == SetInbounds(root, before[..i] + before[i + 1..])
  {
    hide GetInbounds, SetInbounds, BuildProtocolUser, InboundSettings, WithoutUsers, HasUser, FindIndex;
  }

  /** Deleting an inbound loses the first of its tag and the users listed for it, and
      nothing else. */
  lemma DeleteInboundRemoves(root: Object, tag: string)
    requires Edited(root, DeleteInbound(tag)).Ok?
    ensures var before, after := GetInbounds(root), Edited(root, DeleteInbound(tag)).value;
            var i := FindIndex(before, ByTag(tag));
      && i < |before| && GetString(before[i].fields, "tag") == tag
      && (forall j | 0 <= j < i :: GetString(before[j].fields, "tag") != tag)
      && GetInbounds(after) == before[..i] + before[i + 1..]
      && GetUsers(root) == UsersOfInbounds(before[..i]) + UsersOfInbound(before[i]) + UsersOfInbounds(before[i + 1..])
      && GetUsers(after) == UsersOfInbounds(before[..i]) + UsersOfInbounds(before[i + 1..])
  {
    hide Edited, UsersOfInbounds, UsersOfInbound, GetInbounds, SetInbounds, FindIndex;
    DeletedTree(root, tag);
    var before := GetInbounds(root);
    var i := FindIndex(before, ByTag(tag));
    var rest := before[..i] + before[i + 1..];
    GetAfterSetInbounds(root, rest);
    UsersAround(before, i);
    UsersConcat(before[..i], before[i + 1..]);
  }

  // What they do to the listing of inbounds.

  ghost predicate FirstOf(inbounds: seq<Value>, tag: string, i: nat) {
    i < |inbounds| && IsInbound(inbounds[i], tag) && forall j | 0 <= j < i :: !IsInbound(inbounds[j], tag)
  }

  /** Created, an inbound is the last of the listing. */
  lemma CreatedInboundListed(root: Object, ib: Inbound)
    requires Edited(root, CreateInbound(ib)).Ok?
    ensures var before, after := GetInbounds(root), GetInbounds(Edited(root, CreateInbound(ib)).value);
      ReadInbounds(after) == ReadInbounds(before) + [ReadInbound(InboundSettings(map["tag" := Str(ib.tag)], ib))]
  {
    var created := Obj(InboundSettings(map["tag" := Str(ib.tag)], ib));
    assert Edited(root, CreateInbound(ib)).value == SetInbounds(root, GetInbounds(root) + [created]);
    hide Edited, GetInbounds, SetInbounds, InboundSettings, ReadInbound;
    GetAfterSetInbounds(root, GetInbounds(root) + [created]);
  }

  /** Updated, the first of the tag is listed with the settings of the request, and the
      others as before. */
  lemma UpdatedInboundListed(root: Object, ib: Inbound) returns (i: nat)
    requires Edited(root, UpdateInbound(ib)).Ok?
    ensures var before, after := GetInbounds(root), GetInbounds(Edited(root, UpdateInbound(ib)).value);
      FirstOf(before, ib.tag, i) && ReadInbounds(after) == ReadInbounds(before)[i := ReadInbound(InboundSettings(before[i].fields, ib))]
  {
    var before := GetInbounds(root);
    i := FindIndex(before, ByTag(ib.tag));
    IndexOfTag(before, ib.tag);
    var changed := before[i := Obj(InboundSettings(before[i].fields, ib))];
    assert Edited(root, UpdateInbound(ib)).value == SetInbounds(root, changed);
    hide Edited, GetInbounds, SetInbounds, InboundSettings, ReadInbound, FindIndex, IsInbound;
    GetAfterSetInbounds(root, changed);
  }

  /** Deleted, the first of the tag is listed no more, and the others as before. */
  lemma DeletedInboundListed(root: Object, tag: string) returns (i: nat)
    requires Edited(root, DeleteInbound(tag)).Ok?
    ensures var before, after := GetInbounds(root), GetInbounds(Edited(root, DeleteInbound(tag)).value);
      FirstOf(before, tag, i) && ReadInbounds(after) == ReadInbounds(before)[..i] + ReadInbounds(before)[i + 1..]
  {
    var before := GetInbounds(root);
    i := FindIndex(before, ByTag(tag));
    hide Edited, GetInbounds, SetInbounds, ReadInbound, FindIndex, IsInbound;
    IndexOfTag(before, tag);
    DeletedTree(root, tag);
    var rest := before[..i] + before[i + 1..];
    GetAfterSetInbounds(root, rest);
    assert ReadInbounds(rest) == ReadInbounds(before)[..i] + ReadInbounds(before)[i + 1..];
  }
}
