/** The API models, the JSON objects the desired-state manager stores for them,
    and how the REST client reads a stored user object. */
module Models {
  import opened Wrappers
  import opened Json

  datatype Inbound = Inbound(tag: string, kind: string, listen: string, port: int, options: Object)

  datatype User = User(
    subID: string, uuid: string, inboundTag: string, email: string, enabled: bool, flow: string,
    limitIP: int, uploadLimit: nat, downloadLimit: nat, resetAt: Option<int>)

  /** The field of an inbound's JSON object under a key; all but the first two
      are omitted when empty. */
  function InboundField(ib: Inbound, key: string): Option<Value> {
    if key == "tag" then Some(Str(ib.tag))
    else if key == "type" then Some(Str(ib.kind))
    else if key == "listen" && ib.listen != "" then Some(Str(ib.listen))
    else if key == "port" && ib.port != 0 then Some(Num(ib.port as real))
    else if key == "options" && ib.options != map[] then Some(Obj(ib.options))
    else None
  }

  function InboundToMap(ib: Inbound): Object {
    map key | key in {"tag", "type", "listen", "port", "options"} && InboundField(ib, key).Some?
      :: InboundField(ib, key).value
  }

  /** Likewise for a user; `subId`, `inboundTag` and `enabled` are always present. */
  function UserField(u: User, key: string): Option<Value> {
    if key == "subId" then Some(Str(u.subID))
    else if key == "uuid" && u.uuid != "" then Some(Str(u.uuid))
    else if key == "inboundTag" then Some(Str(u.inboundTag))
    else if key == "email" && u.email != "" then Some(Str(u.email))
    else if key == "enabled" then Some(Bool(u.enabled))
    else if key == "flow" && u.flow != "" then Some(Str(u.flow))
    else if key == "limitIp" && u.limitIP != 0 then Some(Num(u.limitIP as real))
    else if key == "uploadLimit" && u.uploadLimit != 0 then Some(Num(u.uploadLimit as real))
    else if key == "downloadLimit" && u.downloadLimit != 0 then Some(Num(u.downloadLimit as real))
    else if key == "resetAt" && u.resetAt.Some? then Some(Num(u.resetAt.value as real))
    else None
  }

  function UserToMap(u: User): Object {
    map key | key in {"subId", "uuid", "inboundTag", "email", "enabled", "flow",
                      "limitIp", "uploadLimit", "downloadLimit", "resetAt"} && UserField(u, key).Some?
      :: UserField(u, key).value
  }

  function FirstNonEmpty(values: seq<string>): (r: string)
    ensures r != "" ==> r in values
    ensures r == "" <==> forall v | v in values :: v == ""
  {
    if values == [] then ""
    else if values[0] != "" then values[0]
    else
      assert forall v | v in values :: v == values[0] || v in values[1..];
      FirstNonEmpty(values[1..])
  }

  /** How the REST client reads a stored user object of the given inbound; a
      user without any identifier is skipped. */
  function UserFromMap(m: Object, inboundTag: string): Option<User> {
    var subID := FirstNonEmpty([GetString(m, "subId"), GetString(m, "name"), GetString(m, "email"), GetString(m, "uuid")]);
    if subID == "" then None
    else Some(User(
      subID, FirstNonEmpty([GetString(m, "uuid"), GetString(m, "password")]), inboundTag, GetString(m, "email"),
      if "enabled" in m && m["enabled"].Bool? then m["enabled"].b else true,
      GetString(m, "flow"), 0, 0, 0, None))
  }

  // What is stored and what is read, key by key.

  /** The stored inbound has the given settings and nothing else. */
  predicate InboundOf(ib: Inbound, b: Object) {
    && b.Keys <= {"tag", "type", "listen", "port", "options"}
    && At(b, "tag") == Some(Str(ib.tag)) && At(b, "type") == Some(Str(ib.kind))
    && At(b, "listen") == (if ib.listen == "" then None else Some(Str(ib.listen)))
    && At(b, "port") == (if ib.port == 0 then None else Some(Num(ib.port as real)))
    && At(b, "options") == (if ib.options == map[] then None else Some(Obj(ib.options)))
  }

  lemma SettingsStored(ib: Inbound)
    ensures InboundOf(ib, InboundToMap(ib))
  {
  }

  /** The entry of a user: identity and state always, everything else where it is set. */
  predicate EntryOf(u: User, b: Object) {
    && b.Keys <= {"subId", "uuid", "inboundTag", "email", "enabled", "flow", "limitIp", "uploadLimit", "downloadLimit", "resetAt"}
    && At(b, "subId") == Some(Str(u.subID)) && At(b, "inboundTag") == Some(Str(u.inboundTag))
    && At(b, "enabled") == Some(Bool(u.enabled))
    && At(b, "uuid") == (if u.uuid == "" then None else Some(Str(u.uuid)))
    && At(b, "email") == (if u.email == "" then None else Some(Str(u.email)))
    && At(b, "flow") == (if u.flow == "" then None else Some(Str(u.flow)))
    && At(b, "limitIp") == (if u.limitIP == 0 then None else Some(Num(u.limitIP as real)))
    && At(b, "uploadLimit") == (if u.uploadLimit == 0 then None else Some(Num(u.uploadLimit as real)))
    && At(b, "downloadLimit") == (if u.downloadLimit == 0 then None else Some(Num(u.downloadLimit as real)))
    && At(b, "resetAt") == (if u.resetAt == None then None else Some(Num(u.resetAt.value as real)))
  }

  lemma UserStored(u: User)
    ensures EntryOf(u, UserToMap(u))
  {
    hide UserToMap;
    KeysStored(u);
    FieldStored(u, "subId");
    FieldStored(u, "inboundTag");
    FieldStored(u, "enabled");
    FieldStored(u, "uuid");
    FieldStored(u, "email");
    FieldStored(u, "flow");
    FieldStored(u, "limitIp");
    FieldStored(u, "uploadLimit");
    FieldStored(u, "downloadLimit");
    FieldStored(u, "resetAt");
  }

  lemma KeysStored(u: User)
    ensures UserToMap(u).Keys <=
            {"subId", "uuid", "inboundTag", "email", "enabled", "flow", "limitIp", "uploadLimit", "downloadLimit", "resetAt"}
  {
    hide UserField;
  }

  lemma FieldStored(u: User, key: string)
    requires key in {"subId", "uuid", "inboundTag", "email", "enabled", "flow", "limitIp", "uploadLimit", "downloadLimit", "resetAt"}
    ensures At(UserToMap(u), key) == UserField(u, key)
  {
    hide UserField;
  }

  /** The entry determines the user and the user the entry. */
  lemma EntryDetermines(u: User, a: Object, b: Object)
    requires EntryOf(u, a) && EntryOf(u, b)
    ensures a == b
  {
    forall key ensures key in a <==> key in b
               ensures key in a ==> a[key] == b[key]
    {
      assert At(a, key) == At(b, key) by {
        if key in a || key in b {
          assert key in {"subId", "uuid", "inboundTag", "email", "enabled", "flow", "limitIp", "uploadLimit", "downloadLimit", "resetAt"};
        }
      }
    }
  }

  function OrElse(a: string, b: string): string { if a != "" then a else b }

  /** What the client reads of any entry: the first identifier there is, and nothing at
      all without one; the password where there is no UUID; enabled unless it says no. */
  lemma EntryRead(m: Object, tag: string)
    ensures var id := OrElse(Text(m, "subId"), OrElse(Text(m, "name"), OrElse(Text(m, "email"), Text(m, "uuid"))));
      UserFromMap(m, tag) ==
      if id == "" then None
      else Some(User(id, OrElse(Text(m, "uuid"), Text(m, "password")), tag, Text(m, "email"),
                     At(m, "enabled") != Some(Bool(false)), Text(m, "flow"), 0, 0, 0, None))
  {
    FirstOfFour(GetString(m, "subId"), GetString(m, "name"), GetString(m, "email"), GetString(m, "uuid"));
    FirstNonEmptyPair(GetString(m, "uuid"), GetString(m, "password"));
    hide FirstNonEmpty;
  }

  lemma FirstOfFour(a: string, b: string, c: string, d: string)
    ensures FirstNonEmpty([a, b, c, d]) == OrElse(a, OrElse(b, OrElse(c, d)))
  {
    assert [a, b, c, d][1..] == [b, c, d] && [b, c, d][1..] == [c, d] && [c, d][1..] == [d] && [d][1..] == [];
    assert FirstNonEmpty([d]) == d;
    assert FirstNonEmpty([c, d]) == OrElse(c, d);
    assert FirstNonEmpty([b, c, d]) == OrElse(b, OrElse(c, d));
  }

  lemma UserIdentityReads(u: User)
    ensures var m := UserToMap(u);
            && GetString(m, "subId") == u.subID
            && GetString(m, "name") == GetString(m, "password") == "" && "sub_id" !in m && "name" !in m
            && GetString(m, "uuid") == u.uuid
            && ("uuid" in m <==> u.uuid != "")
  {
  }

  lemma UserTextReads(u: User)
    ensures var m := UserToMap(u);
            && GetString(m, "email") == u.email && GetString(m, "flow") == u.flow
            && "enabled" in m && m["enabled"] == Bool(u.enabled)
  {
  }

  /** A user without the fields that the client does not read. */
  function Unlimited(u: User): User {
    u.(limitIP := 0, uploadLimit := 0, downloadLimit := 0, resetAt := None)
  }

  /** What the client reads of a user that the manager stored. */
  lemma UserReadsBack(u: User, tag: string)
    requires u.subID != ""
    ensures UserFromMap(UserToMap(u), tag) == Some(Unlimited(u).(inboundTag := tag))
  {
    UserIdentityReads(u);
    UserTextReads(u);
    var m := UserToMap(u);
    FirstNonEmptyPair(u.uuid, "");
    assert FirstNonEmpty([GetString(m, "subId"), GetString(m, "name"), GetString(m, "email"), GetString(m, "uuid")]) == u.subID;
  }

  lemma FirstNonEmptyPair(a: string, b: string)
    ensures FirstNonEmpty([a, b]) == if a != "" then a else b
  {
    assert FirstNonEmpty([a, b][1..]) == b by {
      assert [a, b][1..] == [b];
    }
  }
}
