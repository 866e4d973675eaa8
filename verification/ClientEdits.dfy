/** The REST client's edits of the config tree: inbounds and users, and the list of
    user names that traffic statistics are kept for. */
module ClientEdits {
  import opened Wrappers
  import opened Json
  import opened Entries
  import opened Models

  datatype Error = ReadConfig | ParseConfig | InboundExists | InboundNotFound | UserExists | UserNotFound

  type File = Option<Value>

  // Reading the tree.

  function ObjectsOf(items: seq<Value>): (r: seq<Value>)
    ensures forall v :: v in r <==> v in items && v.Obj?
  {
    if items == [] then []
    else
      var last := |items| - 1;
      assert forall v :: v in items <==> v == items[last] || v in items[..last];
      ObjectsOf(items[..last]) + if items[last].Obj? then [items[last]] else []
  }

  function GetInbounds(root: Object): (r: seq<Value>)
    ensures forall v | v in r :: v.Obj?
  {
    if "inbounds" in root && root["inbounds"].Arr? then ObjectsOf(root["inbounds"].items) else []
  }

  function SetInbounds(root: Object, inbounds: seq<Value>): Object {
    root["inbounds" := Arr(inbounds)]
  }

  function GetInboundUsers(inbound: Object): seq<Value> {
    if "users" in inbound && inbound["users"].Arr? then inbound["users"].items
    else if "options" in inbound && inbound["options"].Obj? &&
            "users" in inbound["options"].fields && inbound["options"].fields["users"].Arr?
    then inbound["options"].fields["users"].items
    else []
  }

  function SetInboundUsers(inbound: Object, users: seq<Value>): Object {
    if "users" in inbound then inbound["users" := Arr(users)]
    else if "options" in inbound && inbound["options"].Obj? && "users" in inbound["options"].fields
    then inbound["options" := Obj(inbound["options"].fields["users" := Arr(users)])]
    else inbound["users" := Arr(users)]
  }

  /** The list under `users` is read, else the one in the options, else none; it is
      written to the options only if those have a key for it and the inbound has none. */
  lemma UsersPlaced(inbound: Object, users: seq<Value>)
    ensures GetInboundUsers(inbound) ==
            match (At(inbound, "users"), At(inbound, "options"))
            case (Some(Arr(list)), _) => list
            case (_, Some(Obj(o))) => (match At(o, "users") case Some(Arr(list)) => list case _ => [])
            case _ => []
    ensures SetInboundUsers(inbound, users) ==
            match (At(inbound, "users"), At(inbound, "options"))
            case (None, Some(Obj(o))) =>
              if "users" in o then inbound["options" := Obj(o["users" := Arr(users)])] else inbound["users" := Arr(users)]
            case _ => inbound["users" := Arr(users)]
  {
  }

  /** Wherever the users are kept, what is set is what is read. */
  lemma GetAfterSet(inbound: Object, users: seq<Value>)
    ensures GetInboundUsers(SetInboundUsers(inbound, users)) == users
  {
  }

  /** Setting twice is setting last, and nothing but the users is touched. */
  lemma SetAfterSet(inbound: Object, a: seq<Value>, b: seq<Value>)
    ensures SetInboundUsers(SetInboundUsers(inbound, a), b) == SetInboundUsers(inbound, b)
    ensures forall key | key != "users" && key != "options" ::
              key in SetInboundUsers(inbound, a) <==> key in inbound
    ensures forall key | key in inbound && key != "users" && key != "options" ::
              SetInboundUsers(inbound, a)[key] == inbound[key]
  {
    var once := SetInboundUsers(inbound, a);
    if "users" in inbound {
      assert once["users" := Arr(b)] == inbound["users" := Arr(b)];
    } else if "options" in inbound && inbound["options"].Obj? && "users" in inbound["options"].fields {
      var o := inbound["options"].fields;
      assert o["users" := Arr(a)]["users" := Arr(b)] == o["users" := Arr(b)];
      assert once["options" := Obj(o["users" := Arr(b)])] == inbound["options" := Obj(o["users" := Arr(b)])];
    } else {
      assert once["users" := Arr(b)] == inbound["users" := Arr(b)];
    }
  }

  // Users on the wire of each protocol.

  /** The lower-case letter of a character, as far as it is an ASCII one: the dotted I
      and the Kelvin sign have one too. */
  function Lower(c: char): char {
    if 'A' <= c <= 'Z' then c - 'A' + 'a'
    else if c == '\U{0130}' then 'i'
    else if c == '\U{212A}' then 'k'
    else c
  }

  function ToLower(s: string): string {
    seq(|s|, i requires 0 <= i < |s| => Lower(s[i]))
  }

  function WithText(m: Object, key: string, v: string): Object {
    if v != "" then m[key := Str(v)] else m
  }

  /** `existing` is empty for a new user; `generated` is the UUID made up when none is given. */
  function BuildProtocolUser(kind: string, user: User, existing: Object, generated: string): Object {
    var kind := ToLower(kind);
    if kind == "vless" || kind == "vmess" then
      var m: Object := map["uuid" := Str(OrElse(OrElse(user.uuid, GetString(existing, "uuid")), generated))];
      var m := WithText(m, "name", OrElse(user.subID, GetString(existing, "name")));
      WithText(m, "flow", OrElse(user.flow, GetString(existing, "flow")))
    else if kind == "hysteria2" || kind == "shadowtls" || kind == "shadowsocks" || kind == "trojan" || kind == "tuic" then
      map["name" := Str(OrElse(user.subID, GetString(existing, "name"))),
          "password" := Str(OrElse(OrElse(user.uuid, GetString(existing, "password")), generated))]
    else
      WithText(WithText(WithText(WithText(existing, "subId", user.subID), "uuid", user.uuid), "email", user.email), "flow", user.flow)
  }

  /** The name in any letter case. */
  predicate SpelledAs(kind: string, name: string) {
    |kind| == |name| &&
    forall i | 0 <= i < |kind| ::
      || kind[i] == name[i]
      || ('a' <= name[i] <= 'z' && kind[i] as int == name[i] as int - 32)
      || (name[i] == 'i' && kind[i] == '\U{0130}')
      || (name[i] == 'k' && kind[i] == '\U{212A}')
  }

  predicate KnowsByUUID(kind: string) {
    SpelledAs(kind, "vless") || SpelledAs(kind, "vmess")
  }

  predicate KnowsByPassword(kind: string) {
    SpelledAs(kind, "hysteria2") || SpelledAs(kind, "shadowtls") || SpelledAs(kind, "shadowsocks") ||
    SpelledAs(kind, "trojan") || SpelledAs(kind, "tuic")
  }

  lemma LowerSpells(kind: string, name: string)
    requires forall i | 0 <= i < |name| :: 'a' <= name[i] <= 'z' || '0' <= name[i] <= '9'
    ensures ToLower(kind) == name <==> SpelledAs(kind, name)
  {
    var lower := ToLower(kind);
    assert forall i | 0 <= i < |lower| :: lower[i] == Lower(kind[i]);
    if SpelledAs(kind, name) {
      assert forall i | 0 <= i < |kind| :: Lower(kind[i]) == name[i];
    }
  }

  lemma KindsSpelled(kind: string)
    ensures var lower := ToLower(kind);
      && (lower == "vless" || lower == "vmess" <==> KnowsByUUID(kind))
      && (lower == "hysteria2" || lower == "shadowtls" || lower == "shadowsocks" || lower == "trojan" || lower == "tuic" <==>
          KnowsByPassword(kind))
  {
    hide ToLower, SpelledAs;
    LowerSpells(kind, "vless");
    LowerSpells(kind, "vmess");
    LowerSpells(kind, "hysteria2");
    LowerSpells(kind, "shadowtls");
    LowerSpells(kind, "shadowsocks");
    LowerSpells(kind, "trojan");
    LowerSpells(kind, "tuic");
  }

  function TextOrNone(s: string): Option<Value> {
    if s == "" then None else Some(Str(s))
  }

  /** What the request gives under a key of a protocol that is not known. */
  function Given(u: User, key: string): string {
    if key == "subId" then u.subID
    else if key == "uuid" then u.uuid
    else if key == "email" then u.email
    else if key == "flow" then u.flow
    else ""
  }

  /** The entry built for a protocol: what is given, else what was stored, and for the
      credential else what was generated; nothing else of the stored entry is kept unless
      the protocol is not known. */
  ghost predicate BuiltFor(kind: string, u: User, existing: Object, generated: string, m: Object) {
    if KnowsByUUID(kind) then
      && m.Keys <= {"uuid", "name", "flow"}
      && At(m, "uuid") == Some(Str(OrElse(u.uuid, OrElse(Text(existing, "uuid"), generated))))
      && At(m, "name") == TextOrNone(OrElse(u.subID, Text(existing, "name")))
      && At(m, "flow") == TextOrNone(OrElse(u.flow, Text(existing, "flow")))
    else if KnowsByPassword(kind) then
      && m.Keys == {"name", "password"}
      && At(m, "password") == Some(Str(OrElse(u.uuid, OrElse(Text(existing, "password"), generated))))
      && At(m, "name") == Some(Str(OrElse(u.subID, Text(existing, "name"))))
    else forall key :: At(m, key) == if Given(u, key) != "" then Some(Str(Given(u, key))) else At(existing, key)
  }

  lemma BuiltExactly(kind: string, u: User, existing: Object, generated: string)
    ensures BuiltFor(kind, u, existing, generated, BuildProtocolUser(kind, u, existing, generated))
  {
    KindsSpelled(kind);
    hide ToLower, KnowsByUUID, KnowsByPassword;
  }

  /** How a user is listed that a request with a SubID has stored. */
  function ListedAs(kind: string, u: User, existing: Object, generated: string): User {
    if KnowsByUUID(kind) then
      User(u.subID, OrElse(u.uuid, OrElse(Text(existing, "uuid"), generated)), u.inboundTag, "", true,
           OrElse(u.flow, Text(existing, "flow")), 0, 0, 0, None)
    else if KnowsByPassword(kind) then
      User(u.subID, OrElse(u.uuid, OrElse(Text(existing, "password"), generated)), u.inboundTag, "", true, "", 0, 0, 0, None)
    else
      User(u.subID, OrElse(u.uuid, OrElse(Text(existing, "uuid"), Text(existing, "password"))), u.inboundTag,
           OrElse(u.email, Text(existing, "email")), At(existing, "enabled") != Some(Bool(false)),
           OrElse(u.flow, Text(existing, "flow")), 0, 0, 0, None)
  }

  /** Whatever the protocol, a user stored under a SubID answers to it and reads back
      under it, with the credential and the flow that were given if any were. */
  lemma BuiltUserReads(kind: string, u: User, existing: Object, generated: string)
    requires u.subID != ""
    ensures var m := BuildProtocolUser(kind, u, existing, generated);
      && Selects(ByAnyID(u.subID), Obj(m))
      && UserFromMap(m, u.inboundTag) == Some(ListedAs(kind, u, existing, generated))
  {
    var m := BuildProtocolUser(kind, u, existing, generated);
    BuiltExactly(kind, u, existing, generated);
    BuiltTexts(kind, u, existing, generated, m);
    SelectsExactly(Obj(m), u.subID);
    hide Selects, Text, BuiltFor, KnowsByUUID, KnowsByPassword;
    EntryRead(m, u.inboundTag);
    hide BuildProtocolUser, UserFromMap;
  }

  lemma BuiltTexts(kind: string, u: User, existing: Object, generated: string, m: Object)
    requires u.subID != "" && BuiltFor(kind, u, existing, generated, m)
    ensures var l := ListedAs(kind, u, existing, generated);
      && Text(m, "subId") in {"", u.subID} && (Text(m, "subId") == "" ==> Text(m, "name") == u.subID)
      && OrElse(Text(m, "uuid"), Text(m, "password")) == l.uuid
      && Text(m, "email") == l.email && Text(m, "flow") == l.flow
      && (l.enabled <==> At(m, "enabled") != Some(Bool(false)))
  {
    hide KnowsByUUID, KnowsByPassword;
    if !KnowsByUUID(kind) && !KnowsByPassword(kind) {
      KeptTexts(u, existing, m);
    } else {
      assert At(m, "subId") == None && At(m, "email") == None && At(m, "enabled") == None;
    }
  }

  lemma KeptTexts(u: User, existing: Object, m: Object)
    requires forall key :: At(m, key) == if Given(u, key) != "" then Some(Str(Given(u, key))) else At(existing, key)
    ensures u.subID != "" ==> Text(m, "subId") == u.subID
    ensures Text(m, "uuid") == OrElse(u.uuid, Text(existing, "uuid")) && Text(m, "password") == Text(existing, "password")
    ensures Text(m, "email") == OrElse(u.email, Text(existing, "email"))
    ensures Text(m, "flow") == OrElse(u.flow, Text(existing, "flow"))
    ensures At(m, "enabled") == At(existing, "enabled")
  {
  }

  // Listing users.

  function ReadUsers(users: seq<Value>, tag: string): seq<User> {
    if users == [] then []
    else
      var last := |users| - 1;
      ReadUsers(users[..last], tag) +
      if users[last].Obj? && UserFromMap(users[last].fields, tag).Some? then [UserFromMap(users[last].fields, tag).value] else []
  }

  function UsersOfInbound(v: Value): seq<User> {
    if v.Obj? then ReadUsers(GetInboundUsers(v.fields), GetString(v.fields, "tag")) else []
  }

  function UsersOfInbounds(inbounds: seq<Value>): seq<User> {
    if inbounds == [] then []
    else
      var last := |inbounds| - 1;
      UsersOfInbounds(inbounds[..last]) + UsersOfInbound(inbounds[last])
  }

  function GetUsers(root: Object): seq<User> {
    UsersOfInbounds(GetInbounds(root))
  }

  // The edits.

  datatype Request =
    | CreateInbound(inbound: Inbound)
    | UpdateInbound(inbound: Inbound)
    | DeleteInbound(tag: string)
    | CreateUser(user: User, generated: string)
    | UpdateUser(user: User, generated: string)
    | DeleteUser(id: string)

  function InboundSettings(m: Object, ib: Inbound): Object {
    var m := m["type" := Str(ib.kind)];
    var m := if ib.listen != "" then m["listen" := Str(ib.listen)] else m;
    var m := if ib.port != 0 then m["listen_port" := Num(ib.port as real)] else m;
    m + ib.options
  }

  /** Position of the first entry selected; the length when there is none. */
  function FindIndex(list: seq<Value>, sel: Selector): (i: nat)
    ensures i <= |list|
    ensures i < |list| ==> Selects(sel, list[i])
    ensures forall j | 0 <= j < i :: !Selects(sel, list[j])
  {
    if list == [] then 0
    else if Selects(sel, list[0]) then 0
    else 1 + FindIndex(list[1..], sel)
  }

  /** An inbound without the users that answer to the id. */
  function WithoutUser(v: Value, id: string): Value
    requires v.Obj?
  {
    var users := GetInboundUsers(v.fields);
    if FindIndex(users, ByAnyID(id)) < |users| then Obj(SetInboundUsers(v.fields, Reject(users, ByAnyID(id)))) else v
  }

  function WithoutUsers(inbounds: seq<Value>, id: string): seq<Value>
    requires forall v | v in inbounds :: v.Obj?
  {
    seq(|inbounds|, i requires 0 <= i < |inbounds| => WithoutUser(inbounds[i], id))
  }

  predicate HasUser(v: Value, id: string) {
    v.Obj? && FindIndex(GetInboundUsers(v.fields), ByAnyID(id)) < |GetInboundUsers(v.fields)|
  }

  /** The tree after a request, before the statistics are brought up to date. */
  function Edited(root: Object, r: Request): Result<Object, Error> {
    var inbounds := GetInbounds(root);
    match r
    case CreateInbound(ib) =>
      if FindIndex(inbounds, ByTag(ib.tag)) < |inbounds| then Err(InboundExists)
      else Ok(SetInbounds(root, inbounds + [Obj(InboundSettings(map["tag" := Str(ib.tag)], ib))]))
    case UpdateInbound(ib) =>
      var i := FindIndex(inbounds, ByTag(ib.tag));
      if i == |inbounds| then Err(InboundNotFound)
      else Ok(SetInbounds(root, inbounds[i := Obj(InboundSettings(inbounds[i].fields, ib))]))
    case DeleteInbound(tag) =>
      var i := FindIndex(inbounds, ByTag(tag));
      if i == |inbounds| then Err(InboundNotFound)
      else Ok(SetInbounds(root, inbounds[..i] + inbounds[i + 1..]))
    case CreateUser(u, generated) =>
      var i := FindIndex(inbounds, ByTag(u.inboundTag));
      if i == |inbounds| then Err(InboundNotFound)
      else
        var inbound := inbounds[i].fields;
        var users := GetInboundUsers(inbound);
        if FindIndex(users, ByAnyID(u.subID)) < |users| then Err(UserExists)
        else
          var built := BuildProtocolUser(GetString(inbound, "type"), u, map[], generated);
          Ok(SetInbounds(root, inbounds[i := Obj(SetInboundUsers(inbound, users + [Obj(built)]))]))
    case UpdateUser(u, generated) =>
      var i := FindIndex(inbounds, ByTag(u.inboundTag));
      if i == |inbounds| then Err(InboundNotFound)
      else
        var inbound := inbounds[i].fields;
        var users := GetInboundUsers(inbound);
        var at := FindIndex(users, ByAnyID(u.subID));
        if at == |users| then Err(UserNotFound)
        else
          var built := BuildProtocolUser(GetString(inbound, "type"), u, users[at].fields, generated);
          Ok(SetInbounds(root, inbounds[i := Obj(SetInboundUsers(inbound, users[at := Obj(built)]))]))
    case DeleteUser(id) =>
      if exists v | v in inbounds :: HasUser(v, id) then Ok(SetInbounds(root, WithoutUsers(inbounds, id)))
      else Err(UserNotFound)
  }

  ghost predicate Known(inbounds: seq<Value>, tag: string) {
    exists v | v in inbounds :: IsInbound(v, tag)
  }

  /** The first inbound of the tag has a user that answers to the id. */
  ghost predicate KnownUser(inbounds: seq<Value>, tag: string, id: string) {
    exists i | 0 <= i < |inbounds| ::
      && IsInbound(inbounds[i], tag) && (forall j | 0 <= j < i :: !IsInbound(inbounds[j], tag))
      && exists x | x in GetInboundUsers(inbounds[i].fields) :: AnswersToAny(x, id)
  }

  /** Why a request is refused: when creating, a tag or a user that is there already, when
      updating or deleting one that is not. */
  ghost function Refusal(root: Object, r: Request): Option<Error> {
    var inbounds := GetInbounds(root);
    match r
    case CreateInbound(ib) => if Known(inbounds, ib.tag) then Some(InboundExists) else None
    case UpdateInbound(ib) => if Known(inbounds, ib.tag) then None else Some(InboundNotFound)
    case DeleteInbound(tag) => if Known(inbounds, tag) then None else Some(InboundNotFound)
    case CreateUser(u, _) =>
      if !Known(inbounds, u.inboundTag) then Some(InboundNotFound)
      else if KnownUser(inbounds, u.inboundTag, u.subID) then Some(UserExists) else None
    case UpdateUser(u, _) =>
      if !Known(inbounds, u.inboundTag) then Some(InboundNotFound)
      else if KnownUser(inbounds, u.inboundTag, u.subID) then None else Some(UserNotFound)
    case DeleteUser(id) =>
      if exists v | v in inbounds :: exists x | x in GetInboundUsers(v.fields) :: AnswersToAny(x, id) then None else Some(UserNotFound)
  }

  /** Everything else is done. */
  lemma RefusedExactly(root: Object, r: Request)
    ensures match Refusal(root, r) case Some(e) => Edited(root, r) == Err(e) case None => Edited(root, r).Ok?
  {
    var inbounds := GetInbounds(root);
    hide GetInbounds, SetInbounds, SetInboundUsers, BuildProtocolUser, InboundSettings, WithoutUsers;
    match r
    case CreateInbound(ib) => IndexOfTag(inbounds, ib.tag);
    case UpdateInbound(ib) => IndexOfTag(inbounds, ib.tag);
    case DeleteInbound(tag) => IndexOfTag(inbounds, tag);
    case CreateUser(u, _) => IndexOfKnown(inbounds, u.inboundTag, u.subID); hide Known, KnownUser, FindIndex, GetInboundUsers;
    case UpdateUser(u, _) => IndexOfKnown(inbounds, u.inboundTag, u.subID); hide Known, KnownUser, FindIndex, GetInboundUsers;
    case DeleteUser(id) =>
      forall v | v in inbounds ensures HasUser(v, id) <==> exists x | x in GetInboundUsers(v.fields) :: AnswersToAny(x, id) {
        IndexOfUser(GetInboundUsers(v.fields), id);
      }
      hide AnswersToAny, HasUser, FindIndex, GetInboundUsers;
  }

  lemma IndexOfKnown(inbounds: seq<Value>, tag: string, id: string)
    ensures var i := FindIndex(inbounds, ByTag(tag));
      && (i < |inbounds| <==> Known(inbounds, tag))
      && (i < |inbounds| ==> inbounds[i].Obj?)
      && (i < |inbounds| ==>
            (var users := GetInboundUsers(inbounds[i].fields);
             FindIndex(users, ByAnyID(id)) < |users| <==> KnownUser(inbounds, tag, id)))
  {
    IndexOfTag(inbounds, tag);
    var i := FindIndex(inbounds, ByTag(tag));
    if i < |inbounds| { IndexOfUser(GetInboundUsers(inbounds[i].fields), id); }
    hide FindIndex, GetInboundUsers, IsInbound, AnswersToAny;
  }

  lemma IndexOfTag(inbounds: seq<Value>, tag: string)
    ensures var i := FindIndex(inbounds, ByTag(tag));
      && (i < |inbounds| <==> exists v | v in inbounds :: IsInbound(v, tag))
      && (i < |inbounds| ==> IsInbound(inbounds[i], tag))
      && (forall j | 0 <= j < i :: !IsInbound(inbounds[j], tag))
  {
    forall v ensures Selects(ByTag(tag), v) <==> IsInbound(v, tag) { SelectsExactly(v, tag); }
    hide Selects, IsInbound;
  }

  lemma IndexOfUser(users: seq<Value>, id: string)
    ensures FindIndex(users, ByAnyID(id)) < |users| <==> exists x | x in users :: AnswersToAny(x, id)
  {
    forall x ensures Selects(ByAnyID(id), x) <==> AnswersToAny(x, id) { SelectsExactly(x, id); }
    hide Selects, AnswersToAny;
  }

  lemma {:induction false} ObjectsOfObjects(items: seq<Value>)
    requires forall v | v in items :: v.Obj?
    ensures ObjectsOf(items) == items
  {
    if items != [] {
      ObjectsOfObjects(items[..|items| - 1]);
      assert items == items[..|items| - 1] + [items[|items| - 1]];
    }
  }

  lemma GetAfterSetInbounds(root: Object, inbounds: seq<Value>)
    requires forall v | v in inbounds :: v.Obj?
    ensures GetInbounds(SetInbounds(root, inbounds)) == inbounds
  {
    ObjectsOfObjects(inbounds);
  }

  /** No request touches anything of the config but the inbounds. */
  lemma EditedElsewhere(root: Object, r: Request, key: string)
    requires Edited(root, r).Ok? && key != "inbounds"
    ensures At(Edited(root, r).value, key) == At(root, key)
  {
    hide GetInbounds, GetInboundUsers, SetInboundUsers, BuildProtocolUser, InboundSettings, WithoutUsers, FindIndex, HasUser;
  }

  lemma {:induction false} ReadUsersConcat(a: seq<Value>, b: seq<Value>, tag: string)
    ensures ReadUsers(a + b, tag) == ReadUsers(a, tag) + ReadUsers(b, tag)
  {
    if b == [] {
      assert a + b == a;
    } else {
      hide UserFromMap;
      assert (a + b)[..|a + b| - 1] == a + b[..|b| - 1];
      ReadUsersConcat(a, b[..|b| - 1], tag);
    }
  }

  lemma {:induction false} UsersConcat(a: seq<Value>, b: seq<Value>)
    ensures UsersOfInbounds(a + b) == UsersOfInbounds(a) + UsersOfInbounds(b)
  {
    if b == [] {
      assert a + b == a;
    } else {
      hide UsersOfInbound, UsersOfInbounds;
      var front, last := b[..|b| - 1], b[|b| - 1];
      assert b == front + [last];
      Assoc(a, front, [last]);
      Assoc(UsersOfInbounds(a), UsersOfInbounds(front), UsersOfInbound(last));
      UsersConcat(a, front);
      UsersSnoc(a + front, last);
      UsersSnoc(front, last);
    }
  }

  lemma Around<T>(s: seq<T>, i: nat)
    requires i < |s|
    ensures s == s[..i] + [s[i]] + s[i + 1..]
  {
  }

  lemma Assoc<T>(a: seq<T>, b: seq<T>, c: seq<T>)
    ensures a + (b + c) == a + b + c
  {
  }

  lemma UsersSnoc(inbounds: seq<Value>, v: Value)
    ensures UsersOfInbounds(inbounds + [v]) == UsersOfInbounds(inbounds) + UsersOfInbound(v)
  {
    hide UsersOfInbound;
    assert (inbounds + [v])[..|inbounds|] == inbounds;
  }

  /** The users listed before, in and after the i-th inbound. */
  lemma UsersAround(inbounds: seq<Value>, i: nat)
    requires i < |inbounds|
    ensures UsersOfInbounds(inbounds) ==
            UsersOfInbounds(inbounds[..i]) + UsersOfInbound(inbounds[i]) + UsersOfInbounds(inbounds[i + 1..])
  {
    hide UsersOfInbounds, UsersOfInbound;
    Around(inbounds, i);
    UsersOfOne(inbounds[i]);
    UsersOfThree(inbounds[..i], [inbounds[i]], inbounds[i + 1..]);
  }

  lemma UsersOfThree(a: seq<Value>, b: seq<Value>, c: seq<Value>)
    ensures UsersOfInbounds(a + b + c) == UsersOfInbounds(a) + UsersOfInbounds(b) + UsersOfInbounds(c)
  {
    hide UsersOfInbounds;
    UsersConcat(a + b, c);
    UsersConcat(a, b);
  }

  lemma UsersOfOne(v: Value)
    ensures UsersOfInbounds([v]) == UsersOfInbound(v)
  {
    hide UsersOfInbound;
    assert [v][..0] == [];
    assert UsersOfInbounds([]) == [];
  }

  /** A list of users put into the i-th inbound is what is listed there. */
  lemma UsersReplaced(root: Object, i: nat, users: seq<Value>)
    requires i < |GetInbounds(root)|
    ensures var inbounds := GetInbounds(root);
            var tag := GetString(inbounds[i].fields, "tag");
      GetUsers(SetInbounds(root, inbounds[i := Obj(SetInboundUsers(inbounds[i].fields, users))])) ==
      UsersOfInbounds(inbounds[..i]) + ReadUsers(users, tag) + UsersOfInbounds(inbounds[i + 1..])
  {
    hide UsersOfInbounds, ReadUsers, SetInboundUsers, GetInboundUsers, GetInbounds, SetInbounds;
    var inbounds := GetInbounds(root);
    var changed := inbounds[i := Obj(SetInboundUsers(inbounds[i].fields, users))];
    forall v | v in changed ensures v.Obj? { assert v == changed[i] || v in inbounds; }
    GetAfterSetInbounds(root, changed);
    UsersAround(changed, i);
    GetAfterSet(inbounds[i].fields, users);
    SetAfterSet(inbounds[i].fields, users, users);
    assert changed[..i] == inbounds[..i] && changed[i + 1..] == inbounds[i + 1..];
  }

  lemma ReadUsersAround(users: seq<Value>, at: nat, tag: string)
    requires at < |users|
    ensures ReadUsers(users, tag) == ReadUsers(users[..at], tag) + ReadUsers([users[at]], tag) + ReadUsers(users[at + 1..], tag)
  {
    hide ReadUsers;
    Around(users, at);
    ReadUsersConcat(users[..at] + [users[at]], users[at + 1..], tag);
    ReadUsersConcat(users[..at], [users[at]], tag);
  }

  lemma ReadOne(v: Value, tag: string)
    ensures ReadUsers([v], tag) == if v.Obj? && UserFromMap(v.fields, tag).Some? then [UserFromMap(v.fields, tag).value] else []
  {
    hide UserFromMap;
    assert [v][..0] == [] && ReadUsers([], tag) == [];
  }

  lemma CreatedTree(root: Object, u: User, generated: string)
    requires Edited(root, CreateUser(u, generated)).Ok?
    ensures var inbounds := GetInbounds(root);
            var i := FindIndex(inbounds, ByTag(u.inboundTag));
      && i < |inbounds|
      && var inbound := inbounds[i].fields;
         var users := GetInboundUsers(inbound);
         var built := Obj(BuildProtocolUser(GetString(inbound, "type"), u, map[], generated));
      && GetString(inbound, "tag") == u.inboundTag
      && UsersOfInbound(inbounds[i]) == ReadUsers(users, u.inboundTag)
      && Edited(root, CreateUser(u, generated)).value ==
         SetInbounds(root, inbounds[i := Obj(SetInboundUsers(inbound, users + [built]))])
  {
    hide BuildProtocolUser, GetInbounds, SetInbounds, GetInboundUsers, SetInboundUsers, FindIndex, WithoutUsers, HasUser,
         InboundSettings, ReadUsers;
  }

  /** Creating a user adds exactly that user, at the end of its inbound's block, with what
      the request gives. */
  lemma CreateUserAppends(root: Object, u: User, generated: string)
    requires u.subID != "" && Edited(root, CreateUser(u, generated)).Ok?
    ensures var inbounds := GetInbounds(root);
            var i := FindIndex(inbounds, ByTag(u.inboundTag));
      && i < |inbounds|
      && var listed := ListedAs(Text(inbounds[i].fields, "type"), u, map[], generated);
      && GetUsers(root) ==
         UsersOfInbounds(inbounds[..i]) + UsersOfInbound(inbounds[i]) + UsersOfInbounds(inbounds[i + 1..])
      && GetUsers(Edited(root, CreateUser(u, generated)).value) ==
         UsersOfInbounds(inbounds[..i]) + (UsersOfInbound(inbounds[i]) + [listed]) + UsersOfInbounds(inbounds[i + 1..])
  {
    var inbounds := GetInbounds(root);
    var i := FindIndex(inbounds, ByTag(u.inboundTag));
    var inbound := inbounds[i].fields;
    var users := GetInboundUsers(inbound);
    var built := Obj(BuildProtocolUser(GetString(inbound, "type"), u, map[], generated));
    hide Edited, BuildProtocolUser, UserFromMap, GetInbounds, SetInbounds, GetInboundUsers, SetInboundUsers,
         UsersOfInbounds, UsersOfInbound, ReadUsers, FindIndex;
    CreatedTree(root, u, generated);
    BuiltUserReads(GetString(inbound, "type"), u, map[], generated);
    GetStringIsText(inbound, "type");
    hide ListedAs, GetString, Text;
    UsersAround(inbounds, i);
    UsersReplaced(root, i, users + [built]);
    ReadUsersConcat(users, [built], u.inboundTag);
    ReadOne(built, u.inboundTag);
  }

  lemma UpdatedTree(root: Object, u: User, generated: string)
    requires Edited(root, UpdateUser(u, generated)).Ok?
    ensures var inbounds := GetInbounds(root);
            var i := FindIndex(inbounds, ByTag(u.inboundTag));
      && i < |inbounds|
      && var inbound := inbounds[i].fields;
         var users := GetInboundUsers(inbound);
         var at := FindIndex(users, ByAnyID(u.subID));
      && at < |users| && users[at].Obj?
      && var built := Obj(BuildProtocolUser(GetString(inbound, "type"), u, users[at].fields, generated));
      && GetString(inbound, "tag") == u.inboundTag
      && Edited(root, UpdateUser(u, generated)).value ==
         SetInbounds(root, inbounds[i := Obj(SetInboundUsers(inbound, users[at := built]))])
  {
    hide BuildProtocolUser, GetInbounds, SetInbounds, GetInboundUsers, SetInboundUsers, FindIndex, WithoutUsers, HasUser,
         InboundSettings, ReadUsers;
  }

  lemma AnsweringIsListed(v: Value, id: string, tag: string)
    requires Selects(ByAnyID(id), v) && id != ""
    ensures UserFromMap(v.fields, tag).Some?
  {
    var m := v.fields;
    FirstOfFour(GetString(m, "subId"), GetString(m, "name"), GetString(m, "email"), GetString(m, "uuid"));
  }

  lemma UpdatedBlock(root: Object, u: User, generated: string)
    requires Edited(root, UpdateUser(u, generated)).Ok?
    ensures var inbounds := GetInbounds(root);
            var i := FindIndex(inbounds, ByTag(u.inboundTag));
      i < |inbounds| && UsersOfInbound(inbounds[i]) == ReadUsers(GetInboundUsers(inbounds[i].fields), u.inboundTag)
  {
    hide Edited, GetInbounds, SetInbounds, GetInboundUsers, SetInboundUsers, FindIndex, BuildProtocolUser, ReadUsers;
    UpdatedTree(root, u, generated);
  }

  /** Updating a user changes the reading of one listed entry alone, and lists it under
      the SubID that it answered to, with what the request gives and else what was stored. */
  lemma UpdateUserReplaces(root: Object, u: User, generated: string)
    requires u.subID != "" && Edited(root, UpdateUser(u, generated)).Ok?
    ensures var inbounds := GetInbounds(root);
            var i := FindIndex(inbounds, ByTag(u.inboundTag));
      && i < |inbounds|
      && var users := GetInboundUsers(inbounds[i].fields);
         var at := FindIndex(users, ByAnyID(u.subID));
      && at < |users| && users[at].Obj?
      && var before := UserFromMap(users[at].fields, u.inboundTag);
      && var after := ListedAs(Text(inbounds[i].fields, "type"), u, users[at].fields, generated);
      && before.Some?
      && GetUsers(root) ==
         UsersOfInbounds(inbounds[..i]) +
         (ReadUsers(users[..at], u.inboundTag) + [before.value] + ReadUsers(users[at + 1..], u.inboundTag)) +
         UsersOfInbounds(inbounds[i + 1..])
      && GetUsers(Edited(root, UpdateUser(u, generated)).value) ==
         UsersOfInbounds(inbounds[..i]) +
         (ReadUsers(users[..at], u.inboundTag) + [after] + ReadUsers(users[at + 1..], u.inboundTag)) +
         UsersOfInbounds(inbounds[i + 1..])
  {
    hide Edited, BuildProtocolUser, UserFromMap, GetInbounds, SetInbounds, GetInboundUsers, SetInboundUsers,
         UsersOfInbounds, UsersOfInbound, ReadUsers, FindIndex;
    UpdatedTree(root, u, generated);
    var inbounds := GetInbounds(root);
    var i := FindIndex(inbounds, ByTag(u.inboundTag));
    var inbound := inbounds[i].fields;
    var users := GetInboundUsers(inbound);
    var at := FindIndex(users, ByAnyID(u.subID));
    var built := Obj(BuildProtocolUser(GetString(inbound, "type"), u, users[at].fields, generated));
    BuiltUserReads(GetString(inbound, "type"), u, users[at].fields, generated);
    GetStringIsText(inbound, "type");
    hide ListedAs, GetString, Text;
    UsersAround(inbounds, i);
    UpdatedBlock(root, u, generated);
    AnsweringIsListed(users[at], u.subID, u.inboundTag);
    ReadOne(users[at], u.inboundTag);
    ReadUsersAround(users, at, u.inboundTag);
    var changed := users[at := built];
    UsersReplaced(root, i, changed);
    ReadUsersAround(changed, at, u.inboundTag);
    ReadOne(built, u.inboundTag);
    assert changed[..at] == users[..at] && changed[at + 1..] == users[at + 1..];
  }

  /** Deleting a user leaves no entry of any inbound that answers to the id and
      lists no such SubID; all other entries stay, in order. */
  lemma DeleteUserRemoves(root: Object, id: string)
    requires id != "" && Edited(root, DeleteUser(id)).Ok?
    ensures var before, after := GetInbounds(root), GetInbounds(Edited(root, DeleteUser(id)).value);
      && |after| == |before|
      && forall i | 0 <= i < |after| ::
           && GetInboundUsers(after[i].fields) == Reject(GetInboundUsers(before[i].fields), ByAnyID(id))
           && GetString(after[i].fields, "tag") == GetString(before[i].fields, "tag")
           && !HasUser(after[i], id)
    ensures forall u | u in GetUsers(Edited(root, DeleteUser(id)).value) :: u.subID != id
  {
    var before := GetInbounds(root);
    var after := WithoutUsers(before, id);
    assert Edited(root, DeleteUser(id)).value == SetInbounds(root, after);
    hide Edited;
    AllWithoutUser(before, id);
    hide GetInbounds, SetInbounds, GetInboundUsers, FindIndex, Selects, Reject, WithoutUsers;
    GetAfterSetInbounds(root, after);
    NoSuchUserListed(after, id);
  }

  lemma AllWithoutUser(before: seq<Value>, id: string)
    requires forall v | v in before :: v.Obj?
    ensures var after := WithoutUsers(before, id);
      && |after| == |before|
      && (forall v | v in after :: v.Obj?)
      && (forall i | 0 <= i < |after| ::
           && GetInboundUsers(after[i].fields) == Reject(GetInboundUsers(before[i].fields), ByAnyID(id))
           && GetString(after[i].fields, "tag") == GetString(before[i].fields, "tag")
           && !HasUser(after[i], id))
      && (forall v, x | v in after && x in GetInboundUsers(v.fields) :: !Selects(ByAnyID(id), x))
  {
    hide GetInboundUsers, Selects, Reject, WithoutUser;
    var after := WithoutUsers(before, id);
    forall i | 0 <= i < |after|
      ensures after[i].Obj?
      ensures GetInboundUsers(after[i].fields) == Reject(GetInboundUsers(before[i].fields), ByAnyID(id))
      ensures GetString(after[i].fields, "tag") == GetString(before[i].fields, "tag")
      ensures forall x | x in GetInboundUsers(after[i].fields) :: !Selects(ByAnyID(id), x)
    {
      assert after[i] == WithoutUser(before[i], id);
      WithoutUserReads(before[i], id);
    }
  }

  lemma WithoutUserReads(v: Value, id: string)
    requires v.Obj?
    ensures WithoutUser(v, id).Obj?
    ensures var users := GetInboundUsers(WithoutUser(v, id).fields);
      && users == Reject(GetInboundUsers(v.fields), ByAnyID(id))
      && (forall x | x in users :: !Selects(ByAnyID(id), x))
      && GetString(WithoutUser(v, id).fields, "tag") == GetString(v.fields, "tag")
  {
    var users := GetInboundUsers(v.fields);
    RejectMembers(users, ByAnyID(id));
    GetAfterSet(v.fields, Reject(users, ByAnyID(id)));
    SetAfterSet(v.fields, Reject(users, ByAnyID(id)), []);
    hide GetInboundUsers, SetInboundUsers, Selects;
  }

  lemma {:induction false} NoSuchUserListed(inbounds: seq<Value>, id: string)
    requires id != ""
    requires forall v, x | v in inbounds && v.Obj? && x in GetInboundUsers(v.fields) :: !Selects(ByAnyID(id), x)
    ensures forall u | u in UsersOfInbounds(inbounds) :: u.subID != id
  {
    if inbounds != [] {
      hide GetInboundUsers, Selects;
      var last := inbounds[|inbounds| - 1];
      NoSuchUserListed(inbounds[..|inbounds| - 1], id);
      if last.Obj? {
        NoSuchUserRead(GetInboundUsers(last.fields), GetString(last.fields, "tag"), id);
      }
    }
  }

  lemma {:induction false} NoSuchUserRead(users: seq<Value>, tag: string, id: string)
    requires id != ""
    requires forall x | x in users :: !Selects(ByAnyID(id), x)
    ensures forall u | u in ReadUsers(users, tag) :: u.subID != id
  {
    if users != [] {
      var last := users[|users| - 1];
      NoSuchUserRead(users[..|users| - 1], tag, id);
      if last.Obj? {
        assert !Selects(ByAnyID(id), last);
        var m := last.fields;
        FirstOfFour(GetString(m, "subId"), GetString(m, "name"), GetString(m, "email"), GetString(m, "uuid"));
      }
    }
  }
}
