/** Saving a config through the REST client: the statistics section always names
    exactly the users that exist. */
module StatsUsers {
  import opened Wrappers
  import opened Sets
  import opened Json
  import opened ClientEdits

  // Strings in the order of sort.Strings.

  predicate Less(a: string, b: string) {
    if b == "" then false
    else if a == "" then true
    else a[0] < b[0] || (a[0] == b[0] && Less(a[1..], b[1..]))
  }

  lemma {:induction false} LessTrichotomy(a: string, b: string)
    ensures Less(a, b) || a == b || Less(b, a)
    ensures !(Less(a, b) && Less(b, a))
    ensures a == b ==> !Less(a, b)
    decreases |a|
  {
    if a != "" && b != "" {
      LessTrichotomy(a[1..], b[1..]);
      assert a == [a[0]] + a[1..] && b == [b[0]] + b[1..];
    }
  }

  lemma {:induction false} LessTransitive(a: string, b: string, c: string)
    requires Less(a, b) && Less(b, c)
    ensures Less(a, c)
    decreases |a|
  {
    if a != "" && a[0] == b[0] && b[0] == c[0] {
      LessTransitive(a[1..], b[1..], c[1..]);
    }
  }

  /** The order of the first character that differs; a proper prefix comes first. */
  lemma {:induction false} LessExactly(a: string, b: string)
    ensures Less(a, b) <==>
            exists k | 0 <= k <= |a| :: k < |b| && a[..k] == b[..k] && (k == |a| || a[k] < b[k])
    decreases |a|
  {
    if a != "" && b != "" {
      LessExactly(a[1..], b[1..]);
      if Less(a, b) {
        if a[0] < b[0] {
          assert a[..0] == b[..0];
        } else {
          var k :| 0 <= k <= |a[1..]| && k < |b[1..]| && a[1..][..k] == b[1..][..k] && (k == |a[1..]| || a[1..][k] < b[1..][k]);
          LongerPrefix(a, b, k);
        }
      }
      if k :| 0 <= k <= |a| && k < |b| && a[..k] == b[..k] && (k == |a| || a[k] < b[k]) {
        ShorterPrefix(a, b, k);
      }
    } else if b != "" {
      assert a[..0] == b[..0];
    }
  }

  lemma LongerPrefix(a: string, b: string, k: nat)
    requires a != "" && b != "" && a[0] == b[0] && k < |a| && k < |b| && a[1..][..k] == b[1..][..k]
    ensures a[..k + 1] == b[..k + 1]
  {
    assert a[..k + 1] == [a[0]] + a[1..][..k] && b[..k + 1] == [b[0]] + b[1..][..k];
  }

  lemma ShorterPrefix(a: string, b: string, k: nat)
    requires k <= |a| && k < |b| && a[..k] == b[..k]
    ensures k > 0 ==> a[0] == b[0] && a[1..][..k - 1] == b[1..][..k - 1]
  {
    if k > 0 {
      assert a[0] == a[..k][0] && b[0] == b[..k][0];
      assert a[1..][..k - 1] == a[..k][1..] && b[1..][..k - 1] == b[..k][1..];
    }
  }

  predicate Ascending(names: seq<string>) {
    forall i, j | 0 <= i < j < |names| :: Less(names[i], names[j])
  }

  function Insert(names: seq<string>, n: string): (r: seq<string>)
    ensures forall x :: x in r <==> x in names || x == n
  {
    if names == [] then [n]
    else if Less(n, names[0]) then [n] + names
    else
      assert forall x :: x in names <==> x == names[0] || x in names[1..];
      [names[0]] + Insert(names[1..], n)
  }

  function SortedNames(names: seq<string>): (r: seq<string>)
    ensures forall x :: x in r <==> x in names
  {
    if names == [] then []
    else
      assert forall x :: x in names <==> x == names[|names| - 1] || x in names[..|names| - 1];
      Insert(SortedNames(names[..|names| - 1]), names[|names| - 1])
  }

  lemma {:induction false} InsertAscending(names: seq<string>, n: string)
    requires Ascending(names) && n !in names
    ensures Ascending(Insert(names, n))
  {
    if names != [] {
      LessTrichotomy(n, names[0]);
      if Less(n, names[0]) {
        forall j | 1 <= j < |names| ensures Less(n, names[j]) {
          LessTransitive(n, names[0], names[j]);
        }
      } else {
        InsertAscending(names[1..], n);
        forall x | x in Insert(names[1..], n) ensures Less(names[0], x) {
        }
      }
    }
  }

  lemma {:induction false} SortedAscending(names: seq<string>)
    requires forall i, j | 0 <= i < j < |names| :: names[i] != names[j]
    ensures Ascending(SortedNames(names))
  {
    if names != [] {
      SortedAscending(names[..|names| - 1]);
      InsertAscending(SortedNames(names[..|names| - 1]), names[|names| - 1]);
    }
  }

  // The names of a config.

  predicate NamesUser(v: Value, n: string) {
    v.Obj? && n != "" && GetString(v.fields, "name") == n
  }

  ghost predicate NamedIn(users: seq<Value>, n: string) {
    exists u | u in users :: NamesUser(u, n)
  }

  lemma NamedInFirst(users: seq<Value>, n: string)
    requires users != []
    ensures NamedIn(users, n) <==> NamesUser(users[0], n) || NamedIn(users[1..], n)
  {
    assert forall x :: x in users <==> x == users[0] || x in users[1..];
  }

  /** Some user of some inbound has this nonempty name. */
  ghost predicate Named(root: Object, n: string) {
    exists v | v in GetInbounds(root) :: v.Obj? && NamedIn(GetInboundUsers(v.fields), n)
  }

  /** Each name once, in order of first appearance. */
  function NamesOf(users: seq<Value>, seen: seq<string>): (r: seq<string>)
    ensures forall n :: n in r <==> n in seen || NamedIn(users, n)
    decreases |users|
  {
    if users == [] then seen
    else
      var u := users[0];
      var name := if u.Obj? then GetString(u.fields, "name") else "";
      assert forall n :: NamedIn(users, n) <==> (n == name && n != "") || NamedIn(users[1..], n) by {
        forall n ensures NamedIn(users, n) <==> (n == name && n != "") || NamedIn(users[1..], n) { NamedInFirst(users, n); }
      }
      NamesOf(users[1..], if name == "" || name in seen then seen else seen + [name])
  }

  function NamesOfInbounds(inbounds: seq<Value>, seen: seq<string>): (r: seq<string>)
    requires forall v | v in inbounds :: v.Obj?
    ensures forall n :: n in r <==> n in seen || exists v | v in inbounds :: v.Obj? && NamedIn(GetInboundUsers(v.fields), n)
    decreases |inbounds|
  {
    if inbounds == [] then seen
    else
      assert forall x :: x in inbounds <==> x == inbounds[0] || x in inbounds[1..];
      NamesOfInbounds(inbounds[1..], NamesOf(GetInboundUsers(inbounds[0].fields), seen))
  }

  lemma {:induction false} NamesDistinct(users: seq<Value>, seen: seq<string>)
    requires Distinct(seen)
    ensures Distinct(NamesOf(users, seen))
    decreases |users|
  {
    if users != [] {
      var u := users[0];
      var name := if u.Obj? then GetString(u.fields, "name") else "";
      NamesDistinct(users[1..], if name == "" || name in seen then seen else seen + [name]);
    }
  }

  lemma {:induction false} AllNamesDistinct(inbounds: seq<Value>, seen: seq<string>)
    requires Distinct(seen) && forall v | v in inbounds :: v.Obj?
    ensures Distinct(NamesOfInbounds(inbounds, seen))
    decreases |inbounds|
  {
    if inbounds != [] {
      NamesDistinct(GetInboundUsers(inbounds[0].fields), seen);
      AllNamesDistinct(inbounds[1..], NamesOf(GetInboundUsers(inbounds[0].fields), seen));
    }
  }

  // The statistics section.

  function Child(m: Object, key: string): Option<Object> {
    if key in m && m[key].Obj? then Some(m[key].fields) else None
  }

  /** experimental.v2ray_api.stats, when all three are objects. */
  function Stats(root: Object): Option<Object> {
    match Child(root, "experimental")
    case None => None
    case Some(experimental) =>
      match Child(experimental, "v2ray_api")
      case None => None
      case Some(api) => Child(api, "stats")
  }

  function Strings(names: seq<string>): seq<Value> {
    seq(|names|, i requires 0 <= i < |names| => Str(names[i]))
  }

  function SyncStatsUsers(root: Object): Object {
    if Stats(root).None? then root
    else
      var experimental := root["experimental"].fields;
      var api := experimental["v2ray_api"].fields;
      var stats := Stats(root).value["users" := Arr(Strings(SortedNames(NamesOfInbounds(GetInbounds(root), []))))];
      root["experimental" := Obj(experimental["v2ray_api" := Obj(api["stats" := Obj(stats)])])]
  }

  /** The statistics list is strictly ascending and holds exactly the names in use. */
  ghost predicate StatsExact(root: Object) {
    Stats(root).Some? ==>
      && "users" in Stats(root).value && Stats(root).value["users"].Arr?
      && exists names :: Stats(root).value["users"].items == Strings(names) && Ascending(names)
                         && forall n :: n in names <==> Named(root, n)
  }

  /** Syncing makes the list exact and changes nothing else that is read. */
  lemma SyncMakesExact(root: Object)
    ensures StatsExact(SyncStatsUsers(root))
    ensures GetInbounds(SyncStatsUsers(root)) == GetInbounds(root)
    ensures Stats(SyncStatsUsers(root)).Some? <==> Stats(root).Some?
  {
    var synced := SyncStatsUsers(root);
    if Stats(root).Some? {
      var all := NamesOfInbounds(GetInbounds(root), []);
      AllNamesDistinct(GetInbounds(root), []);
      SortedAscending(all);
      assert Stats(synced).Some? && Stats(synced).value["users"] == Arr(Strings(SortedNames(all)));
      assert GetInbounds(synced) == GetInbounds(root);
      hide Stats, SyncStatsUsers, GetInbounds, NamesOfInbounds, SortedNames, Ascending;
      forall n ensures n in SortedNames(all) <==> Named(synced, n) {
      }
    }
  }

  /** Some user of some inbound has this nonempty name. */
  ghost predicate InUse(root: Object, n: string) {
    n != "" &&
    exists v | v in GetInbounds(root) :: exists u | u in GetInboundUsers(v.fields) :: u.Obj? && At(u.fields, "name") == Some(Str(n))
  }

  lemma NamedExactly(root: Object, n: string)
    ensures Named(root, n) <==> InUse(root, n)
  {
    hide GetInbounds, GetInboundUsers;
    forall users: seq<Value>
      ensures NamedIn(users, n) <==> n != "" && exists u | u in users :: u.Obj? && At(u.fields, "name") == Some(Str(n))
    {
      if u :| u in users && NamesUser(u, n) { assert At(u.fields, "name") == Some(Str(n)); }
      if u :| n != "" && u in users && u.Obj? && At(u.fields, "name") == Some(Str(n)) { assert NamesUser(u, n); }
    }
  }

  /** Of the whole config, only the list of users under experimental, v2ray_api and stats is
      written, and only if these are objects: with the names in use, in ascending order. */
  lemma SyncedExactly(root: Object)
    ensures match At(root, "experimental")
      case Some(Obj(e)) =>
        (match At(e, "v2ray_api")
         case Some(Obj(a)) =>
           (match At(a, "stats")
            case Some(Obj(s)) =>
              exists names ::
                && Ascending(names) && (forall n :: n in names <==> InUse(root, n))
                && SyncStatsUsers(root) ==
                   root["experimental" := Obj(e["v2ray_api" := Obj(a["stats" := Obj(s["users" := Arr(Strings(names))])])])]
            case _ => SyncStatsUsers(root) == root)
         case _ => SyncStatsUsers(root) == root)
      case _ => SyncStatsUsers(root) == root
  {
    var names := SortedNames(NamesOfInbounds(GetInbounds(root), []));
    AllNamesDistinct(GetInbounds(root), []);
    SortedAscending(NamesOfInbounds(GetInbounds(root), []));
    forall n ensures n in names <==> InUse(root, n) {
      NamedExactly(root, n);
    }
    hide GetInbounds, NamesOfInbounds, SortedNames, Ascending, InUse;
  }

  // The client.

  function LoadRootConfig(file: File): Result<Object, Error> {
    match file
    case None => Err(ReadConfig)
    case Some(Obj(m)) => Ok(if "inbounds" in m then m else m["inbounds" := Arr([])])
    case Some(_) => Err(ParseConfig)
  }

  /** The file and the error after a request. */
  function Served(file: File, r: Request): (File, Option<Error>) {
    match LoadRootConfig(file)
    case Err(e) => (file, Some(e))
    case Ok(root) =>
      match Edited(root, r)
      case Err(e) => (file, Some(e))
      case Ok(changed) => (Some(Obj(SyncStatsUsers(changed))), None)
  }

  /** A file that is missing or is no object is an error, and so is a request that is
      refused; all three keep the file. What is written is the edited config, which gets an
      empty list of inbounds if it has none, with its statistics brought up to date. */
  lemma ServedExactly(file: File, r: Request)
    ensures file == None ==> Served(file, r) == (file, Some(ReadConfig))
    ensures file.Some? && !file.value.Obj? ==> Served(file, r) == (file, Some(ParseConfig))
    ensures file.Some? && file.value.Obj? ==>
              var m := file.value.fields;
              var root := if "inbounds" in m then m else m["inbounds" := Arr([])];
              match Refusal(root, r)
              case Some(e) => Served(file, r) == (file, Some(e))
              case None => Edited(root, r).Ok? && Served(file, r) == (Some(Obj(SyncStatsUsers(Edited(root, r).value))), None)
  {
    hide Edited, Refusal, SyncStatsUsers;
    if file.Some? && file.value.Obj? {
      RefusedExactly(LoadRootConfig(file).value, r);
    }
  }

  /** After every successful request the statistics list is exact. */
  lemma ServedIsExact(file: File, r: Request)
    requires Served(file, r).1.None?
    ensures var after := Served(file, r).0; after.Some? && after.value.Obj? && StatsExact(after.value.fields)
    ensures GetUsers(Served(file, r).0.value.fields) == GetUsers(Edited(LoadRootConfig(file).value, r).value)
  {
    hide Edited, SyncStatsUsers, StatsExact;
    SyncMakesExact(Edited(LoadRootConfig(file).value, r).value);
  }
}
