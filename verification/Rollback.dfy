/** Steps of a plan on the view of a config: what running them and unwinding them
    does, and exactly when the second takes back the first. */
module Rollback {
  import opened Wrappers
  import opened Json
  import opened Models
  import opened ConfigManager
  import opened Plan
  import opened SyncView
  import opened ConfigShown

  // Two ways to look at a view; together they determine it.

  function ShellAt(v: View, tag: string): Option<Shell> {
    if tag in v then Some(v[tag].shell) else None
  }

  function UserAt(v: View, tag: string, subID: string): Option<Object> {
    if tag in v && subID in v[tag].users then Some(v[tag].users[subID]) else None
  }

  lemma ViewsEqual(a: View, b: View)
    requires forall t :: ShellAt(a, t) == ShellAt(b, t)
    requires forall t, s :: UserAt(a, t, s) == UserAt(b, t, s)
    ensures a == b
  {
    forall t ensures t in a <==> t in b
             ensures t in a ==> a[t] == b[t]
    {
      assert ShellAt(a, t) == ShellAt(b, t);
      if t in a {
        forall s ensures s in a[t].users <==> s in b[t].users
                 ensures s in a[t].users ==> a[t].users[s] == b[t].users[s]
        {
          assert UserAt(a, t, s) == UserAt(b, t, s);
        }
        assert a[t].users == b[t].users;
      }
    }
  }

  // Keys.

  predicate OnInbound(step: Step, tag: string) {
    step.InboundStep? && step.inbound.item.tag == tag
  }

  predicate OnUser(step: Step, subID: string) {
    step.UserStep? && step.user.item.subID == subID
  }

  predicate SameKey(a: Step, b: Step) {
    (a.InboundStep? && OnInbound(b, a.inbound.item.tag)) || (a.UserStep? && OnUser(b, a.user.item.subID))
  }

  ghost predicate DistinctKeys(steps: seq<Step>) {
    forall i, j | 0 <= i < j < |steps| :: !SameKey(steps[i], steps[j])
  }

  ghost predicate NoInbound(steps: seq<Step>, tag: string) {
    forall step | step in steps :: !OnInbound(step, tag)
  }

  ghost predicate NoUser(steps: seq<Step>, subID: string) {
    forall step | step in steps :: !OnUser(step, subID)
  }

  /** The previous item of a step has the key of its item. */
  predicate Keyed(step: Step) {
    match step
    case InboundStep(c) => c.previous.Some? ==> c.previous.value.tag == c.item.tag
    case UserStep(c) => c.previous.Some? ==> c.previous.value.subID == c.item.subID
  }

  // Running and unwinding.

  function Forward(view: View, step: Step, ids: set<string>): Option<View> {
    if ExecuteEdit(step).Ok? then EditView(view, ExecuteEdit(step).value, ids) else None
  }

  function Back(view: View, step: Step, ids: set<string>): Option<View> {
    if RollbackEdit(step).Ok? then EditView(view, RollbackEdit(step).value, ids) else None
  }

  datatype ViewRun = ViewRun(view: View, tried: nat, ok: bool)

  function RunView(view: View, steps: seq<Step>, ids: set<string>): (r: ViewRun)
    ensures r.tried <= |steps| && (r.ok ==> r.tried == |steps|) && (!r.ok ==> r.tried > 0)
    decreases |steps|
  {
    if steps == [] then ViewRun(view, 0, true)
    else
      match Forward(view, steps[0], ids)
      case None => ViewRun(view, 1, false)
      case Some(next) =>
        var r := RunView(next, steps[1..], ids);
        ViewRun(r.view, r.tried + 1, r.ok)
  }

  /** Where unwinding ends, and whether it got through. */
  function UnwindView(view: View, steps: seq<Step>, ids: set<string>): (View, bool)
    decreases |steps|
  {
    if steps == [] then (view, true)
    else
      var last := |steps| - 1;
      match Back(view, steps[last], ids)
      case None => (view, false)
      case Some(next) => UnwindView(next, steps[..last], ids)
  }

  /** Running the steps and unwinding those that were tried. */
  function Trip(view: View, steps: seq<Step>, ids: set<string>): (View, bool) {
    var r := RunView(view, steps, ids);
    UnwindView(r.view, steps[..r.tried], ids)
  }

  /** One step is taken back after what was unwound before it. */
  function TakenBack(p: (View, bool), step: Step, ids: set<string>): (View, bool) {
    if !p.1 then p
    else match Back(p.0, step, ids) case None => (p.0, false) case Some(next) => (next, true)
  }

  lemma {:induction false} UnwindViewCons(view: View, step: Step, rest: seq<Step>, ids: set<string>)
    ensures UnwindView(view, [step] + rest, ids) == TakenBack(UnwindView(view, rest, ids), step, ids)
    decreases |rest|
  {
    hide Back;
    if rest == [] {
      assert [step] + rest == [step];
      assert UnwindView(view, [step][..0], ids) == (view, true);
      if Back(view, step, ids).Some? {
        assert UnwindView(Back(view, step, ids).value, [step][..0], ids) == (Back(view, step, ids).value, true);
      }
    } else {
      var last := |rest| - 1;
      assert ([step] + rest)[..|rest|] == [step] + rest[..last];
      if Back(view, rest[last], ids).Some? {
        UnwindViewCons(Back(view, rest[last], ids).value, step, rest[..last], ids);
      }
    }
  }

  /** A trip from its first step. */
  lemma TripCons(view: View, steps: seq<Step>, ids: set<string>)
    requires steps != []
    ensures var next := Forward(view, steps[0], ids);
            Trip(view, steps, ids) ==
            TakenBack(if next.None? then (view, true) else Trip(next.value, steps[1..], ids), steps[0], ids)
  {
    hide Forward, Back, UnwindView;
    var r := RunView(view, steps, ids);
    match Forward(view, steps[0], ids)
    case None =>
      assert steps[..1] == [steps[0]] + [];
      UnwindViewCons(view, steps[0], [], ids);
      EmptyUnwind(view, ids);
    case Some(next) =>
      assert steps[..r.tried] == [steps[0]] + steps[1..][..r.tried - 1];
      UnwindViewCons(r.view, steps[0], steps[1..][..r.tried - 1], ids);
  }

  lemma EmptyUnwind(view: View, ids: set<string>)
    ensures UnwindView(view, [], ids) == (view, true)
  {
  }

  // When a step can be taken back.

  predicate StoredAs(view: View, u: User) {
    UserAt(view, u.inboundTag, u.subID) == Some(UserToMap(u))
  }

  /** What an added inbound brings along. */
  function Carried(ib: Inbound, ids: set<string>): map<string, Object> {
    UsersView(OptionUsers(ib), ids)
  }

  function OptionsOf(m: Object): Option<Object> {
    if "options" in m && m["options"].Obj? then Some(m["options"].fields) else None
  }

  /** Replacing an inbound by an item and then by the previous one gives it again: the
      previous settings and options are those stored, users among the options are not
      left behind by others, and an inbound without options has not been given any,
      since an empty options object would stay. */
  predicate Restores(body: Object, item: Inbound, prev: Inbound) {
    && body - {"options", "users"} == InboundToMap(prev) - {"options"}
    && match OptionsOf(body)
       case None => "options" !in body && item.options == map[] && prev.options == map[]
       case Some(o) =>
         && o - {"users"} == prev.options - {"users"}
         && At(o, "users") == if "users" in prev.options then At(prev.options, "users")
                              else if "users" in item.options then At(item.options, "users") else At(o, "users")
  }

  lemma RestoresExactly(body: Object, item: Inbound, prev: Inbound)
    ensures PreserveUsers(PreserveUsers(body, InboundToMap(item)), InboundToMap(prev)) == body <==> Restores(body, item, prev)
  {
    StoredReads(item);
    StoredReads(prev);
    var a, b := InboundToMap(item), InboundToMap(prev);
    hide InboundToMap;
    var mid := PreserveUsers(body, a);
    var back := PreserveUsers(mid, b);
    PreservedShape(body, a, item.options);
    PreservedShape(mid, b, prev.options);
    hide PreserveUsers;
    ByParts(back, body);
    if OptionsOf(back).Some? && OptionsOf(body).Some? {
      ByUsers(OptionsOf(back).value, OptionsOf(body).value);
    }
    assert WithUsers(prev.options, None) - {"users"} == prev.options - {"users"};
  }

  function WithUsers(options: Object, users: Option<Value>): Object {
    if "users" !in options && users.Some? then options["users" := users.value] else options
  }

  /** The parts of an inbound that has been replaced. */
  lemma PreservedShape(body: Object, target: Object, options: Object)
    requires "users" !in target && ("options" in target <==> options != map[])
    requires "options" in target ==> target["options"] == Obj(options)
    ensures var r, o := PreserveUsers(body, target), OptionsOf(body);
      && At(r, "users") == At(body, "users")
      && r - {"options", "users"} == target - {"options"}
      && OptionsOf(r) == (if o.Some? then Some(WithUsers(options, At(o.value, "users"))) else if options != map[] then Some(options) else None)
      && ("options" in r <==> OptionsOf(r).Some?)
    ensures forall users :: WithUsers(options, users) - {"users"} == options - {"users"}
  {
    forall users ensures WithUsers(options, users) - {"users"} == options - {"users"} {
    }
    var r := PreserveUsers(body, target);
    assert r - {"options", "users"} == target - {"options"};
  }

  lemma ByParts(a: Object, b: Object)
    ensures a == b <==> a - {"options", "users"} == b - {"options", "users"} && At(a, "users") == At(b, "users") && At(a, "options") == At(b, "options")
  {
    if a - {"options", "users"} == b - {"options", "users"} && At(a, "users") == At(b, "users") && At(a, "options") == At(b, "options") {
      forall key ensures key in a <==> key in b
                 ensures key in a ==> a[key] == b[key]
      {
        var c, d := a - {"options", "users"}, b - {"options", "users"};
        assert key != "options" && key != "users" ==> (key in a <==> key in c) && (key in b <==> key in d);
      }
    }
  }

  lemma ByUsers(a: Object, b: Object)
    ensures a == b <==> a - {"users"} == b - {"users"} && At(a, "users") == At(b, "users")
  {
    if a - {"users"} == b - {"users"} && At(a, "users") == At(b, "users") {
      forall key ensures key in a <==> key in b
                 ensures key in a ==> a[key] == b[key]
      {
        var c, d := a - {"users"}, b - {"users"};
        assert key != "users" ==> (key in a <==> key in c) && (key in b <==> key in d);
      }
    }
  }

  /** What the step recorded as previous is what is stored; a deleted inbound has
      no other users than its previous options carry. */
  predicate Faithful(step: Step, view: View, ids: set<string>) {
    match step
    case InboundStep(Change(Create, _, _)) => true
    case InboundStep(Change(Update, ib, Some(prev))) => prev.tag in view && Restores(view[prev.tag].shell.body, ib, prev)
    case InboundStep(Change(Delete, _, Some(prev))) =>
      prev.tag in view && view[prev.tag] == InboundView(NewShell(prev, ids), Carried(prev, ids))
    case UserStep(Change(Create, _, _)) => true
    case UserStep(Change(Update, u, Some(prev))) => StoredAs(view, prev) && (prev.inboundTag == u.inboundTag || StoredAs(view, u))
    case UserStep(Change(Delete, u, Some(prev))) => prev.inboundTag == u.inboundTag && StoredAs(view, prev)
    case _ => false
  }

  /** Rolling back a failing step does no harm: an update whose previous user is
      stored where it says, or a delete that puts its previous user into an inbound
      that this plan created and that goes with it. */
  predicate Harmless(step: Step, view: View, created: set<string>) {
    match step
    case UserStep(Change(Update, _, Some(prev))) => StoredAs(view, prev)
    case UserStep(Change(Delete, _, Some(prev))) => prev.inboundTag in created
    case _ => false
  }

  /** A step that succeeds is undone by its own rollback exactly when its
      previous item is faithful. */
  lemma RollbackUndoesStep(step: Step, view: View, ids: set<string>)
    requires Keyed(step) && Forward(view, step, ids).Some?
    ensures Back(Forward(view, step, ids).value, step, ids) == Some(view) <==> Faithful(step, view, ids)
  {
    hide NewShell, UsersView, UserToMap, PreserveUsers, InboundToMap, Restores;
    var next := Forward(view, step, ids).value;
    LikeNothing(next);
    if step.InboundStep? {
      InboundBack(step, view, next, next, {}, ids);
    } else {
      UserBack(step, view, next, next, {}, ids);
    }
    if Back(next, step, ids).Some? {
      LikeIsEqual(Back(next, step, ids).value, view);
    }
    hide Back, Faithful, Forward, Like;
    assert Creating(step, {}) == {} || Like(Creating(step, {}), next, next);
  }

  /** A failing step is rolled back too. That changes nothing exactly for a user
      update whose previous user is stored where it says: every other failing
      step makes its rollback fail or changes the config. */
  lemma FailingStepRollback(step: Step, view: View, ids: set<string>)
    requires Keyed(step) && Forward(view, step, ids).None?
    ensures Back(view, step, ids) == Some(view) <==> Harmless(step, view, {})
  {
    FailedBack(step, view, {}, ids);
    if Back(view, step, ids).Some? {
      LikeIsEqual(Back(view, step, ids).value, view);
    }
    LikeNothing(view);
  }

  // Views that agree up to the users of some inbounds.

  ghost predicate Like(created: set<string>, a: View, b: View) {
    a.Keys == b.Keys && forall t | t in a :: a[t].shell == b[t].shell && (t in created || a[t].users == b[t].users)
  }

  lemma LikeNothing(a: View)
    ensures forall created :: Like(created, a, a)
  {
  }

  lemma LikeIsEqual(a: View, b: View)
    ensures Like({}, a, b) <==> a == b
  {
    if Like({}, a, b) {
      assert forall t | t in a :: a[t] == b[t];
    }
  }

  /** The inbounds created so far, after this step. */
  function Creating(step: Step, created: set<string>): set<string> {
    if step.InboundStep? && step.inbound.kind.Create? then created + {step.inbound.item.tag} else created
  }

  /** Taking an inbound step back from `m`, which keeps what the step stored. */
  lemma InboundBack(step: Step, view: View, next: View, m: View, created: set<string>, ids: set<string>)
    requires step.InboundStep? && Keyed(step) && Forward(view, step, ids) == Some(next)
    requires var tag := step.inbound.item.tag; tag !in created && ShellAt(m, tag) == ShellAt(next, tag)
    ensures Back(m, step, ids).Some? && Like(created, Back(m, step, ids).value, view) <==>
            Faithful(step, view, ids) && Like(Creating(step, created), m, next)
  {
    hide NewShell, UsersView, UserToMap, PreserveUsers, InboundToMap, Restores;
    var tag := step.inbound.item.tag;
    if step.inbound.kind.Update? && step.inbound.previous.Some? {
      RestoresExactly(view[tag].shell.body, step.inbound.item, step.inbound.previous.value);
    }
    assert forall t | t != tag :: (t in next <==> t in view) && (t in view ==> next[t] == view[t]);
    if Back(m, step, ids).Some? {
      var back := Back(m, step, ids).value;
      assert forall t | t != tag :: (t in back <==> t in m) && (t in m ==> back[t] == m[t]);
      LikeOneApart(back, view, m, next, tag, created);
    }
  }

  /** Views that differ in one inbound only are alike when they are alike there. */
  lemma LikeOneApart(back: View, view: View, m: View, next: View, tag: string, created: set<string>)
    requires tag !in created
    requires forall t | t != tag :: (t in next <==> t in view) && (t in view ==> next[t] == view[t])
    requires forall t | t != tag :: (t in back <==> t in m) && (t in m ==> back[t] == m[t])
    ensures forall other | other == created || other == created + {tag} ::
              Like(other, m, next) <==> LikeBut(tag, created, back, view) && LikeAt(tag, other, m, next)
    ensures Like(created, back, view) <==> LikeBut(tag, created, back, view) && LikeAt(tag, created, back, view)
  {
    assert forall t | t != tag :: LikeAt(t, created, m, next) == LikeAt(t, created, back, view);
    assert forall t | t != tag :: LikeAt(t, created + {tag}, m, next) == LikeAt(t, created, back, view);
    LikeEverywhere(created, m, next);
    LikeEverywhere(created + {tag}, m, next);
    LikeEverywhere(created, back, view);
  }

  predicate LikeAt(t: string, created: set<string>, a: View, b: View) {
    (t in a <==> t in b) && (t in a ==> t in b && a[t].shell == b[t].shell && (t in created || a[t].users == b[t].users))
  }

  lemma LikeEverywhere(created: set<string>, a: View, b: View)
    ensures Like(created, a, b) <==> forall t :: LikeAt(t, created, a, b)
  {
    if forall t :: LikeAt(t, created, a, b) {
      forall t ensures t in a <==> t in b { assert LikeAt(t, created, a, b); }
      assert a.Keys == b.Keys;
      forall t | t in a ensures a[t].shell == b[t].shell && (t in created || a[t].users == b[t].users) {
        assert LikeAt(t, created, a, b);
      }
    }
  }

  ghost predicate LikeBut(tag: string, created: set<string>, a: View, b: View) {
    forall t | t != tag :: LikeAt(t, created, a, b)
  }

  /** Likewise a user step: elsewhere its user is as it was or gone, and as it was
      where users are not compared. */
  ghost predicate Unforged(step: Step, view: View, next: View, m: View, created: set<string>) {
    step.UserStep? &&
    var s := step.user.item.subID;
    && (forall t | t in created :: t in view && s !in view[t].users && UserAt(m, t, s) == UserAt(next, t, s))
    && (InPlace(step) || forall t :: UserAt(m, t, s) == UserAt(next, t, s) || UserAt(m, t, s) == None)
  }

  /** A delete whose previous user is in the inbound it is deleted from. */
  predicate InPlace(step: Step) {
    step.UserStep? && step.user.kind.Delete? && step.user.previous.Some? &&
    step.user.previous.value.inboundTag == step.user.item.inboundTag
  }

  lemma UserBack(step: Step, view: View, next: View, m: View, created: set<string>, ids: set<string>)
    requires Keyed(step) && Forward(view, step, ids) == Some(next) && Unforged(step, view, next, m, created)
    ensures Back(m, step, ids).Some? && Like(created, Back(m, step, ids).value, view) <==>
            Faithful(step, view, ids) && Like(created, m, next)
  {
    match step.user.kind
    case Create => CreateBack(step, view, next, m, created, ids);
    case Update =>
      if step.user.previous.Some? { UpdateBack(step, view, next, m, created, ids); }
    case Delete =>
      if step.user.previous.Some? { DeleteBack(step, view, next, m, created, ids); }
    case _ =>
  }

  lemma CreateBack(step: Step, view: View, next: View, m: View, created: set<string>, ids: set<string>)
    requires Keyed(step) && Forward(view, step, ids) == Some(next) && Unforged(step, view, next, m, created)
    requires step.user.kind.Create?
    ensures Back(m, step, ids).Some? && Like(created, Back(m, step, ids).value, view) <==> Like(created, m, next)
  {
    hide NewShell, UsersView, UserToMap, PreserveUsers, InboundToMap, Restores;
    var u := step.user.item;
    var a, s := u.inboundTag, u.subID;
    assert UserAt(next, a, s) == Some(UserToMap(u)) && next[a].users - {s} == view[a].users;
    if Back(m, step, ids).Some? {
      var back := Back(m, step, ids).value;
      assert UserAt(m, a, s) == Some(UserToMap(u));
      assert m[a].users == back[a].users[s := UserToMap(u)];
    }
  }

  lemma UpdateBack(step: Step, view: View, next: View, m: View, created: set<string>, ids: set<string>)
    requires Keyed(step) && Forward(view, step, ids) == Some(next) && Unforged(step, view, next, m, created)
    requires step.user.kind.Update? && step.user.previous.Some?
    ensures Back(m, step, ids).Some? && Like(created, Back(m, step, ids).value, view) <==>
            Faithful(step, view, ids) && Like(created, m, next)
  {
    hide Back, Like, Faithful;
    if Back(m, step, ids).Some? && Like(created, Back(m, step, ids).value, view) {
      UpdateBackOnly(step, view, next, m, created, ids);
    }
    if Faithful(step, view, ids) && Like(created, m, next) {
      UpdateBackIf(step, view, next, m, created, ids);
    }
  }

  lemma UpdateForward(step: Step, view: View, ids: set<string>)
    requires step.UserStep? && step.user.kind.Update?
    ensures var u := step.user.item;
      Forward(view, step, ids) ==
      if u.inboundTag in view && u.subID in view[u.inboundTag].users
      then Some(view[u.inboundTag := view[u.inboundTag].(users := view[u.inboundTag].users[u.subID := UserToMap(u)])]) else None
  {
    hide NewShell, UsersView, UserToMap, PreserveUsers, InboundToMap;
  }

  lemma UpdateBackward(step: Step, view: View, ids: set<string>)
    requires step.UserStep? && step.user.kind.Update? && step.user.previous.Some?
    ensures var u := step.user.previous.value;
      Back(view, step, ids) ==
      if u.inboundTag in view && u.subID in view[u.inboundTag].users
      then Some(view[u.inboundTag := view[u.inboundTag].(users := view[u.inboundTag].users[u.subID := UserToMap(u)])]) else None
  {
    hide NewShell, UsersView, UserToMap, PreserveUsers, InboundToMap;
  }

  lemma UpdateBackOnly(step: Step, view: View, next: View, m: View, created: set<string>, ids: set<string>)
    requires Keyed(step) && Forward(view, step, ids) == Some(next) && Unforged(step, view, next, m, created)
    requires step.user.kind.Update? && step.user.previous.Some?
    requires Back(m, step, ids).Some? && Like(created, Back(m, step, ids).value, view)
    ensures Faithful(step, view, ids) && Like(created, m, next)
  {
    hide NewShell, UsersView, UserToMap, PreserveUsers, InboundToMap, Restores;
    var u, prev := step.user.item, step.user.previous.value;
    var a, b, s := u.inboundTag, prev.inboundTag, u.subID;
    var back := Back(m, step, ids).value;
    hide Forward, Back, EditView;
    UpdateForward(step, view, ids);
    UpdateBackward(step, m, ids);
    assert a !in created && UserAt(next, a, s) == Some(UserToMap(u));
    assert UserAt(m, b, s) == UserAt(next, b, s) && b !in created;
    assert UserAt(back, b, s) == Some(UserToMap(prev)) && StoredAs(view, prev);
    if a != b {
      assert back[a] == m[a] && UserAt(view, a, s) == UserAt(m, a, s) == Some(UserToMap(u));
      assert m[b].users[s := UserToMap(prev)] == m[b].users;
      assert view[a].users[s := UserToMap(u)] == view[a].users;
    } else {
      assert m[a].users == back[a].users[s := UserToMap(u)];
    }
  }

  lemma UpdateBackIf(step: Step, view: View, next: View, m: View, created: set<string>, ids: set<string>)
    requires Keyed(step) && Forward(view, step, ids) == Some(next) && Unforged(step, view, next, m, created)
    requires step.user.kind.Update? && step.user.previous.Some?
    requires Faithful(step, view, ids) && Like(created, m, next)
    ensures Back(m, step, ids).Some? && Like(created, Back(m, step, ids).value, view)
  {
    hide NewShell, UsersView, UserToMap, PreserveUsers, InboundToMap, Restores;
    var u, prev := step.user.item, step.user.previous.value;
    var a, b, s := u.inboundTag, prev.inboundTag, u.subID;
    hide Forward, Back, EditView;
    UpdateForward(step, view, ids);
    UpdateBackward(step, m, ids);
    assert b !in created && UserAt(next, b, s).Some? && m[b].users == next[b].users;
    if a != b {
      assert view[a].users[s := UserToMap(u)] == view[a].users && view[b].users[s := UserToMap(prev)] == view[b].users;
    } else {
      assert view[a].users[s := UserToMap(u)][s := UserToMap(prev)] == view[a].users;
    }
  }

  lemma DeleteBack(step: Step, view: View, next: View, m: View, created: set<string>, ids: set<string>)
    requires Keyed(step) && Forward(view, step, ids) == Some(next) && Unforged(step, view, next, m, created)
    requires step.user.kind.Delete? && step.user.previous.Some?
    ensures Back(m, step, ids).Some? && Like(created, Back(m, step, ids).value, view) <==>
            Faithful(step, view, ids) && Like(created, m, next)
  {
    hide NewShell, UsersView, UserToMap, PreserveUsers, InboundToMap, Restores;
    var u, prev := step.user.item, step.user.previous.value;
    var a, b, s := u.inboundTag, prev.inboundTag, u.subID;
    assert a !in created && s in view[a].users && UserAt(next, a, s) == None;
    if Back(m, step, ids).Some? && Like(created, Back(m, step, ids).value, view) {
      var back := Back(m, step, ids).value;
      assert UserAt(view, a, s) == Some(UserToMap(prev));
      assert m[a].users == back[a].users - {s};
    }
    if Faithful(step, view, ids) && Like(created, m, next) {
      assert (view[a].users - {s})[s := UserToMap(prev)] == view[a].users;
    }
  }

  lemma FailedBack(step: Step, view: View, created: set<string>, ids: set<string>)
    requires Keyed(step) && Forward(view, step, ids).None?
    requires forall t | t in created :: t in view && !OnInbound(step, t) && forall s | s in view[t].users :: !OnUser(step, s)
    ensures Back(view, step, ids).Some? && Like(created, Back(view, step, ids).value, view) <==> Harmless(step, view, created)
  {
    hide NewShell, UsersView, UserToMap, PreserveUsers, InboundToMap, Restores;
    if step.UserStep? && step.user.kind.Update? && step.user.previous.Some? && Back(view, step, ids).Some? {
      var prev := step.user.previous.value;
      var users := view[prev.inboundTag].users;
      assert users[prev.subID := UserToMap(prev)] == users <==> users[prev.subID] == UserToMap(prev);
    } else if step.UserStep? && Back(view, step, ids).Some? {
      var back := Back(view, step, ids).value;
      var tag := if step.user.kind.Create? then step.user.item.inboundTag else step.user.previous.value.inboundTag;
      assert step.user.item.subID in back[tag].users <==> step.user.item.subID !in view[tag].users;
    } else if Back(view, step, ids).Some? {
      assert step.inbound.item.tag in Back(view, step, ids).value <==> step.inbound.item.tag !in view;
    }
  }

  // What a trip cannot touch.

  /** No deleted inbound brings this user back with its options. */
  ghost predicate NotCarried(steps: seq<Step>, subID: string, ids: set<string>) {
    forall step | step in steps :: !CarriesBack(step, subID, ids)
  }

  predicate CarriesBack(step: Step, subID: string, ids: set<string>) {
    step.InboundStep? && step.inbound.kind.Delete? && step.inbound.previous.Some? &&
    subID in Carried(step.inbound.previous.value, ids)
  }

  /** Bodies stay where no step names the tag; users stay where no step names tag or
      SubID, and can only be lost where no step names or carries them. */
  ghost predicate Local(steps: seq<Step>, x: View, y: View, ids: set<string>) {
    && (forall t | NoInbound(steps, t) :: ShellAt(y, t) == ShellAt(x, t))
    && (forall t, s | NoInbound(steps, t) && NoUser(steps, s) :: UserAt(y, t, s) == UserAt(x, t, s))
    && (forall t, s | NoUser(steps, s) && NotCarried(steps, s, ids) :: UserAt(y, t, s) == UserAt(x, t, s) || UserAt(y, t, s) == None)
  }

  ghost predicate LocalStep(step: Step, x: View, y: View, ids: set<string>) {
    && (forall t | !OnInbound(step, t) :: ShellAt(y, t) == ShellAt(x, t))
    && (forall t, s | !OnInbound(step, t) && !OnUser(step, s) :: UserAt(y, t, s) == UserAt(x, t, s))
    && (forall t, s | !OnUser(step, s) && !CarriesBack(step, s, ids) :: UserAt(y, t, s) == UserAt(x, t, s) || UserAt(y, t, s) == None)
  }

  /** A created inbound does not bring users along. */
  predicate ComesEmpty(step: Step, ids: set<string>) {
    step.InboundStep? && step.inbound.kind.Create? ==> Carried(step.inbound.item, ids) == map[]
  }

  lemma ForwardLocal(step: Step, x: View, y: View, ids: set<string>)
    requires Forward(x, step, ids) == Some(y) && ComesEmpty(step, ids)
    ensures LocalStep(step, x, y, ids)
  {
    hide NewShell, UsersView, OptionUsers, UserToMap, PreserveUsers, InboundToMap, Restores;
    var tag := if step.InboundStep? then step.inbound.item.tag else step.user.item.inboundTag;
    OthersStay(step, x, y, tag);
  }

  /** An edit under one tag, that there leaves users as they were or takes them away. */
  lemma OthersStay(step: Step, x: View, y: View, tag: string)
    requires tag == if step.InboundStep? then step.inbound.item.tag else step.user.item.inboundTag
    requires forall t | t != tag :: (t in y <==> t in x) && (t in x ==> y[t] == x[t])
    requires step.UserStep? ==> ShellAt(y, tag) == ShellAt(x, tag)
    requires forall s | !OnUser(step, s) :: UserAt(y, tag, s) == UserAt(x, tag, s) || (step.InboundStep? && UserAt(y, tag, s) == None)
    ensures forall ids :: LocalStep(step, x, y, ids)
  {
    assert forall t | t != tag :: ShellAt(y, t) == ShellAt(x, t);
    assert forall t, s | t != tag :: UserAt(y, t, s) == UserAt(x, t, s);
    hide ShellAt, UserAt, CarriesBack;
  }

  lemma BackLocal(step: Step, x: View, y: View, ids: set<string>)
    requires Keyed(step) && Back(x, step, ids) == Some(y)
    ensures LocalStep(step, x, y, ids)
  {
    hide NewShell, UserToMap, PreserveUsers, InboundToMap;
  }

  /** A trip that gets through is local to its steps. */
  lemma {:induction false} TripLocal(view: View, steps: seq<Step>, ids: set<string>)
    requires forall step | step in steps :: Keyed(step) && ComesEmpty(step, ids)
    requires Trip(view, steps, ids).1
    ensures Local(steps, view, Trip(view, steps, ids).0, ids)
    decreases |steps|
  {
    hide Forward, Back, Keyed, ComesEmpty, LocalStep, Local;
    var z := Trip(view, steps, ids).0;
    if steps == [] {
      EmptyTrip(view, ids);
      LocalNothing(view, ids);
    } else {
      TripCons(view, steps, ids);
      var step, rest := steps[0], steps[1..];
      hide Trip;
      match Forward(view, step, ids)
      case None =>
        LocalNothing(view, ids);
        BackLocal(step, view, z, ids);
        LocalEnds(steps, view, view, view, z, ids);
      case Some(next) =>
        var m := Trip(next, rest, ids).0;
        ForwardLocal(step, view, next, ids);
        TripLocal(next, rest, ids);
        BackLocal(step, m, z, ids);
        LocalEnds(steps, view, next, m, z, ids);
    }
  }

  lemma EmptyTrip(view: View, ids: set<string>)
    ensures Trip(view, [], ids) == (view, true)
  {
  }

  lemma LocalNothing(view: View, ids: set<string>)
    ensures (forall steps :: Local(steps, view, view, ids)) && (forall step :: LocalStep(step, view, view, ids))
  {
  }

  /** A step, what comes between, and the step taken back. */
  lemma LocalEnds(steps: seq<Step>, x: View, y: View, m: View, z: View, ids: set<string>)
    requires steps != []
    requires LocalStep(steps[0], x, y, ids) && Local(steps[1..], y, m, ids) && LocalStep(steps[0], m, z, ids)
    ensures Local(steps, x, z, ids)
  {
    hide OnInbound, OnUser, CarriesBack, ShellAt, UserAt;
    assert steps == [steps[0]] + steps[1..];
    assert forall step | step in steps[1..] :: step in steps;
  }

  // When a whole run can be taken back.

  /** Along the run, every step that succeeds is faithful and one that fails is harmless. */
  predicate FaithfulRun(view: View, steps: seq<Step>, created: set<string>, ids: set<string>)
    decreases |steps|
  {
    steps == [] ||
    match Forward(view, steps[0], ids)
    case None => Harmless(steps[0], view, created)
    case Some(next) => Faithful(steps[0], view, ids) && FaithfulRun(next, steps[1..], Creating(steps[0], created), ids)
  }

  /** Along the run, no inbound deleted later carries a user that a step has put
      somewhere. */
  ghost predicate ApartRun(view: View, steps: seq<Step>, ids: set<string>)
    decreases |steps|
  {
    steps == [] || Forward(view, steps[0], ids).None? ||
    (Apart(steps[0], steps[1..], ids) && ApartRun(Forward(view, steps[0], ids).value, steps[1..], ids))
  }

  ghost predicate Apart(step: Step, rest: seq<Step>, ids: set<string>) {
    step.InboundStep? || InPlace(step) || NotCarried(rest, step.user.item.subID, ids)
  }

  /** The inbounds created so far hold only users of earlier steps. */
  ghost predicate Fresh(created: set<string>, view: View, steps: seq<Step>) {
    forall t | t in created :: t in view && NoInbound(steps, t) && forall s | s in view[t].users :: NoUser(steps, s)
  }

  ghost predicate Plannable(steps: seq<Step>, ids: set<string>) {
    DistinctKeys(steps) && forall step | step in steps :: Keyed(step) && ComesEmpty(step, ids)
  }

  /** Running and unwinding leads back, up to the users of inbounds created before,
      exactly when the run is faithful. */
  lemma {:induction false} RunUnwindsExactly(view: View, steps: seq<Step>, created: set<string>, ids: set<string>)
    requires Plannable(steps, ids) && Fresh(created, view, steps) && ApartRun(view, steps, ids)
    ensures FaithfulRun(view, steps, created, ids) <==>
            Trip(view, steps, ids).1 && Like(created, Trip(view, steps, ids).0, view)
    decreases |steps|
  {
    hide Forward, Back, Faithful, Harmless, Like, Keyed, ComesEmpty;
    if steps == [] {
      EmptyTrip(view, ids);
      LikeNothing(view);
    } else {
      var step, rest := steps[0], steps[1..];
      assert steps == [step] + rest;
      TripCons(view, steps, ids);
      hide Trip;
      match Forward(view, step, ids)
      case None =>
        hide FaithfulRun;
        FailedStep(view, steps, created, ids);
      case Some(next) =>
        FreshAfter(view, steps, created, next, ids);
        RestPlannable(steps, ids);
        RunUnwindsExactly(next, rest, Creating(step, created), ids);
        hide FaithfulRun;
        if Trip(next, rest, ids).1 {
          TripLocal(next, rest, ids);
          SucceededStep(view, steps, created, next, Trip(next, rest, ids).0, ids);
        }
    }
  }

  lemma RestPlannable(steps: seq<Step>, ids: set<string>)
    requires Plannable(steps, ids) && steps != []
    ensures Plannable(steps[1..], ids) && Keyed(steps[0]) && ComesEmpty(steps[0], ids)
    ensures forall t | OnInbound(steps[0], t) :: NoInbound(steps[1..], t)
    ensures forall s | OnUser(steps[0], s) :: NoUser(steps[1..], s)
  {
    hide Keyed, ComesEmpty;
    var rest := steps[1..];
    assert forall step | step in rest :: step in steps;
    assert forall i | 0 <= i < |rest| :: rest[i] == steps[i + 1] && !SameKey(steps[0], steps[i + 1]);
  }

  lemma FreshAfter(view: View, steps: seq<Step>, created: set<string>, next: View, ids: set<string>)
    requires Plannable(steps, ids) && steps != [] && Fresh(created, view, steps) && Forward(view, steps[0], ids) == Some(next)
    ensures Fresh(Creating(steps[0], created), next, steps[1..])
  {
    var step, rest := steps[0], steps[1..];
    assert steps == [step] + rest;
    RestPlannable(steps, ids);
    hide Carried, NewShell, Plannable;
    forall t | t in Creating(step, created)
      ensures t in next && NoInbound(rest, t) && forall s | s in next[t].users :: NoUser(rest, s)
    {
      if t in created {
        assert !OnInbound(step, t) && t in next;
        forall s | s in next[t].users ensures NoUser(rest, s) {
          assert OnUser(step, s) || s in view[t].users;
        }
      } else {
        assert OnInbound(step, t) && next[t].users == map[];
      }
    }
  }

  lemma FailedStep(view: View, steps: seq<Step>, created: set<string>, ids: set<string>)
    requires Plannable(steps, ids) && steps != [] && Fresh(created, view, steps) && Forward(view, steps[0], ids).None?
    ensures Back(view, steps[0], ids).Some? && Like(created, Back(view, steps[0], ids).value, view) <==>
            Harmless(steps[0], view, created)
  {
    assert steps[0] in steps;
    hide Forward, Back, Like, Harmless;
    FailedBack(steps[0], view, created, ids);
  }

  lemma SucceededStep(view: View, steps: seq<Step>, created: set<string>, next: View, m: View, ids: set<string>)
    requires Plannable(steps, ids) && steps != [] && Fresh(created, view, steps) && Forward(view, steps[0], ids) == Some(next)
    requires Local(steps[1..], next, m, ids) && Apart(steps[0], steps[1..], ids)
    ensures Back(m, steps[0], ids).Some? && Like(created, Back(m, steps[0], ids).value, view) <==>
            Faithful(steps[0], view, ids) && Like(Creating(steps[0], created), m, next)
  {
    var step, rest := steps[0], steps[1..];
    assert step in steps && forall r | r in rest :: r in steps;
    RestPlannable(steps, ids);
    hide Forward, Back, Like, Faithful, Plannable, ShellAt, UserAt;
    if step.InboundStep? {
      assert OnInbound(step, step.inbound.item.tag);
      InboundBack(step, view, next, m, created, ids);
    } else {
      var s := step.user.item.subID;
      assert OnUser(step, s);
      UserBack(step, view, next, m, created, ids);
    }
  }

  /** No inbound carries users, so steps are apart. */
  lemma {:induction false} NothingCarried(view: View, steps: seq<Step>, ids: set<string>)
    requires forall step | step in steps && step.InboundStep? && step.inbound.previous.Some? ::
               "users" !in step.inbound.previous.value.options
    ensures ApartRun(view, steps, ids)
    decreases |steps|
  {
    if steps != [] {
      assert steps == [steps[0]] + steps[1..];
      assert forall s, step | step in steps[1..] :: !CarriesBack(step, s, ids);
      if Forward(view, steps[0], ids).Some? {
        NothingCarried(Forward(view, steps[0], ids).value, steps[1..], ids);
      }
    }
  }

  // What a plan does to the file.

  /** The file holds a sound config with the given view. */
  ghost predicate Shows(file: File, scope: Scope, view: View) {
    file.Some? && file.value.Obj? && Sound(file.value.fields, scope) && ViewConfig(file.value.fields, scope.ids) == view
  }

  /** A step whose edits keep SubIDs unambiguous. */
  ghost predicate CleanStep(step: Step, scope: Scope) {
    && (ExecuteEdit(step).Ok? ==> Clean(ExecuteEdit(step).value, scope))
    && (RollbackEdit(step).Ok? ==> Clean(RollbackEdit(step).value, scope))
  }

  /** Trying an edit on a shown view. */
  lemma TriedShows(file: File, scope: Scope, view: View, edit: Result<Edit, Error>)
    requires Shows(file, scope, view) && (edit.Ok? ==> Clean(edit.value, scope)) && "" !in scope.ids
    ensures var (next, err) := Tried(true, file, edit);
            var after := if edit.Ok? then EditView(view, edit.value, scope.ids) else None;
      && (err.None? <==> after.Some?)
      && Shows(next, scope, if err.None? then after.value else view)
  {
    hide Sound, ViewConfig, Clean, EditView, Edited;
    if edit.Ok? {
      EditSimulated(file.value.fields, scope, edit.value);
    }
  }

  /** Running steps on the file is running them on its view. */
  lemma {:induction false} RunShows(file: File, scope: Scope, view: View, steps: seq<Step>)
    requires Shows(file, scope, view) && "" !in scope.ids
    requires forall step | step in steps :: CleanStep(step, scope)
    ensures var p, r := Run(true, steps, file), RunView(view, steps, scope.ids);
      p.tried == r.tried && p.err.None? == r.ok && Shows(p.file, scope, r.view)
    decreases |steps|
  {
    hide Shows, Clean, Tried, EditView, ExecuteEdit, RollbackEdit;
    if steps != [] {
      assert CleanStep(steps[0], scope);
      TriedShows(file, scope, view, ExecuteEdit(steps[0]));
      assert Tried(true, file, ExecuteEdit(steps[0])).1.None? <==> Forward(view, steps[0], scope.ids).Some?;
      if Forward(view, steps[0], scope.ids).Some? {
        RunShows(Tried(true, file, ExecuteEdit(steps[0])).0, scope, Forward(view, steps[0], scope.ids).value, steps[1..]);
      }
    }
  }

  lemma {:induction false} UnwindShows(file: File, scope: Scope, view: View, steps: seq<Step>)
    requires Shows(file, scope, view) && "" !in scope.ids
    requires forall step | step in steps :: CleanStep(step, scope)
    ensures var (back, err) := Unwind(true, steps, file);
      err.None? == UnwindView(view, steps, scope.ids).1 && Shows(back, scope, UnwindView(view, steps, scope.ids).0)
    decreases |steps|
  {
    hide Shows, Clean, Tried, EditView, ExecuteEdit, RollbackEdit;
    if steps != [] {
      var last := |steps| - 1;
      assert CleanStep(steps[last], scope);
      TriedShows(file, scope, view, RollbackEdit(steps[last]));
      assert Tried(true, file, RollbackEdit(steps[last])).1.None? <==> Back(view, steps[last], scope.ids).Some?;
      if Back(view, steps[last], scope.ids).Some? {
        UnwindShows(Tried(true, file, RollbackEdit(steps[last])).0, scope, Back(view, steps[last], scope.ids).value, steps[..last]);
      }
    }
  }

  predicate RollbackFailed(outcome: Outcome) {
    outcome.StepAndRollbackFailed? || outcome.ReloadAndRollbackFailed?
  }

  /** What Execute does to the file, read off the run on the view. */
  lemma PlanShows(file: File, scope: Scope, view: View, steps: seq<Step>, reload: bool, again: bool)
    requires Shows(file, scope, view) && "" !in scope.ids
    requires forall step | step in steps :: CleanStep(step, scope)
    ensures var (after, outcome) := Executed(true, steps, file, reload, again);
            var r, trip := RunView(view, steps, scope.ids), Trip(view, steps, scope.ids);
      && (outcome.Applied? <==> r.ok && (reload || steps == []))
      && (outcome.StepFailed? || outcome.StepAndRollbackFailed? <==> !r.ok)
      && (outcome.Applied? ==> Shows(after, scope, r.view))
      && (!outcome.Applied? ==> Shows(after, scope, trip.0) && (RollbackFailed(outcome) <==> !trip.1))
  {
    hide CleanStep, Shows, Run, Unwind, RunView, UnwindView, Tried;
    var r := RunView(view, steps, scope.ids);
    RunShows(file, scope, view, steps);
    var p := Run(true, steps, file);
    assert r.ok ==> steps[..r.tried] == steps;
    UnwindShows(p.file, scope, r.view, steps[..r.tried]);
    var unwound := Unwind(true, steps[..r.tried], p.file);
    var outcome := Executed(true, steps, file, reload, again).1;
    assert !outcome.Applied? ==> (RollbackFailed(outcome) <==> unwound.1.Some?);
  }

  /** Both files hold configs that agree outside of their inbounds. */
  predicate OutsideKept(before: File, after: File) {
    before.Some? && before.value.Obj? && after.Some? && after.value.Obj? && SameOutside(after.value.fields, before.value.fields)
  }

  lemma OutsideAlong(a: File, b: File, c: File)
    requires OutsideKept(a, b) && OutsideKept(b, c)
    ensures OutsideKept(a, c)
  {
    hide Strays;
  }

  lemma TriedOutside(managed: bool, file: File, edit: Result<Edit, Error>)
    requires file.Some? && file.value.Obj?
    ensures OutsideKept(file, Tried(managed, file, edit).0)
  {
    hide Edited, SameOutside;
    if edit.Ok? && Edited(file.value.fields, edit.value).Ok? {
      EditInside(file.value.fields, edit.value);
    }
    SameAsItself(file.value.fields);
  }

  lemma SameAsItself(cfg: Object)
    ensures SameOutside(cfg, cfg)
  {
  }

  lemma {:induction false} RunOutside(managed: bool, steps: seq<Step>, file: File)
    requires file.Some? && file.value.Obj?
    ensures OutsideKept(file, Run(managed, steps, file).file)
    decreases |steps|
  {
    hide Tried, OutsideKept, SameOutside;
    SameFile(file);
    if steps != [] {
      var next := Tried(managed, file, ExecuteEdit(steps[0])).0;
      TriedOutside(managed, file, ExecuteEdit(steps[0]));
      KeptIsObject(file, next);
      RunOutside(managed, steps[1..], next);
      OutsideAlong(file, next, Run(managed, steps[1..], next).file);
    }
  }

  lemma SameFile(file: File)
    requires file.Some? && file.value.Obj?
    ensures OutsideKept(file, file)
  {
    SameAsItself(file.value.fields);
  }

  lemma KeptIsObject(before: File, after: File)
    requires OutsideKept(before, after)
    ensures after.Some? && after.value.Obj?
  {
  }

  lemma {:induction false} UnwindOutside(managed: bool, steps: seq<Step>, file: File)
    requires file.Some? && file.value.Obj?
    ensures OutsideKept(file, Unwind(managed, steps, file).0)
    decreases |steps|
  {
    hide Tried, OutsideKept, SameOutside;
    SameFile(file);
    if steps != [] {
      var last := |steps| - 1;
      var next := Tried(managed, file, RollbackEdit(steps[last])).0;
      TriedOutside(managed, file, RollbackEdit(steps[last]));
      KeptIsObject(file, next);
      UnwindOutside(managed, steps[..last], next);
      OutsideAlong(file, next, Unwind(managed, steps[..last], next).0);
    }
  }

  /** Whatever a plan does, it does to the inbounds. */
  lemma ExecutedOutside(managed: bool, steps: seq<Step>, file: File, reload: bool, again: bool)
    requires file.Some? && file.value.Obj?
    ensures OutsideKept(file, Executed(managed, steps, file, reload, again).0)
  {
    hide OutsideKept, Run, Unwind, Tried;
    var p := Run(managed, steps, file);
    RunOutside(managed, steps, file);
    KeptIsObject(file, p.file);
    var back := Unwind(managed, steps[..p.tried], p.file).0;
    UnwindOutside(managed, steps[..p.tried], p.file);
    OutsideAlong(file, p.file, back);
    assert p.tried == |steps| ==> steps[..p.tried] == steps;
  }

  /** The config is as before, but for the order of inbounds and users, and an empty
      list of users where there was none or the other way round. */
  ghost predicate Unchanged(before: File, after: File) {
    OutsideKept(before, after) && SameInbounds(after.value.fields, before.value.fields)
  }

  /** Any clean plan with one step per key whose added inbounds come without users and
      whose deleted ones carry back no user of another step: Execute applies all steps
      exactly when each of them applies and the reload succeeds. Otherwise the config
      is as before, and no rollback fails, exactly when the run is faithful. */
  lemma PlanExactly(file: File, scope: Scope, view: View, steps: seq<Step>, reload: bool, again: bool)
    requires Shows(file, scope, view) && "" !in scope.ids && Plannable(steps, scope.ids) && ApartRun(view, steps, scope.ids)
    requires forall step | step in steps :: CleanStep(step, scope)
    ensures var (after, outcome) := Executed(true, steps, file, reload, again);
            var r := RunView(view, steps, scope.ids);
      && (outcome.Applied? <==> r.ok && (reload || steps == []))
      && (outcome.StepFailed? || outcome.StepAndRollbackFailed? <==> !r.ok)
      && (outcome.Applied? ==> Shows(after, scope, r.view))
      && (!outcome.Applied? ==>
            (Unchanged(file, after) && !RollbackFailed(outcome) <==> FaithfulRun(view, steps, {}, scope.ids)))
  {
    hide CleanStep, FaithfulRun, Plannable, ApartRun, Executed, Trip, RunView, Sound, ViewConfig, Like, OutsideKept, SameInbounds;
    PlanShows(file, scope, view, steps, reload, again);
    RunUnwindsExactly(view, steps, {}, scope.ids);
    LikeIsEqual(Trip(view, steps, scope.ids).0, view);
    ExecutedOutside(true, steps, file, reload, again);
    var (after, outcome) := Executed(true, steps, file, reload, again);
    if !outcome.Applied? {
      ViewIsConfig(after.value.fields, file.value.fields, scope);
    }
  }
}
