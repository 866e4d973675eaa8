/** The reconciliation theorem: what executing the plan of a diff does, whatever
    the diff took for the current state, and exactly when a failed execution leaves
    the config as it was. */
module Reconcile {
  import opened Wrappers
  import opened Json
  import opened Entries
  import opened Models
  import opened Diff
  import opened ConfigManager
  import opened Plan
  import opened SyncView
  import opened Rollback

  /** The user is stored in its own inbound and in no other. */
  ghost predicate OnlyAt(v: View, u: User) {
    forall t :: UserAt(v, t, u.subID) == if t == u.inboundTag then Some(UserToMap(u)) else None
  }

  /** Some user is stored under the SubID in this inbound and in no other. */
  ghost predicate OnlyIn(v: View, tag: string, subID: string) {
    forall t :: UserAt(v, t, subID).Some? <==> t == tag
  }

  ghost predicate Nowhere(v: View, subID: string) {
    forall t :: UserAt(v, t, subID) == None
  }

  /** The shell of an inbound that is added without users. */
  function PlainShell(ib: Inbound): Shell {
    Shell(InboundToMap(ib), false, multiset{})
  }

  lemma AddedPlainly(ib: Inbound, ids: set<string>)
    requires "users" !in ib.options
    ensures NewShell(ib, ids) == PlainShell(ib) && Carried(ib, ids) == map[]
  {
  }

  /** What a step of a diff finds before it runs, and where it should lead. What its
      previous item says beyond the key does not matter. */
  ghost predicate Due(step: Step, now: View, goal: View) {
    match step
    case InboundStep(Change(Create, ib, None)) =>
      "users" !in ib.options && ShellAt(now, ib.tag) == None && ShellAt(goal, ib.tag) == Some(PlainShell(ib))
    case InboundStep(Change(Update, ib, Some(prev))) =>
      prev.tag == ib.tag && ShellAt(now, ib.tag).Some? && ShellAt(goal, ib.tag) == Some(Updated(ShellAt(now, ib.tag).value, ib))
    case InboundStep(Change(Delete, ib, Some(prev))) =>
      prev == ib && ShellAt(now, ib.tag).Some? && ShellAt(goal, ib.tag) == None
    case UserStep(Change(Create, u, None)) => Nowhere(now, u.subID) && OnlyAt(goal, u)
    case UserStep(Change(Update, u, Some(prev))) =>
      prev.subID == u.subID && OnlyIn(now, prev.inboundTag, u.subID) && OnlyAt(goal, u)
    case UserStep(Change(Delete, u, Some(prev))) => prev == u && OnlyIn(now, u.inboundTag, u.subID) && Nowhere(goal, u.subID)
    case _ => false
  }

  /** In plan order, each key at most once. */
  ghost predicate Ordered(steps: seq<Step>) {
    Sorted(steps) && DistinctKeys(steps)
  }

  /** What no remaining step names is as desired already. */
  ghost predicate Settled(now: View, rest: seq<Step>, goal: View) {
    && (forall t | NoInbound(rest, t) :: ShellAt(now, t) == ShellAt(goal, t))
    && (forall t, s | NoUser(rest, s) :: UserAt(now, t, s) == UserAt(goal, t, s))
  }

  /** The remaining steps lead from `now` to `goal`. */
  ghost predicate Ready(now: View, rest: seq<Step>, goal: View, ids: set<string>) {
    && Ordered(rest) && Settled(now, rest, goal)
    && forall step | step in rest :: Due(step, now, goal) && ComesEmpty(step, ids)
  }

  /** An update that puts the user into another inbound. */
  predicate Moves(step: Step) {
    step.UserStep? && step.user.kind.Update? && step.user.previous.Some? &&
    step.user.previous.value.inboundTag != step.user.item.inboundTag
  }

  /** The step changes its own key to the goal and nothing else. */
  ghost predicate Advances(step: Step, now: View, next: View, goal: View) {
    && (forall t :: ShellAt(next, t) == if OnInbound(step, t) then ShellAt(goal, t) else ShellAt(now, t))
    && (forall t, s :: UserAt(next, t, s) == if OnUser(step, s) then UserAt(goal, t, s) else UserAt(now, t, s))
  }

  lemma DueKept(step: Step, other: Step, now: View, next: View, goal: View)
    requires Advances(step, now, next, goal) && Due(other, now, goal) && !SameKey(step, other)
    ensures Due(other, next, goal)
  {
    hide ShellAt, UserAt, Updated, InboundToMap, UserToMap;
  }

  lemma ReadyAfter(now: View, rest: seq<Step>, goal: View, next: View, ids: set<string>)
    requires rest != [] && Ready(now, rest, goal, ids) && Advances(rest[0], now, next, goal)
    ensures Ready(next, rest[1..], goal, ids)
  {
    hide ShellAt, UserAt, Due, SameKey, Rank, ComesEmpty;
    var step, tail := rest[0], rest[1..];
    forall other | other in tail ensures Due(other, next, goal) {
      DueKept(step, other, now, next, goal);
    }
    assert rest == [step] + tail;
    forall t | NoInbound(tail, t) ensures ShellAt(next, t) == ShellAt(goal, t) {
      assert OnInbound(step, t) || NoInbound(rest, t);
    }
    forall t, s | NoUser(tail, s) ensures UserAt(next, t, s) == UserAt(goal, t, s) {
      assert OnUser(step, s) || NoUser(rest, s);
    }
  }

  /** The step applies and leads on to the goal. */
  ghost predicate StepsForward(now: View, rest: seq<Step>, goal: View, ids: set<string>)
    requires rest != []
  {
    var next := Forward(now, rest[0], ids);
    next.Some? && Advances(rest[0], now, next.value, goal) && Ready(next.value, rest[1..], goal, ids)
  }

  lemma InboundStepForward(now: View, rest: seq<Step>, goal: View, ids: set<string>)
    requires rest != [] && Ready(now, rest, goal, ids) && rest[0].InboundStep?
    ensures StepsForward(now, rest, goal, ids)
  {
    var step := rest[0];
    assert Due(step, now, goal) && ComesEmpty(step, ids);
    if step.inbound.kind.Delete? {
      NoUsersLeft(now, rest, goal, ids);
    }
    InboundStepAdvances(step, now, goal, ids);
    hide Due, Advances, Ready, Forward;
    ReadyAfter(now, rest, goal, Forward(now, step, ids).value, ids);
  }

  lemma InboundStepAdvances(step: Step, now: View, goal: View, ids: set<string>)
    requires Due(step, now, goal) && step.InboundStep? && ComesEmpty(step, ids)
    requires step.inbound.kind.Delete? ==> now[step.inbound.item.tag].users == map[]
    ensures Forward(now, step, ids).Some? && Advances(step, now, Forward(now, step, ids).value, goal)
  {
    if step.inbound.kind.Create? { AddedPlainly(step.inbound.item, ids); }
    hide NewShell, Updated, InboundToMap, OptionUsers, UsersView;
    var tag := step.inbound.item.tag;
    assert ShellAt(goal, tag) == None ==> forall s :: UserAt(goal, tag, s) == None;
  }

  /** By the time an inbound is deleted its users are gone. */
  lemma NoUsersLeft(now: View, rest: seq<Step>, goal: View, ids: set<string>)
    requires rest != [] && Ready(now, rest, goal, ids)
    requires rest[0].InboundStep? && rest[0].inbound.kind.Delete?
    ensures rest[0].inbound.item.tag in now && now[rest[0].inbound.item.tag].users == map[]
  {
    var tag := rest[0].inbound.item.tag;
    assert ShellAt(now, tag).Some? && ShellAt(goal, tag).None? by {
      assert Due(rest[0], now, goal);
    }
    hide Due;
    forall s ensures s !in now[tag].users {
      OnlyInboundsLeft(rest, s);
      assert UserAt(now, tag, s) == UserAt(goal, tag, s);
    }
  }

  lemma OnlyInboundsLeft(rest: seq<Step>, s: string)
    requires rest != [] && Ordered(rest) && rest[0].InboundStep? && rest[0].inbound.kind.Delete?
    ensures NoUser(rest, s)
  {
    forall step | step in rest ensures !OnUser(step, s) {
      var i :| 0 <= i < |rest| && rest[i] == step;
      assert i > 0 ==> Rank(rest[0]) <= Rank(rest[i]);
    }
  }

  /** By the time users are created their inbound is there. */
  lemma InboundThere(now: View, rest: seq<Step>, goal: View, ids: set<string>)
    requires rest != [] && Ready(now, rest, goal, ids)
    requires rest[0].UserStep? && rest[0].user.kind.Create?
    ensures rest[0].user.item.inboundTag in now
  {
    var tag := rest[0].user.item.inboundTag;
    assert Due(rest[0], now, goal);
    assert UserAt(goal, tag, rest[0].user.item.subID).Some?;
    forall step | step in rest ensures !OnInbound(step, tag) {
      var i :| 0 <= i < |rest| && rest[i] == step;
      assert i > 0 ==> Rank(rest[0]) <= Rank(rest[i]);
      assert Due(step, now, goal);
    }
    assert NoInbound(rest, tag);
    assert ShellAt(now, tag) == ShellAt(goal, tag);
  }

  lemma UserStepForward(now: View, rest: seq<Step>, goal: View, ids: set<string>)
    requires rest != [] && Ready(now, rest, goal, ids) && rest[0].UserStep? && !Moves(rest[0])
    ensures StepsForward(now, rest, goal, ids)
  {
    var step := rest[0];
    assert Due(step, now, goal);
    if step.user.kind.Create? {
      InboundThere(now, rest, goal, ids);
    }
    hide Ready;
    UserStepAdvances(step, now, goal, ids);
    hide Due, Advances, Forward;
    ReadyAfter(now, rest, goal, Forward(now, step, ids).value, ids);
  }

  lemma UserStepAdvances(step: Step, now: View, goal: View, ids: set<string>)
    requires Due(step, now, goal) && step.UserStep? && !Moves(step)
    requires step.user.item.inboundTag in now || !step.user.kind.Create?
    ensures Forward(now, step, ids).Some? && Advances(step, now, Forward(now, step, ids).value, goal)
  {
    var u := step.user.item;
    var here := UserAt(now, u.inboundTag, u.subID);
    assert here.Some? <==> !step.user.kind.Create?;
    var next := Forward(now, step, ids).value;
    forall t, s ensures UserAt(next, t, s) == if OnUser(step, s) then UserAt(goal, t, s) else UserAt(now, t, s) {
      assert UserAt(now, t, u.subID) == None || t == u.inboundTag;
    }
  }

  /** An update that moves a user fails: the user is not in the new inbound. */
  lemma MoveFails(now: View, rest: seq<Step>, goal: View, ids: set<string>)
    requires rest != [] && Ready(now, rest, goal, ids) && Moves(rest[0])
    ensures Forward(now, rest[0], ids) == None
  {
    var u := rest[0].user.item;
    assert Due(rest[0], now, goal);
    assert UserAt(now, u.inboundTag, u.subID) == None;
  }

  /** How many steps are tried: up to the first that moves a user. */
  function FirstMove(steps: seq<Step>): (n: nat)
    ensures n <= |steps|
    ensures n == |steps| && (steps == [] || !Moves(steps[n - 1])) <==> forall step | step in steps :: !Moves(step)
  {
    if steps == [] then 0
    else if Moves(steps[0]) then 1
    else
      assert steps == [steps[0]] + steps[1..];
      1 + FirstMove(steps[1..])
  }

  /** From ready steps the run gets to the first step that moves a user, and through
      to the goal when there is none. */
  lemma {:induction false} ReadyRun(now: View, steps: seq<Step>, goal: View, ids: set<string>)
    requires Ready(now, steps, goal, ids)
    ensures RunView(now, steps, ids).ok <==> forall step | step in steps :: !Moves(step)
    ensures RunView(now, steps, ids).ok ==> RunView(now, steps, ids).view == goal
    ensures RunView(now, steps, ids).tried == FirstMove(steps)
    decreases |steps|
  {
    if steps == [] {
      NothingLeft(now, goal, ids);
    } else {
      hide Forward, Moves, Ready, Advances;
      var step, rest := steps[0], steps[1..];
      assert steps == [step] + rest;
      if Moves(step) {
        MoveFails(now, steps, goal, ids);
      } else {
        if step.InboundStep? { InboundStepForward(now, steps, goal, ids); } else { UserStepForward(now, steps, goal, ids); }
        ReadyRun(Forward(now, step, ids).value, rest, goal, ids);
      }
    }
  }

  lemma NothingLeft(now: View, goal: View, ids: set<string>)
    requires Ready(now, [], goal, ids)
    ensures now == goal
  {
    assert forall t :: ShellAt(now, t) == ShellAt(goal, t) by {
      forall t ensures ShellAt(now, t) == ShellAt(goal, t) { assert NoInbound([], t); }
    }
    assert forall t, s :: UserAt(now, t, s) == UserAt(goal, t, s) by {
      forall t, s ensures UserAt(now, t, s) == UserAt(goal, t, s) { assert NoUser([], s); }
    }
    ViewsEqual(now, goal);
  }

  // When a failed execution leaves no trace.

  /** What the step recorded as previous puts back what is stored before the plan runs,
      and a deleted inbound carries no users in its previous options. */
  predicate Recorded(step: Step, view: View, ids: set<string>) {
    match step
    case InboundStep(Change(Create, _, _)) => true
    case InboundStep(Change(Update, ib, Some(prev))) =>
      ShellAt(view, prev.tag).Some? && Restores(ShellAt(view, prev.tag).value.body, ib, prev)
    case InboundStep(Change(Delete, _, Some(prev))) =>
      ShellAt(view, prev.tag) == Some(NewShell(prev, ids)) && Carried(prev, ids) == map[]
    case UserStep(Change(Create, _, _)) => true
    case UserStep(Change(_, _, Some(prev))) => StoredAs(view, prev)
    case _ => false
  }

  /** What a step that is still to come recorded does not depend on the steps before. */
  lemma RecordedKept(step: Step, other: Step, now: View, next: View, goal: View, ids: set<string>)
    requires Advances(step, now, next, goal) && Due(other, now, goal) && !SameKey(step, other)
    ensures Recorded(other, next, ids) <==> Recorded(other, now, ids)
  {
    hide ShellAt, UserAt, NewShell, Updated, InboundToMap, UserToMap, Carried;
  }

  lemma RestRecorded(now: View, steps: seq<Step>, next: View, goal: View, n: nat, ids: set<string>)
    requires steps != [] && Ready(now, steps, goal, ids) && Advances(steps[0], now, next, goal) && n < |steps|
    ensures (forall r | r in steps[..n + 1] :: Recorded(r, now, ids)) <==>
            Recorded(steps[0], now, ids) && forall r | r in steps[1..][..n] :: Recorded(r, next, ids)
  {
    var step, rest := steps[0], steps[1..];
    assert steps == [step] + rest;
    assert steps[..n + 1] == [step] + rest[..n];
    forall r | r in rest[..n] ensures Recorded(r, next, ids) <==> Recorded(r, now, ids) {
      var i :| 0 <= i < n && rest[i] == r;
      assert !SameKey(steps[0], steps[i + 1]) && steps[i + 1] in steps;
      RecordedKept(step, r, now, next, goal, ids);
    }
  }

  lemma FaithfulIsRecorded(step: Step, now: View, goal: View, ids: set<string>)
    requires Due(step, now, goal) && !Moves(step)
    requires step.InboundStep? && step.inbound.kind.Delete? ==> now[step.inbound.item.tag].users == map[]
    ensures Faithful(step, now, ids) <==> Recorded(step, now, ids)
  {
    hide NewShell, Updated, InboundToMap, UserToMap, Carried;
  }

  /** For ready steps a run is faithful exactly when what the tried steps recorded is
      what is stored at the start. */
  lemma {:induction false} ReadyFaithful(now: View, steps: seq<Step>, goal: View, created: set<string>, ids: set<string>)
    requires Ready(now, steps, goal, ids)
    ensures FaithfulRun(now, steps, created, ids) <==> forall r | r in steps[..FirstMove(steps)] :: Recorded(r, now, ids)
    decreases |steps|
  {
    if steps != [] {
      var step, rest := steps[0], steps[1..];
      assert step in steps && Due(step, now, goal);
      if Moves(step) {
        MoveFails(now, steps, goal, ids);
        assert steps[..FirstMove(steps)] == [step];
        assert FaithfulRun(now, steps, created, ids) <==> Recorded(step, now, ids);
      } else {
        hide Forward, Moves, Ready, Advances, Recorded, Faithful, Due;
        if step.InboundStep? { InboundStepForward(now, steps, goal, ids); } else { UserStepForward(now, steps, goal, ids); }
        if step.InboundStep? && step.inbound.kind.Delete? { NoUsersLeft(now, steps, goal, ids); }
        var next := Forward(now, step, ids).value;
        FaithfulIsRecorded(step, now, goal, ids);
        ReadyFaithful(next, rest, goal, Creating(step, created), ids);
        RestRecorded(now, steps, next, goal, FirstMove(rest), ids);
      }
    }
  }

  /** An inbound to be deleted carries no other users than those stored in it, as far
      as the plan deals with them. */
  ghost predicate CarriesOwn(now: View, steps: seq<Step>, ids: set<string>) {
    forall r, s | r in steps && CarriesBack(r, s, ids) && !NoUser(steps, s) :: UserAt(now, r.inbound.item.tag, s).Some?
  }

  lemma CarriesOwnKept(now: View, steps: seq<Step>, next: View, goal: View, ids: set<string>)
    requires steps != [] && DistinctKeys(steps) && Advances(steps[0], now, next, goal) && CarriesOwn(now, steps, ids)
    ensures CarriesOwn(next, steps[1..], ids)
  {
    hide Carried, ShellAt, UserAt;
    var step, rest := steps[0], steps[1..];
    assert steps == [step] + rest;
    forall r, s | r in rest && CarriesBack(r, s, ids) && !NoUser(rest, s) ensures UserAt(next, r.inbound.item.tag, s).Some? {
      var other :| other in rest && OnUser(other, s);
      var i :| 0 <= i < |rest| && rest[i] == other;
      assert !SameKey(steps[0], steps[i + 1]) && other in steps;
    }
  }

  /** A user step that applies, and the inbounds that are deleted behind it. */
  lemma StepApart(now: View, steps: seq<Step>, goal: View, ids: set<string>)
    requires steps != [] && Ready(now, steps, goal, ids) && CarriesOwn(now, steps, ids) && !Moves(steps[0])
    ensures Apart(steps[0], steps[1..], ids)
  {
    var step, rest := steps[0], steps[1..];
    assert steps == [step] + rest;
    if step.UserStep? && !InPlace(step) {
      var s := step.user.item.subID;
      assert Due(step, now, goal) && OnUser(step, s) && step in steps;
      assert !NoUser(steps, s);
      assert UserAt(goal, step.user.item.inboundTag, s).Some?;
      forall r | r in rest ensures !CarriesBack(r, s, ids) {
        assert Due(r, now, goal);
        assert CarriesBack(r, s, ids) ==> UserAt(now, r.inbound.item.tag, s).Some?;
      }
    }
  }

  lemma {:induction false} ReadyApart(now: View, steps: seq<Step>, goal: View, ids: set<string>)
    requires Ready(now, steps, goal, ids) && CarriesOwn(now, steps, ids)
    ensures ApartRun(now, steps, ids)
    decreases |steps|
  {
    if steps != [] {
      hide Forward, Moves, Advances, Apart, CarriesOwn, Due;
      var step := steps[0];
      if Moves(step) {
        MoveFails(now, steps, goal, ids);
      } else {
        StepApart(now, steps, goal, ids);
        if step.InboundStep? { InboundStepForward(now, steps, goal, ids); } else { UserStepForward(now, steps, goal, ids); }
        CarriesOwnKept(now, steps, Forward(now, step, ids).value, goal, ids);
        ReadyApart(Forward(now, step, ids).value, steps[1..], goal, ids);
      }
    }
  }

  lemma ReadyPlannable(now: View, steps: seq<Step>, goal: View, ids: set<string>)
    requires Ready(now, steps, goal, ids)
    ensures Plannable(steps, ids)
  {
    forall step | step in steps ensures Keyed(step) {
      assert Due(step, now, goal);
    }
  }

  // From the diff to ready steps.

  /** A desired state: keyed by tag and SubID, every user in a listed inbound, nothing
      that could make a SubID ambiguous, and no users in options. */
  ghost predicate Desirable(inbounds: map<string, Inbound>, users: map<string, User>, ids: set<string>) {
    && (forall tag | tag in inbounds :: inbounds[tag].tag == tag && "users" !in inbounds[tag].options)
    && (forall s | s in users :: users[s].subID == s && users[s].inboundTag in inbounds && CleanUser(users[s], ids))
  }

  /** A state that a diff may take for the current one: keyed likewise; options may
      carry users, which are then listed for that inbound. */
  ghost predicate Listable(inbounds: map<string, Inbound>, users: map<string, User>, ids: set<string>) {
    && (forall tag | tag in inbounds :: inbounds[tag].tag == tag && ListableInbound(inbounds[tag], users, ids))
    && (forall s | s in users :: users[s].subID == s && users[s].inboundTag in inbounds && CleanUser(users[s], ids))
  }

  ghost predicate ListableInbound(ib: Inbound, users: map<string, User>, ids: set<string>) {
    && ("users" in ib.options ==> ib.options["users"].Arr?) && WellKeyed(OptionUsers(ib), ids)
    && (forall s | s in Carried(ib, ids) :: s in users && users[s].inboundTag == ib.tag)
  }

  /** The listed keys are those of the view. */
  ghost predicate KeysOf(inbounds: map<string, Inbound>, users: map<string, User>, view: View) {
    && (forall t :: t in inbounds <==> t in view)
    && (forall t, s :: UserAt(view, t, s).Some? <==> s in users && users[s].inboundTag == t)
  }

  /** Both states as keyed maps, and the changes between them. */
  datatype Diffs = Diffs(
    desiredInbounds: map<string, Inbound>, currentInbounds: map<string, Inbound>,
    desiredUsers: map<string, User>, currentUsers: map<string, User>,
    inbounds: seq<InboundChange>, users: seq<UserChange>)
  {
    function Steps(): seq<Step> { StepsFor(inbounds, users) }

    ghost predicate Valid(ids: set<string>) {
      && Desirable(desiredInbounds, desiredUsers, ids) && Listable(currentInbounds, currentUsers, ids)
      && IsDiff(InboundKey, desiredInbounds, currentInbounds, inbounds)
      && IsDiff(UserKey, desiredUsers, currentUsers, users)
    }

    /** Inbounds that stay and are listed with users in their options. */
    function Scope(ids: set<string>): Scope {
      SyncView.Scope(ids, set tag | tag in currentInbounds && tag in desiredInbounds && "users" in currentInbounds[tag].options)
    }

    /** What is desired, where it differs from what is listed; elsewhere the view stays. */
    ghost function Goal(view: View): View {
      map tag | tag in desiredInbounds ::
        InboundView(
          if tag !in view || tag !in currentInbounds then PlainShell(desiredInbounds[tag])
          else if currentInbounds[tag] == desiredInbounds[tag] then view[tag].shell
          else Updated(view[tag].shell, desiredInbounds[tag]),
          map s | s in desiredUsers && desiredUsers[s].inboundTag == tag ::
            if UserAt(view, tag, s).Some? && s in currentUsers && currentUsers[s] == desiredUsers[s] then UserAt(view, tag, s).value
            else UserToMap(desiredUsers[s]))
    }

    /** No user of both states changes inbound. */
    ghost predicate NobodyMoves() {
      forall s | s in desiredUsers && s in currentUsers :: desiredUsers[s].inboundTag == currentUsers[s].inboundTag
    }

    predicate NothingToDo() {
      desiredInbounds == currentInbounds && desiredUsers == currentUsers
    }
  }

  lemma {:induction false} DistinctOnce<V>(key: V -> string, changes: seq<Change<V>>, c: Change<V>)
    requires forall i, j | 0 <= i < j < |changes| :: key(changes[i].item) != key(changes[j].item)
    ensures multiset(changes)[c] <= 1
  {
    if changes != [] {
      var last := |changes| - 1;
      DistinctOnce(key, changes[..last], c);
      assert changes == changes[..last] + [changes[last]];
    }
  }

  lemma TwiceCounted<T>(s: seq<T>, i: nat, j: nat)
    requires i < j < |s| && s[i] == s[j]
    ensures multiset(s)[s[i]] >= 2
  {
    assert s == s[..j] + s[j..];
    assert s[i] in s[..j] && s[j] in s[j..];
  }

  lemma StepsForHolds(inbounds: seq<InboundChange>, users: seq<UserChange>)
    ensures forall s :: s in StepsFor(inbounds, users) <==>
              (s.InboundStep? && s.inbound in inbounds && !s.inbound.kind.Unknown?) ||
              (s.UserStep? && s.user in users && !s.user.kind.Unknown?)
  {
    InboundStepsHold(inbounds, Create);
    InboundStepsHold(inbounds, Update);
    InboundStepsHold(inbounds, Delete);
    UserStepsHold(users, Create);
    UserStepsHold(users, Update);
    UserStepsHold(users, Delete);
  }

  lemma KeyDetermines(d: Diffs, ids: set<string>, x: Step, y: Step)
    requires d.Valid(ids) && x in d.Steps() && y in d.Steps() && SameKey(x, y)
    ensures x == y
  {
    StepsForHolds(d.inbounds, d.users);
    hide StepsFor, Desirable, Listable;
  }

  lemma DiffOrdered(d: Diffs, ids: set<string>)
    requires d.Valid(ids)
    ensures Ordered(d.Steps())
  {
    StepsForSorted(d.inbounds, d.users);
    hide Sorted, Desirable, Listable, StepsFor;
    var steps := d.Steps();
    forall i, j | 0 <= i < j < |steps| ensures !SameKey(steps[i], steps[j]) {
      if SameKey(steps[i], steps[j]) {
        KeyDetermines(d, ids, steps[i], steps[j]);
        TwiceCounted(steps, i, j);
        StepsForCount(d.inbounds, d.users, steps[i]);
        match steps[i]
        case InboundStep(c) => DistinctOnce(InboundKey, d.inbounds, c);
        case UserStep(c) => DistinctOnce(UserKey, d.users, c);
      }
    }
  }

  lemma GoalAt(d: Diffs, ids: set<string>, view: View, tag: string, s: string)
    requires d.Valid(ids) && KeysOf(d.currentInbounds, d.currentUsers, view)
    ensures ShellAt(d.Goal(view), tag) ==
            if tag !in d.desiredInbounds then None
            else if tag !in d.currentInbounds then Some(PlainShell(d.desiredInbounds[tag]))
            else if d.currentInbounds[tag] == d.desiredInbounds[tag] then ShellAt(view, tag)
            else Some(Updated(view[tag].shell, d.desiredInbounds[tag]))
    ensures UserAt(d.Goal(view), tag, s) ==
            if s !in d.desiredUsers || d.desiredUsers[s].inboundTag != tag then None
            else if s in d.currentUsers && d.currentUsers[s] == d.desiredUsers[s] then UserAt(view, tag, s)
            else Some(UserToMap(d.desiredUsers[s]))
  {
    hide NewShell, Updated, InboundToMap, UserToMap, CleanUser, IsDiff, ListableInbound;
    assert UserAt(view, tag, s).Some? <==> s in d.currentUsers && d.currentUsers[s].inboundTag == tag;
  }

  lemma InboundDue(d: Diffs, ids: set<string>, view: View, c: InboundChange)
    requires d.Valid(ids) && KeysOf(d.currentInbounds, d.currentUsers, view) && c in d.inbounds
    ensures Due(InboundStep(c), view, d.Goal(view)) && ComesEmpty(InboundStep(c), ids)
  {
    var tag := InboundKey(c.item);
    assert Expected(d.desiredInbounds, d.currentInbounds, tag) == Some(c);
    GoalAt(d, ids, view, tag, "");
    assert tag in d.currentInbounds <==> ShellAt(view, tag).Some?;
    assert tag in d.desiredInbounds ==> OptionUsers(d.desiredInbounds[tag]) == [];
    hide UsersView, NewShell, Updated, InboundToMap, UserToMap, IsDiff, CleanUser, KeysOf, ListableInbound, ShellAt, UserAt;
    if tag in d.desiredInbounds { CarriesNone(d.desiredInbounds[tag], ids); }
  }

  lemma CarriesNone(ib: Inbound, ids: set<string>)
    requires "users" !in ib.options
    ensures Carried(ib, ids) == map[]
  {
    assert OptionUsers(ib) == [];
  }

  lemma InboundClean(d: Diffs, ids: set<string>, c: InboundChange)
    requires d.Valid(ids) && c in d.inbounds
    ensures CleanStep(InboundStep(c), d.Scope(ids))
  {
    var tag := InboundKey(c.item);
    assert Expected(d.desiredInbounds, d.currentInbounds, tag) == Some(c);
    hide IsDiff, CleanUser, Carried;
  }

  lemma UserDue(d: Diffs, ids: set<string>, view: View, c: UserChange)
    requires d.Valid(ids) && KeysOf(d.currentInbounds, d.currentUsers, view) && c in d.users
    ensures Due(UserStep(c), view, d.Goal(view)) && ComesEmpty(UserStep(c), ids)
  {
    hide NewShell, Updated, InboundToMap, UserToMap, ShellAt, UserAt, CleanUser, ListableInbound, Diffs.Goal;
    var s := UserKey(c.item);
    assert Expected(d.desiredUsers, d.currentUsers, s) == Some(c);
    forall t ensures UserAt(d.Goal(view), t, s) ==
                     if s !in d.desiredUsers || d.desiredUsers[s].inboundTag != t then None
                     else if s in d.currentUsers && d.currentUsers[s] == d.desiredUsers[s] then UserAt(view, t, s)
                     else Some(UserToMap(d.desiredUsers[s]))
    {
      GoalAt(d, ids, view, t, s);
    }
    assert forall t :: UserAt(view, t, s).Some? <==> s in d.currentUsers && d.currentUsers[s].inboundTag == t;
    hide IsDiff, KeysOf, Desirable, Listable;
  }

  lemma UserClean(d: Diffs, ids: set<string>, c: UserChange)
    requires d.Valid(ids) && c in d.users
    ensures CleanStep(UserStep(c), d.Scope(ids))
  {
    assert Expected(d.desiredUsers, d.currentUsers, UserKey(c.item)) == Some(c);
    hide IsDiff, ListableInbound;
  }

  lemma DiffSettled(d: Diffs, ids: set<string>, view: View)
    requires d.Valid(ids) && KeysOf(d.currentInbounds, d.currentUsers, view)
    ensures Settled(view, d.Steps(), d.Goal(view))
  {
    var goal, steps := d.Goal(view), d.Steps();
    StepsForHolds(d.inbounds, d.users);
    hide StepsFor, NewShell, Updated, InboundToMap, UserToMap, CleanUser, ListableInbound;
    forall t | NoInbound(steps, t) ensures ShellAt(view, t) == ShellAt(goal, t) {
      var expected := Expected(d.desiredInbounds, d.currentInbounds, t);
      assert expected.Some? ==> InboundStep(expected.value) in steps && OnInbound(InboundStep(expected.value), t);
      GoalAt(d, ids, view, t, "");
    }
    forall t, s | NoUser(steps, s) ensures UserAt(view, t, s) == UserAt(goal, t, s) {
      var expected := Expected(d.desiredUsers, d.currentUsers, s);
      assert expected.Some? ==> UserStep(expected.value) in steps && OnUser(UserStep(expected.value), s);
      GoalAt(d, ids, view, t, s);
      assert UserAt(view, t, s).Some? <==> s in d.currentUsers && d.currentUsers[s].inboundTag == t;
    }
  }

  /** The plan of a diff starts ready, from any view that has the listed keys. */
  lemma DiffReady(d: Diffs, ids: set<string>, view: View)
    requires d.Valid(ids) && KeysOf(d.currentInbounds, d.currentUsers, view)
    ensures Ready(view, d.Steps(), d.Goal(view), ids)
    ensures forall step | step in d.Steps() :: CleanStep(step, d.Scope(ids))
  {
    DiffOrdered(d, ids);
    DiffSettled(d, ids, view);
    StepsForHolds(d.inbounds, d.users);
    hide StepsFor, Ordered, Settled, Due, CleanStep, KeysOf, ComesEmpty;
    forall step | step in d.Steps()
      ensures Due(step, view, d.Goal(view)) && ComesEmpty(step, ids) && CleanStep(step, d.Scope(ids))
    {
      match step
      case InboundStep(c) => InboundDue(d, ids, view, c); InboundClean(d, ids, c);
      case UserStep(c) => UserDue(d, ids, view, c); UserClean(d, ids, c);
    }
  }

  lemma DiffCarriesOwn(d: Diffs, ids: set<string>, view: View)
    requires d.Valid(ids) && KeysOf(d.currentInbounds, d.currentUsers, view)
    ensures CarriesOwn(view, d.Steps(), ids)
  {
    StepsForHolds(d.inbounds, d.users);
    hide StepsFor, CleanUser, Carried, NoUser;
    forall r, s | r in d.Steps() && CarriesBack(r, s, ids) && !NoUser(d.Steps(), s)
      ensures UserAt(view, r.inbound.item.tag, s).Some?
    {
      var tag := InboundKey(r.inbound.item);
      assert Expected(d.desiredInbounds, d.currentInbounds, tag) == Some(r.inbound);
      assert ListableInbound(d.currentInbounds[tag], d.currentUsers, ids);
    }
  }

  lemma MovesOfDiff(d: Diffs, ids: set<string>)
    requires d.Valid(ids)
    ensures (forall step | step in d.Steps() :: !Moves(step)) <==> d.NobodyMoves()
  {
    StepsForHolds(d.inbounds, d.users);
    hide StepsFor, CleanUser, ListableInbound;
    forall step | step in d.Steps() && Moves(step) ensures !d.NobodyMoves() {
      assert Expected(d.desiredUsers, d.currentUsers, UserKey(step.user.item)) == Some(step.user);
    }
    forall s | s in d.desiredUsers && s in d.currentUsers && d.desiredUsers[s].inboundTag != d.currentUsers[s].inboundTag
      ensures exists step | step in d.Steps() :: Moves(step)
    {
      assert UserStep(Expected(d.desiredUsers, d.currentUsers, s).value) in d.Steps();
      assert Moves(UserStep(Expected(d.desiredUsers, d.currentUsers, s).value));
    }
  }

  lemma NoSteps(inbounds: seq<InboundChange>, users: seq<UserChange>)
    requires forall c | c in inbounds :: !c.kind.Unknown?
    requires forall c | c in users :: !c.kind.Unknown?
    ensures StepsFor(inbounds, users) == [] <==> inbounds == [] && users == []
  {
    StepsForHolds(inbounds, users);
    var steps := StepsFor(inbounds, users);
    assert inbounds != [] ==> InboundStep(inbounds[0]) in steps;
    assert users != [] ==> UserStep(users[0]) in steps;
    assert steps != [] ==> steps[0] in steps;
  }

  lemma KindsKnown<V(!new)>(key: V -> string, desired: map<string, V>, current: map<string, V>, changes: seq<Change<V>>)
    requires IsDiff(key, desired, current, changes)
    ensures forall c | c in changes :: !c.kind.Unknown?
  {
    assert forall c | c in changes :: Expected(desired, current, key(c.item)) == Some(c);
  }

  lemma EmptyPlan(d: Diffs, ids: set<string>)
    requires d.Valid(ids)
    ensures d.Steps() == [] <==> d.NothingToDo()
  {
    hide StepsFor, IsDiff, CleanUser, ListableInbound;
    DiffIsPatch(InboundKey, d.desiredInbounds, d.currentInbounds, d.inbounds);
    DiffIsPatch(UserKey, d.desiredUsers, d.currentUsers, d.users);
    KindsKnown(InboundKey, d.desiredInbounds, d.currentInbounds, d.inbounds);
    KindsKnown(UserKey, d.desiredUsers, d.currentUsers, d.users);
    NoSteps(d.inbounds, d.users);
  }

  /** Executing the plan of a diff, from a file whose view has the listed keys,
      whatever else the listing says. All steps apply exactly when nobody moves; what
      is desired is then reached wherever it differs from the listing. A failed
      execution leaves the config as it was, without a failing rollback, exactly when
      what every tried step has recorded as previous puts back what was stored. */
  lemma ReconcilesExactly(d: Diffs, ids: set<string>, view: View, file: File, reload: bool, again: bool)
    requires d.Valid(ids) && KeysOf(d.currentInbounds, d.currentUsers, view)
    requires "" !in ids && Shows(file, d.Scope(ids), view)
    ensures var (after, outcome) := Executed(true, d.Steps(), file, reload, again);
      && (outcome.Applied? <==> d.NobodyMoves() && (reload || d.NothingToDo()))
      && (outcome.StepFailed? || outcome.StepAndRollbackFailed? <==> !d.NobodyMoves())
      && (outcome.Applied? ==> Shows(after, d.Scope(ids), d.Goal(view)))
      && (!outcome.Applied? ==>
            (Unchanged(file, after) && !RollbackFailed(outcome) <==>
             forall step | step in d.Steps()[..FirstMove(d.Steps())] :: Recorded(step, view, ids)))
  {
    DiffReady(d, ids, view);
    DiffCarriesOwn(d, ids, view);
    MovesOfDiff(d, ids);
    EmptyPlan(d, ids);
    hide Ready, Shows, CleanStep, Moves, FaithfulRun, StepsFor, Executed, CarriesOwn, ApartRun, Plannable, Recorded, Unchanged;
    ReadyRun(view, d.Steps(), d.Goal(view), ids);
    ReadyPlannable(view, d.Steps(), d.Goal(view), ids);
    ReadyApart(view, d.Steps(), d.Goal(view), ids);
    ReadyFaithful(view, d.Steps(), d.Goal(view), {}, ids);
    PlanExactly(file, d.Scope(ids), view, d.Steps(), reload, again);
  }

  // A listing that says all there is.

  function Bare(ib: Inbound): Inbound {
    ib.(options := ib.options - {"users"})
  }

  /** The view of a list of inbounds and their users. */
  ghost function StateView(inbounds: map<string, Inbound>, users: map<string, User>): View {
    map tag | tag in inbounds ::
      InboundView(PlainShell(Bare(inbounds[tag])),
                  map s | s in users && users[s].inboundTag == tag :: UserToMap(users[s]))
  }

  lemma StateAt(inbounds: map<string, Inbound>, users: map<string, User>, tag: string, s: string)
    requires forall x | x in users :: users[x].inboundTag in inbounds
    ensures var v := StateView(inbounds, users);
      && ShellAt(v, tag) == (if tag in inbounds then Some(PlainShell(Bare(inbounds[tag]))) else None)
      && UserAt(v, tag, s) == (if s in users && users[s].inboundTag == tag then Some(UserToMap(users[s])) else None)
  {
    hide PlainShell, Bare, UserToMap;
  }

  lemma StateKeys(inbounds: map<string, Inbound>, users: map<string, User>)
    requires forall x | x in users :: users[x].inboundTag in inbounds
    ensures KeysOf(inbounds, users, StateView(inbounds, users))
  {
    hide UserToMap;
    forall t, s ensures UserAt(StateView(inbounds, users), t, s).Some? <==> s in users && users[s].inboundTag == t {
      StateAt(inbounds, users, t, s);
    }
  }

  lemma BareIsSame(ib: Inbound)
    requires "users" !in ib.options
    ensures Bare(ib) == ib
  {
  }

  /** A replaced inbound is that of the new settings unless it loses all its options:
      an empty options object stays. */
  lemma UpdatedPlain(was: Inbound, ib: Inbound)
    requires "users" !in was.options && "users" !in ib.options
    ensures Updated(PlainShell(was), ib) == PlainShell(ib) <==> was.options == map[] || ib.options != map[]
  {
    StoredReads(was);
    StoredReads(ib);
    hide InboundToMap;
    PreservedShape(InboundToMap(was), InboundToMap(ib), ib.options);
    ByParts(PreserveUsers(InboundToMap(was), InboundToMap(ib)), InboundToMap(ib));
    assert InboundToMap(ib) - {"options", "users"} == InboundToMap(ib) - {"options"};
    hide PreserveUsers;
  }

  /** No inbound that stays loses all its options. */
  ghost predicate OptionsStay(d: Diffs) {
    forall tag | tag in d.currentInbounds && tag in d.desiredInbounds ::
      Bare(d.currentInbounds[tag]).options == map[] || d.desiredInbounds[tag].options != map[]
  }

  lemma StateGoal(d: Diffs, ids: set<string>)
    requires d.Valid(ids)
    ensures d.Goal(StateView(d.currentInbounds, d.currentUsers)) == StateView(d.desiredInbounds, d.desiredUsers) <==> OptionsStay(d)
  {
    var now, goal := StateView(d.currentInbounds, d.currentUsers), StateView(d.desiredInbounds, d.desiredUsers);
    StateKeys(d.currentInbounds, d.currentUsers);
    hide StateView, Diffs.Goal, IsDiff, CleanUser, ListableInbound, PlainShell, Updated, UserToMap, KeysOf;
    forall t, s ensures UserAt(d.Goal(now), t, s) == UserAt(goal, t, s) {
      GoalAt(d, ids, now, t, s);
      StateAt(d.currentInbounds, d.currentUsers, t, s);
      StateAt(d.desiredInbounds, d.desiredUsers, t, s);
    }
    forall t ensures ShellAt(d.Goal(now), t) == ShellAt(goal, t) <==>
                     (t in d.currentInbounds && t in d.desiredInbounds ==>
                        Bare(d.currentInbounds[t]).options == map[] || d.desiredInbounds[t].options != map[])
    {
      StateShell(d, ids, t);
    }
    if OptionsStay(d) {
      ViewsEqual(d.Goal(now), goal);
    }
  }

  lemma StateShell(d: Diffs, ids: set<string>, t: string)
    requires d.Valid(ids)
    ensures var now, goal := StateView(d.currentInbounds, d.currentUsers), StateView(d.desiredInbounds, d.desiredUsers);
            ShellAt(d.Goal(now), t) == ShellAt(goal, t) <==>
            (t in d.currentInbounds && t in d.desiredInbounds ==>
               Bare(d.currentInbounds[t]).options == map[] || d.desiredInbounds[t].options != map[])
  {
    StateKeys(d.currentInbounds, d.currentUsers);
    GoalAt(d, ids, StateView(d.currentInbounds, d.currentUsers), t, "");
    StateAt(d.currentInbounds, d.currentUsers, t, "");
    StateAt(d.desiredInbounds, d.desiredUsers, t, "");
    if t in d.desiredInbounds {
      BareIsSame(d.desiredInbounds[t]);
      if t in d.currentInbounds { UpdatedPlain(Bare(d.currentInbounds[t]), d.desiredInbounds[t]); }
    }
    hide StateView, Diffs.Goal, IsDiff, CleanUser, ListableInbound, PlainShell, Updated, UserToMap, KeysOf;
  }

  // Which steps a run comes to that a move ends.

  predicate DeletesInbound(step: Step) {
    step.InboundStep? && step.inbound.kind.Delete?
  }

  predicate UpdatesInbound(step: Step) {
    step.InboundStep? && step.inbound.kind.Update?
  }

  lemma MoveBetween(a: Step, b: Step)
    requires Moves(b)
    ensures Rank(a) <= Rank(b) ==> !DeletesInbound(a)
    ensures Rank(b) <= Rank(a) ==> !UpdatesInbound(a)
  {
  }

  lemma MoveFirst(steps: seq<Step>)
    requires steps != [] && Sorted(steps) && Moves(steps[0])
    ensures !DeletesInbound(steps[0]) && forall step | step in steps :: !UpdatesInbound(step)
  {
    hide Moves, Rank, DeletesInbound, UpdatesInbound;
    MoveBetween(steps[0], steps[0]);
    forall step | step in steps ensures !UpdatesInbound(step) {
      var i :| 0 <= i < |steps| && steps[i] == step;
      assert i > 0 ==> Rank(steps[0]) <= Rank(steps[i]);
      MoveBetween(steps[i], steps[0]);
    }
  }

  /** Not to deletes of inbounds, but to all updates. */
  lemma {:induction false} TriedBeforeMove(steps: seq<Step>)
    requires Sorted(steps) && exists step | step in steps :: Moves(step)
    ensures forall step | step in steps[..FirstMove(steps)] :: !DeletesInbound(step)
    ensures forall step | step in steps && UpdatesInbound(step) :: step in steps[..FirstMove(steps)]
  {
    hide Moves, Rank, DeletesInbound, UpdatesInbound;
    if Moves(steps[0]) {
      assert steps[..1] == [steps[0]];
      MoveFirst(steps);
    } else {
      var rest := steps[1..];
      var n := FirstMove(rest);
      assert FirstMove(steps) == n + 1;
      hide FirstMove;
      RestMoves(steps);
      TriedBeforeMove(rest);
      forall step ensures step in steps <==> step == steps[0] || step in rest
                  ensures step in steps[..n + 1] <==> step == steps[0] || step in rest[..n]
      {
        FirstAndRest(steps, n, step);
      }
    }
  }

  lemma FirstAndRest(steps: seq<Step>, n: nat, step: Step)
    requires steps != [] && n < |steps|
    ensures step in steps <==> step == steps[0] || step in steps[1..]
    ensures step in steps[..n + 1] <==> step == steps[0] || step in steps[1..][..n]
  {
    assert steps == [steps[0]] + steps[1..];
    assert steps[..n + 1] == [steps[0]] + steps[1..][..n];
  }

  lemma RestMoves(steps: seq<Step>)
    requires steps != [] && Sorted(steps) && !Moves(steps[0]) && exists step | step in steps :: Moves(step)
    ensures Sorted(steps[1..]) && (exists step | step in steps[1..] :: Moves(step)) && !DeletesInbound(steps[0])
  {
    hide Moves, Rank, DeletesInbound;
    var rest := steps[1..];
    assert forall k | 0 <= k < |rest| :: rest[k] == steps[k + 1];
    var i :| 0 <= i < |steps| && Moves(steps[i]);
    assert Rank(steps[0]) <= Rank(steps[i]) && rest[i - 1] == steps[i];
    MoveBetween(steps[0], steps[i]);
  }

  /** Whether an inbound as it is listed puts back what is stored as listed. */
  predicate Restorable(was: Inbound, ib: Inbound) {
    "users" !in was.options && (ib.options == map[] || was.options != map[])
  }

  ghost predicate UpdatesRestorable(d: Diffs) {
    forall tag | tag in d.currentInbounds && tag in d.desiredInbounds && d.currentInbounds[tag] != d.desiredInbounds[tag] ::
      Restorable(d.currentInbounds[tag], d.desiredInbounds[tag])
  }

  ghost predicate DeletesRestorable(d: Diffs) {
    forall tag | tag in d.currentInbounds && tag !in d.desiredInbounds :: "users" !in d.currentInbounds[tag].options
  }

  predicate StepRestorable(step: Step) {
    match step
    case InboundStep(Change(Update, ib, Some(prev))) => Restorable(prev, ib)
    case InboundStep(Change(Delete, ib, _)) => "users" !in ib.options
    case _ => true
  }

  lemma RestoresListed(was: Inbound, ib: Inbound, ids: set<string>)
    requires "users" !in ib.options
    ensures Restores(PlainShell(Bare(was)).body, ib, was) <==> Restorable(was, ib)
    ensures PlainShell(Bare(was)) == NewShell(was, ids) && Carried(was, ids) == map[] <==> "users" !in was.options
  {
    StoredReads(Bare(was));
    StoredReads(was);
    SameSettings(was);
    if "users" !in was.options {
      BareIsSame(was);
      AddedPlainly(was, ids);
    }
    hide InboundToMap, UsersView, OthersOf;
    assert InboundToMap(Bare(was)) - {"options", "users"} == InboundToMap(was) - {"options"};
    assert Bare(was).options - {"users"} == was.options - {"users"};
  }

  lemma SameSettings(ib: Inbound)
    ensures InboundToMap(Bare(ib)) - {"options"} == InboundToMap(ib) - {"options"}
  {
  }

  lemma StateRecorded(d: Diffs, ids: set<string>, step: Step)
    requires d.Valid(ids) && step in d.Steps()
    ensures Recorded(step, StateView(d.currentInbounds, d.currentUsers), ids) <==> StepRestorable(step)
  {
    StepsForHolds(d.inbounds, d.users);
    hide StepsFor, PlainShell, NewShell, Bare, Restores, Restorable, Carried, CleanUser, ListableInbound, ShellAt, UserAt, StateView, UserToMap;
    match step
    case InboundStep(c) =>
      var tag := InboundKey(c.item);
      assert Expected(d.desiredInbounds, d.currentInbounds, tag) == Some(c);
      StateAt(d.currentInbounds, d.currentUsers, tag, "");
      if tag in d.currentInbounds {
        var wanted := if tag in d.desiredInbounds then d.desiredInbounds[tag] else d.currentInbounds[tag].(options := map[]);
        RestoresListed(d.currentInbounds[tag], wanted, ids);
      }
    case UserStep(c) =>
      var s := UserKey(c.item);
      assert Expected(d.desiredUsers, d.currentUsers, s) == Some(c);
      if s in d.currentUsers { StateAt(d.currentInbounds, d.currentUsers, d.currentUsers[s].inboundTag, s); }
  }

  /** The steps about inbounds that are listed, and these inbounds. */
  lemma RestorableSteps(d: Diffs, ids: set<string>)
    requires d.Valid(ids)
    ensures UpdatesRestorable(d) <==> forall step | step in d.Steps() && UpdatesInbound(step) :: StepRestorable(step)
    ensures DeletesRestorable(d) <==> forall step | step in d.Steps() && DeletesInbound(step) :: StepRestorable(step)
  {
    StepsForHolds(d.inbounds, d.users);
    hide StepsFor, Listable, Desirable, Restorable;
    forall tag | tag in d.currentInbounds && tag !in d.desiredInbounds
      ensures InboundStep(Change(Delete, d.currentInbounds[tag], Some(d.currentInbounds[tag]))) in d.Steps()
    {
      assert Expected(d.desiredInbounds, d.currentInbounds, tag).Some?;
    }
    forall tag | tag in d.currentInbounds && tag in d.desiredInbounds && d.currentInbounds[tag] != d.desiredInbounds[tag]
      ensures InboundStep(Change(Update, d.desiredInbounds[tag], Some(d.currentInbounds[tag]))) in d.Steps()
    {
      assert Expected(d.desiredInbounds, d.currentInbounds, tag).Some?;
    }
    forall step | step in d.Steps() && step.InboundStep?
      ensures Expected(d.desiredInbounds, d.currentInbounds, InboundKey(step.inbound.item)) == Some(step.inbound)
    {
    }
  }

  lemma TriedRecorded(d: Diffs, ids: set<string>)
    requires d.Valid(ids)
    ensures (forall step | step in d.Steps()[..FirstMove(d.Steps())] :: Recorded(step, StateView(d.currentInbounds, d.currentUsers), ids)) <==>
            UpdatesRestorable(d) && (d.NobodyMoves() ==> DeletesRestorable(d))
  {
    var steps, now := d.Steps(), StateView(d.currentInbounds, d.currentUsers);
    MovesOfDiff(d, ids);
    DiffOrdered(d, ids);
    RestorableSteps(d, ids);
    hide StepsFor, StateView, Recorded, Moves, DistinctKeys, UpdatesRestorable, DeletesRestorable;
    forall step | step in steps ensures Recorded(step, now, ids) <==> StepRestorable(step) {
      StateRecorded(d, ids, step);
    }
    forall step ensures !StepRestorable(step) ==> UpdatesInbound(step) || DeletesInbound(step) {
    }
    hide Diffs.Valid, Diffs.Steps, Diffs.NobodyMoves, StepRestorable, UpdatesInbound, DeletesInbound;
    assert forall step | step in steps[..FirstMove(steps)] :: step in steps;
    if d.NobodyMoves() {
      assert steps[..FirstMove(steps)] == steps;
    } else {
      TriedBeforeMove(steps);
    }
  }

  /** Executing the plan of a diff, from a file that shows the current state as it is
      listed. All steps apply exactly when nobody moves; the file then shows the
      desired state exactly if no inbound that stays loses all its options. Otherwise
      the config is as before and no rollback fails, exactly when no updated inbound is
      listed with users or has been given its first options, and, if the run came
      to deletes of inbounds, none of those is listed with users. */
  lemma PlanIsAtomic(d: Diffs, ids: set<string>, file: File, reload: bool, again: bool)
    requires d.Valid(ids) && "" !in ids && Shows(file, d.Scope(ids), StateView(d.currentInbounds, d.currentUsers))
    ensures var (after, outcome) := Executed(true, d.Steps(), file, reload, again);
      && (outcome.Applied? <==> d.NobodyMoves() && (reload || d.NothingToDo()))
      && (outcome.Applied? ==> (Shows(after, d.Scope(ids), StateView(d.desiredInbounds, d.desiredUsers)) <==> OptionsStay(d)))
      && (!outcome.Applied? ==>
            (Unchanged(file, after) && !RollbackFailed(outcome) <==>
             UpdatesRestorable(d) && (d.NobodyMoves() ==> DeletesRestorable(d))))
  {
    StateKeys(d.currentInbounds, d.currentUsers);
    StateGoal(d, ids);
    TriedRecorded(d, ids);
    hide Executed, StepsFor, StateView, Recorded, Moves, Unchanged, Sound, ViewConfig, OptionsStay, UpdatesRestorable, DeletesRestorable;
    ReconcilesExactly(d, ids, StateView(d.currentInbounds, d.currentUsers), file, reload, again);
  }

  /** The promise of rollback on failure does not hold for a plan made against an
      outdated state: the create below fails because the inbound exists, and its
      own rollback then deletes it, while the reported outcome says that only the
      step failed. `FailingStepRollback` says which failing steps are harmless. */
  lemma StalePlanLosesInbound()
    ensures var config := map["inbounds" := Arr([Obj(map["tag" := Str("a")])])];
      var step := InboundStep(Change(Create, Inbound("a", "vless", "", 0, map[]), None));
      Executed(true, [step], Some(Obj(config)), true, true) ==
        (Some(Obj(map["inbounds" := Arr([])])), StepFailed(0, InboundExists("a")))
  {
    var entry := Obj(map["tag" := Str("a")]);
    var config := map["inbounds" := Arr([entry])];
    var step := InboundStep(Change(Create, Inbound("a", "vless", "", 0, map[]), None));
    var file := Some(Obj(config));
    assert Selects(ByTag("a"), entry);
    assert Lookup([entry], ByTag("a")) == Some(entry);
    assert Reject([entry], ByTag("a")) == [];
    assert Tried(true, file, ExecuteEdit(step)) == (file, Some(InboundExists("a")));
    assert config["inbounds" := Arr([])] == map["inbounds" := Arr([])];
    var after := Some(Obj(map["inbounds" := Arr([])]));
    assert Tried(true, file, RollbackEdit(step)) == (after, None);
    assert Run(true, [step], file) == Progress(file, 1, Some(InboundExists("a")));
    assert [step][..1] == [step] && [step][..0] == [];
    assert Unwind(true, [step], file) == (after, None);
  }
}
