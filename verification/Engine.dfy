/** Reconcile and Apply: list the current state, diff, plan, execute. */
module Engine {
  import opened Wrappers
  import opened Json
  import opened Models
  import opened Diff
  import opened Plan
  import opened Rollback
  import opened Reconcile
  import opened Relisting
  import Client = ClientEdits
  import Manager = ConfigManager
  import StatsUsers
  import RestClient
  import SyncView

  /** What the client lists does not depend on the empty list it puts in for a missing one. */
  lemma ListedAsLoaded(m: Object)
    ensures var root := StatsUsers.LoadRootConfig(Some(Obj(m))).value;
      ListedInbounds(root) == ListedInbounds(m) && ListedUsers(root) == ListedUsers(m)
  {
    var root := StatsUsers.LoadRootConfig(Some(Obj(m))).value;
    assert Client.GetInbounds(root) == Client.GetInbounds(m);
  }

  /** The plan for a desired state and what the client lists, or the client's error. The
      lock is not held between the two listings, so the client is given as it finds the
      file when it lists inbounds, and when it lists users. */
  method MakePlan(desiredInbounds: seq<Inbound>, desiredUsers: seq<User>,
                  first: RestClient.ConfigClient, second: RestClient.ConfigClient, manager: Manager.ConfigManager?)
    returns (plan: Result<Plan, Client.Error>)
    ensures match (StatsUsers.LoadRootConfig(first.file), StatsUsers.LoadRootConfig(second.file))
            case (Err(e), _) => plan == Err(e)
            case (Ok(_), Err(e)) => plan == Err(e)
            case (Ok(root), Ok(later)) =>
              && plan.Ok? && plan.value.configManager == manager && fresh(plan.value)
              && plan.value.steps == StepsFor(plan.value.inboundChanges, plan.value.userChanges)
              && IsDiff(InboundKey, ByKey(InboundKey, desiredInbounds), ListedInbounds(root), plan.value.inboundChanges)
              && IsDiff(UserKey, ByKey(UserKey, desiredUsers), ListedUsers(later), plan.value.userChanges)
  {
    var currentInbounds := first.GetInbounds();
    if currentInbounds.Err? { return Err(currentInbounds.error); }
    var currentUsers := second.GetUsers();
    if currentUsers.Err? { return Err(currentUsers.error); }
    var inbounds := DiffInbounds(desiredInbounds, currentInbounds.value);
    var users := DiffUsers(desiredUsers, currentUsers.value);
    var p := new Plan(inbounds, users, manager);
    return Ok(p);
  }

  /** Applied exactly when nobody moves and the reload succeeds or is not needed, with
      what is desired wherever it differs from the listing; otherwise the config is as
      before, and no rollback fails, exactly under the given condition. */
  ghost predicate Reconciled(d: Diffs, before: Manager.File, after: Manager.File, outcome: Outcome, ids: set<string>,
                             reload: bool, undone: bool)
  {
    && before.Some? && before.value.Obj?
    && (outcome.Applied? <==> d.NobodyMoves() && (reload || d.NothingToDo()))
    && (outcome.Applied? ==> Shows(after, d.Scope(ids), d.Goal(SyncView.ViewConfig(before.value.fields, ids))))
    && (!outcome.Applied? ==> (Unchanged(before, after) && !RollbackFailed(outcome) <==> undone))
  }

  /** One reconciliation from end to end, whatever the file is at the two listings and at
      the execution. It is undone on failure exactly when every tried step has recorded
      what puts back what the manager found; when the file is tidy and has not changed
      since the listings, exactly when what the tried steps meet in it can be put back. */
  method ReconcileAndApply(desiredInbounds: seq<Inbound>, desiredUsers: seq<User>,
                           first: RestClient.ConfigClient, second: RestClient.ConfigClient, manager: Manager.ConfigManager,
                           reload: bool, again: bool, ghost ids: set<string>)
    returns (result: Result<Outcome, Client.Error>, ghost d: Diffs)
    modifies manager
    ensures match (StatsUsers.LoadRootConfig(first.file), StatsUsers.LoadRootConfig(second.file))
            case (Err(e), _) => result == Err(e) && manager.file == old(manager.file)
            case (Ok(_), Err(e)) => result == Err(e) && manager.file == old(manager.file)
            case (Ok(root), Ok(later)) =>
              && result.Ok? && (manager.file, result.value) == Executed(true, d.Steps(), old(manager.file), reload, again)
              && d == Diffs(ByKey(InboundKey, desiredInbounds), ListedInbounds(root), ByKey(UserKey, desiredUsers), ListedUsers(later),
                            d.inbounds, d.users)
              && IsDiff(InboundKey, d.desiredInbounds, d.currentInbounds, d.inbounds)
              && IsDiff(UserKey, d.desiredUsers, d.currentUsers, d.users)
    ensures result.Ok? && d.Valid(ids) && "" !in ids && old(manager.file).Some? && old(manager.file).value.Obj? ==>
              var m := old(manager.file).value.fields;
              SyncView.Sound(m, d.Scope(ids)) && KeysOf(d.currentInbounds, d.currentUsers, SyncView.ViewConfig(m, ids)) ==>
                Reconciled(d, old(manager.file), manager.file, result.value, ids, reload,
                           forall step | step in d.Steps()[..FirstMove(d.Steps())] :: Recorded(step, SyncView.ViewConfig(m, ids), ids))
    ensures result.Ok? && first.file == second.file == old(manager.file) && "" !in ids &&
            Desirable(d.desiredInbounds, d.desiredUsers, ids) && Tidy(old(manager.file).value.fields, ids) ==>
              Reconciled(d, old(manager.file), manager.file, result.value, ids, reload,
                         forall step | step in d.Steps()[..FirstMove(d.Steps())] :: PutBack(step, old(manager.file).value.fields, ids))
  {
    hide Executed, StepsFor, IsDiff, Reconciled, ListedInbounds, ListedUsers, PutBack, Recorded, Tidy, Desirable, Diffs.Valid, KeysOf,
         SyncView.Sound, SyncView.ViewConfig, FirstMove, ByKey;
    var made := MakePlan(desiredInbounds, desiredUsers, first, second, manager);
    d := Diffs(map[], map[], map[], map[], [], []);
    if made.Err? { return Err(made.error), d; }
    var plan := made.value;
    d := Diffs(ByKey(InboundKey, desiredInbounds), ListedInbounds(StatsUsers.LoadRootConfig(first.file).value),
               ByKey(UserKey, desiredUsers), ListedUsers(StatsUsers.LoadRootConfig(second.file).value),
               plan.inboundChanges, plan.userChanges);
    ghost var file := manager.file;
    var outcome := plan.Execute(reload, again);
    ByDiff(d, ids, file, reload, again);
    if first.file == second.file == file {
      ByListing(d, ids, file, reload, again);
    }
    return Ok(outcome), d;
  }

  lemma ByDiff(d: Diffs, ids: set<string>, file: Manager.File, reload: bool, again: bool)
    ensures d.Valid(ids) && "" !in ids && file.Some? && file.value.Obj? ==>
              var m := file.value.fields;
              SyncView.Sound(m, d.Scope(ids)) && KeysOf(d.currentInbounds, d.currentUsers, SyncView.ViewConfig(m, ids)) ==>
                var (after, outcome) := Executed(true, d.Steps(), file, reload, again);
                Reconciled(d, file, after, outcome, ids, reload,
                           forall step | step in d.Steps()[..FirstMove(d.Steps())] :: Recorded(step, SyncView.ViewConfig(m, ids), ids))
  {
    hide Executed, StepsFor, Recorded, SyncView.ViewConfig, SyncView.Sound, Diffs.Valid, KeysOf, Unchanged;
    if d.Valid(ids) && "" !in ids && file.Some? && file.value.Obj? && SyncView.Sound(file.value.fields, d.Scope(ids)) &&
       KeysOf(d.currentInbounds, d.currentUsers, SyncView.ViewConfig(file.value.fields, ids)) {
      ReconcilesExactly(d, ids, SyncView.ViewConfig(file.value.fields, ids), file, reload, again);
    }
  }

  lemma ByListing(d: Diffs, ids: set<string>, file: Manager.File, reload: bool, again: bool)
    requires StatsUsers.LoadRootConfig(file).Ok?
    requires var root := StatsUsers.LoadRootConfig(file).value;
             d.currentInbounds == ListedInbounds(root) && d.currentUsers == ListedUsers(root)
    requires IsDiff(InboundKey, d.desiredInbounds, d.currentInbounds, d.inbounds)
    requires IsDiff(UserKey, d.desiredUsers, d.currentUsers, d.users)
    ensures "" !in ids && Desirable(d.desiredInbounds, d.desiredUsers, ids) && Tidy(file.value.fields, ids) ==>
              var (after, outcome) := Executed(true, d.Steps(), file, reload, again);
              Reconciled(d, file, after, outcome, ids, reload,
                         forall step | step in d.Steps()[..FirstMove(d.Steps())] :: PutBack(step, file.value.fields, ids))
  {
    hide Executed, StepsFor, PutBack, SyncView.ViewConfig, Tidy, Desirable, Unchanged, IsDiff, Shows, ListedInbounds, ListedUsers;
    var m := file.value.fields;
    ListedAsLoaded(m);
    if "" !in ids && Desirable(d.desiredInbounds, d.desiredUsers, ids) && Tidy(m, ids) {
      OwnListingExactly(d, m, ids, reload, again);
    }
  }
}
