/** The sync plan: changes ordered into steps, steps run one by one, and the
    executed ones unwound in reverse on failure. */
module Plan {
  import opened Wrappers
  import opened Diff
  import opened ConfigManager

  datatype Step = InboundStep(inbound: InboundChange) | UserStep(user: UserChange)

  function InboundSteps(changes: seq<InboundChange>, kind: ChangeType): seq<Step> {
    if changes == [] then []
    else
      var last := |changes| - 1;
      InboundSteps(changes[..last], kind) + if changes[last].kind == kind then [InboundStep(changes[last])] else []
  }

  function UserSteps(changes: seq<UserChange>, kind: ChangeType): seq<Step> {
    if changes == [] then []
    else
      var last := |changes| - 1;
      UserSteps(changes[..last], kind) + if changes[last].kind == kind then [UserStep(changes[last])] else []
  }

  /** Inbounds before the users in them, and users before the inbounds that go. */
  function StepsFor(inbounds: seq<InboundChange>, users: seq<UserChange>): seq<Step> {
    InboundSteps(inbounds, Create) + InboundSteps(inbounds, Update) +
    UserSteps(users, Create) + UserSteps(users, Update) + UserSteps(users, Delete) +
    InboundSteps(inbounds, Delete)
  }

  /** The edit a step makes. */
  function ExecuteEdit(step: Step): Result<Edit, Error> {
    match step
    case InboundStep(Change(Create, ib, _)) => Ok(AddInbound(ib))
    case InboundStep(Change(Update, ib, _)) => Ok(UpdateInbound(ib))
    case InboundStep(Change(Delete, ib, _)) => Ok(DeleteInbound(ib.tag))
    case UserStep(Change(Create, u, _)) => Ok(AddUser(u.inboundTag, u))
    case UserStep(Change(Update, u, _)) => Ok(UpdateUser(u.inboundTag, u))
    case UserStep(Change(Delete, u, _)) => Ok(DeleteUser(u.inboundTag, u.subID))
    case _ => Err(UnknownChangeType)
  }

  /** The edit that takes a step back. */
  function RollbackEdit(step: Step): Result<Edit, Error> {
    match step
    case InboundStep(Change(Create, ib, _)) => Ok(DeleteInbound(ib.tag))
    case InboundStep(Change(Update, _, Some(prev))) => Ok(UpdateInbound(prev))
    case InboundStep(Change(Delete, _, Some(prev))) => Ok(AddInbound(prev))
    case UserStep(Change(Create, u, _)) => Ok(DeleteUser(u.inboundTag, u.subID))
    case UserStep(Change(Update, _, Some(prev))) => Ok(UpdateUser(prev.inboundTag, prev))
    case UserStep(Change(Delete, _, Some(prev))) => Ok(AddUser(prev.inboundTag, prev))
    case InboundStep(Change(Unknown(_), _, _)) => Err(UnknownChangeType)
    case UserStep(Change(Unknown(_), _, _)) => Err(UnknownChangeType)
    case _ => Err(MissingPrevious)
  }

  /** The file and the error after trying an edit; without a manager nothing is edited. */
  function Tried(managed: bool, file: File, edit: Result<Edit, Error>): (File, Option<Error>) {
    if edit == Err(UnknownChangeType) then (file, Some(UnknownChangeType))
    else if !managed then (file, Some(NoConfigManager))
    else
      match edit
      case Err(e) => (file, Some(e))
      case Ok(e) => Committed(file, e)
  }

  /** What running the steps leaves: the file, how many steps were tried, and the
      error of the last one tried. */
  datatype Progress = Progress(file: File, tried: nat, err: Option<Error>)

  function Run(managed: bool, steps: seq<Step>, file: File): (p: Progress)
    ensures p.tried <= |steps|
    ensures p.err.None? ==> p.tried == |steps|
    ensures p.err.Some? ==> p.tried > 0
  {
    if steps == [] then Progress(file, 0, None)
    else
      var (next, err) := Tried(managed, file, ExecuteEdit(steps[0]));
      if err.Some? then Progress(next, 1, err)
      else
        After(Run(managed, steps[1..], next), 1)
  }

  /** The same progress, counted from a later start. */
  function After(p: Progress, n: nat): Progress {
    Progress(p.file, p.tried + n, p.err)
  }

  /** Takes steps back from the last to the first, stopping at the first failure. */
  function Unwind(managed: bool, steps: seq<Step>, file: File): (File, Option<Error>) {
    if steps == [] then (file, None)
    else
      var last := |steps| - 1;
      var (next, err) := Tried(managed, file, RollbackEdit(steps[last]));
      if err.Some? then (next, err) else Unwind(managed, steps[..last], next)
  }

  datatype Outcome =
    | Applied
    | StepFailed(step: nat, err: Error)
    | StepAndRollbackFailed(err: Error, rollback: Error)
    | ReloadFailed
    | ReloadAndRollbackFailed(rollback: Error)
    | RollbackReloadFailed

  /** The whole of Execute, for the given answers of the reloader. */
  function Executed(managed: bool, steps: seq<Step>, file: File, reload: bool, again: bool): (File, Outcome) {
    var p := Run(managed, steps, file);
    if p.err.Some? then
      var (back, rollback) := Unwind(managed, steps[..p.tried], p.file);
      (back, if rollback.Some? then StepAndRollbackFailed(p.err.value, rollback.value)
             else StepFailed(p.tried - 1, p.err.value))
    else if steps == [] || reload then (p.file, Applied)
    else
      var (back, rollback) := Unwind(managed, steps, p.file);
      (back, if rollback.Some? then ReloadAndRollbackFailed(rollback.value)
             else if again then ReloadFailed else RollbackReloadFailed)
  }

  class Plan {
    const inboundChanges: seq<InboundChange>
    const userChanges: seq<UserChange>
    const configManager: ConfigManager?
    var steps: seq<Step>

    constructor (inboundChanges: seq<InboundChange>, userChanges: seq<UserChange>, configManager: ConfigManager?)
      ensures this.inboundChanges == inboundChanges && this.userChanges == userChanges
      ensures this.configManager == configManager
      ensures steps == StepsFor(inboundChanges, userChanges)
    {
      this.inboundChanges, this.userChanges, this.configManager := inboundChanges, userChanges, configManager;
      new;
      BuildSteps();
    }

    method BuildSteps()
      modifies this
      ensures steps == StepsFor(inboundChanges, userChanges)
    {
      steps := [];
      AppendInboundSteps(Create);
      AppendInboundSteps(Update);
      AppendUserSteps(Create);
      AppendUserSteps(Update);
      AppendUserSteps(Delete);
      AppendInboundSteps(Delete);
    }

    method AppendInboundSteps(kind: ChangeType)
      modifies this
      ensures steps == old(steps) + InboundSteps(inboundChanges, kind)
    {
      for i := 0 to |inboundChanges|
        invariant steps == old(steps) + InboundSteps(inboundChanges[..i], kind)
      {
        assert inboundChanges[..i + 1][..i] == inboundChanges[..i];
        if inboundChanges[i].kind == kind {
          steps := steps + [InboundStep(inboundChanges[i])];
        }
      }
      assert inboundChanges[..|inboundChanges|] == inboundChanges;
    }

    method AppendUserSteps(kind: ChangeType)
      modifies this
      ensures steps == old(steps) + UserSteps(userChanges, kind)
    {
      for i := 0 to |userChanges|
        invariant steps == old(steps) + UserSteps(userChanges[..i], kind)
      {
        assert userChanges[..i + 1][..i] == userChanges[..i];
        if userChanges[i].kind == kind {
          steps := steps + [UserStep(userChanges[i])];
        }
      }
      assert userChanges[..|userChanges|] == userChanges;
    }

    /** The manager's file; nothing when there is no manager. */
    function StoredFile(): File
      reads configManager
    {
      if configManager == null then None else configManager.file
    }

    /** Runs one edit of a step through the manager. */
    method Try(edit: Result<Edit, Error>) returns (err: Option<Error>)
      modifies configManager
      ensures (StoredFile(), err) == Tried(configManager != null, old(StoredFile()), edit)
    {
      if edit.Err? && edit.error.UnknownChangeType? { return Some(UnknownChangeType); }
      if configManager == null { return Some(NoConfigManager); }
      match edit
      case Err(e) => err := Some(e);
      case Ok(AddUser(tag, user)) => err := configManager.AddUser(tag, user);
      case Ok(UpdateUser(tag, user)) => err := configManager.UpdateUser(tag, user);
      case Ok(DeleteUser(tag, subID)) => err := configManager.DeleteUser(tag, subID);
      case Ok(AddInbound(inbound)) => err := configManager.AddInbound(inbound);
      case Ok(UpdateInbound(inbound)) => err := configManager.UpdateInbound(inbound);
      case Ok(DeleteInbound(tag)) => err := configManager.DeleteInbound(tag);
    }

    /** Runs all steps and reloads; `reload` and `again` are the reloader's first
        and second answer. */
    method Execute(reload: bool, again: bool) returns (outcome: Outcome)
      modifies configManager
      ensures (StoredFile(), outcome) == Executed(configManager != null, steps, old(StoredFile()), reload, again)
    {
      var executed, failure := RunSteps();
      if failure.Some? {
        var rollbackErr := RollbackExecuted(executed);
        return if rollbackErr.Some? then StepAndRollbackFailed(failure.value, rollbackErr.value)
               else StepFailed(|executed| - 1, failure.value);
      }
      assert steps[..|steps|] == steps;
      if |executed| > 0 {
        if !reload {
          var rollbackErr := RollbackExecuted(executed);
          return if rollbackErr.Some? then ReloadAndRollbackFailed(rollbackErr.value)
                 else if again then ReloadFailed else RollbackReloadFailed;
        }
      }
      return Applied;
    }

    /** The loop of Execute: a step is recorded as executed before it is tried. */
    method RunSteps() returns (executed: seq<Step>, err: Option<Error>)
      modifies configManager
      ensures Run(configManager != null, steps, old(StoredFile())) == Progress(StoredFile(), |executed|, err)
      ensures |executed| <= |steps| && executed == steps[..|executed|]
    {
      executed := [];
      ghost var managed := configManager != null;
      assert steps[0..] == steps;
      for i := 0 to |steps|
        invariant executed == steps[..i]
        invariant Run(managed, steps, old(StoredFile())) == After(Run(managed, steps[i..], StoredFile()), i)
      {
        assert steps[i..][1..] == steps[i + 1..];
        assert steps[..i + 1] == steps[..i] + [steps[i]];
        executed := executed + [steps[i]];
        err := Try(ExecuteEdit(steps[i]));
        if err.Some? { return; }
      }
      err := None;
    }

    method RollbackExecuted(executed: seq<Step>) returns (err: Option<Error>)
      modifies configManager
      ensures (StoredFile(), err) == Unwind(configManager != null, executed, old(StoredFile()))
    {
      var i := |executed|;
      assert executed[..i] == executed;
      while i > 0
        invariant 0 <= i <= |executed|
        invariant Unwind(configManager != null, executed[..i], StoredFile()) ==
                  Unwind(configManager != null, executed, old(StoredFile()))
      {
        assert executed[..i][..i - 1] == executed[..i - 1];
        var e := Try(RollbackEdit(executed[i - 1]));
        if e.Some? { return e; }
        i := i - 1;
      }
      return None;
    }
  }

  // The order of the steps.

  /** Position of a step's kind in the plan. */
  function Rank(step: Step): nat {
    match step
    case InboundStep(c) => if c.kind.Create? then 0 else if c.kind.Update? then 1 else 5
    case UserStep(c) => if c.kind.Create? then 2 else if c.kind.Update? then 3 else 4
  }

  lemma {:induction false} InboundStepsHold(changes: seq<InboundChange>, kind: ChangeType)
    ensures forall s :: s in InboundSteps(changes, kind) <==> s.InboundStep? && s.inbound.kind == kind && s.inbound in changes
  {
    if changes != [] {
      var last := |changes| - 1;
      InboundStepsHold(changes[..last], kind);
      assert changes == changes[..last] + [changes[last]];
    }
  }

  lemma {:induction false} UserStepsHold(changes: seq<UserChange>, kind: ChangeType)
    ensures forall s :: s in UserSteps(changes, kind) <==> s.UserStep? && s.user.kind == kind && s.user in changes
  {
    if changes != [] {
      var last := |changes| - 1;
      UserStepsHold(changes[..last], kind);
      assert changes == changes[..last] + [changes[last]];
    }
  }

  lemma {:induction false} InboundStepsCount(changes: seq<InboundChange>, kind: ChangeType, step: Step)
    ensures multiset(InboundSteps(changes, kind))[step] ==
            if step.InboundStep? && step.inbound.kind == kind then multiset(changes)[step.inbound] else 0
  {
    if changes != [] {
      var last := |changes| - 1;
      InboundStepsCount(changes[..last], kind, step);
      assert changes == changes[..last] + [changes[last]];
    }
  }

  lemma {:induction false} UserStepsCount(changes: seq<UserChange>, kind: ChangeType, step: Step)
    ensures multiset(UserSteps(changes, kind))[step] ==
            if step.UserStep? && step.user.kind == kind then multiset(changes)[step.user] else 0
  {
    if changes != [] {
      var last := |changes| - 1;
      UserStepsCount(changes[..last], kind, step);
      assert changes == changes[..last] + [changes[last]];
    }
  }

  /** Building the steps loses, repeats and invents nothing: each change of a
      known type is a step as often as it was given. */
  lemma StepsForCount(inbounds: seq<InboundChange>, users: seq<UserChange>, step: Step)
    ensures multiset(StepsFor(inbounds, users))[step] ==
            match step
            case InboundStep(c) => if c.kind.Unknown? then 0 else multiset(inbounds)[c]
            case UserStep(c) => if c.kind.Unknown? then 0 else multiset(users)[c]
  {
    InboundStepsCount(inbounds, Create, step);
    InboundStepsCount(inbounds, Update, step);
    InboundStepsCount(inbounds, Delete, step);
    UserStepsCount(users, Create, step);
    UserStepsCount(users, Update, step);
    UserStepsCount(users, Delete, step);
  }

  /** Within a kind the order is that of the changes. */
  lemma StepsSnoc(inbounds: seq<InboundChange>, ib: InboundChange, users: seq<UserChange>, u: UserChange, kind: ChangeType)
    ensures InboundSteps([], kind) == UserSteps([], kind) == []
    ensures InboundSteps(inbounds + [ib], kind) == InboundSteps(inbounds, kind) + if ib.kind == kind then [InboundStep(ib)] else []
    ensures UserSteps(users + [u], kind) == UserSteps(users, kind) + if u.kind == kind then [UserStep(u)] else []
  {
    assert (inbounds + [ib])[..|inbounds|] == inbounds && (users + [u])[..|users|] == users;
  }

  ghost predicate Sorted(steps: seq<Step>) {
    forall i, j | 0 <= i < j < |steps| :: Rank(steps[i]) <= Rank(steps[j])
  }

  lemma SortedConcat(a: seq<Step>, b: seq<Step>, rank: nat)
    requires Sorted(a) && forall x | x in a :: Rank(x) <= rank
    requires forall y | y in b :: Rank(y) == rank
    ensures Sorted(a + b) && forall x | x in a + b :: Rank(x) <= rank
  {
    hide Rank;
  }

  /** ... and they come in the order of their kinds, whatever the changes are. */
  lemma StepsForSorted(inbounds: seq<InboundChange>, users: seq<UserChange>)
    ensures Sorted(StepsFor(inbounds, users))
  {
    InboundStepsHold(inbounds, Create);
    InboundStepsHold(inbounds, Update);
    InboundStepsHold(inbounds, Delete);
    UserStepsHold(users, Create);
    UserStepsHold(users, Update);
    UserStepsHold(users, Delete);
    hide InboundSteps, UserSteps;
    assert Sorted([]);
    hide Sorted;
    var a := InboundSteps(inbounds, Create);
    SortedConcat([], a, 0);
    assert [] + a == a;
    var b := a + InboundSteps(inbounds, Update);
    SortedConcat(a, InboundSteps(inbounds, Update), 1);
    var c := b + UserSteps(users, Create);
    SortedConcat(b, UserSteps(users, Create), 2);
    var d := c + UserSteps(users, Update);
    SortedConcat(c, UserSteps(users, Update), 3);
    var e := d + UserSteps(users, Delete);
    SortedConcat(d, UserSteps(users, Delete), 4);
    SortedConcat(e, InboundSteps(inbounds, Delete), 5);
  }

  // What an execution leaves, step by step.

  /** The files before and after each of the first steps tried, none of which fails but
      possibly the last. */
  ghost predicate RunThrough(managed: bool, steps: seq<Step>, files: seq<File>) {
    && 1 <= |files| <= |steps| + 1
    && (forall i | 0 <= i < |files| - 1 :: Tried(managed, files[i], ExecuteEdit(steps[i])).0 == files[i + 1])
    && (forall i | 0 <= i < |files| - 2 :: Tried(managed, files[i], ExecuteEdit(steps[i])).1 == None)
  }

  /** The files when the steps are taken back from the last one on. */
  ghost predicate UnwoundThrough(managed: bool, steps: seq<Step>, files: seq<File>) {
    && 1 <= |files| <= |steps| + 1
    && (forall i | 0 <= i < |files| - 1 :: Tried(managed, files[i], RollbackEdit(steps[|steps| - 1 - i])).0 == files[i + 1])
    && (forall i | 0 <= i < |files| - 2 :: Tried(managed, files[i], RollbackEdit(steps[|steps| - 1 - i])).1 == None)
  }

  /** The error of the last step tried. */
  function LastTried(managed: bool, steps: seq<Step>, files: seq<File>): Option<Error>
    requires 1 <= |files| <= |steps| + 1
  {
    if |files| == 1 then None else Tried(managed, files[|files| - 2], ExecuteEdit(steps[|files| - 2])).1
  }

  function LastUnwound(managed: bool, steps: seq<Step>, files: seq<File>): Option<Error>
    requires 1 <= |files| <= |steps| + 1
  {
    if |files| == 1 then None else Tried(managed, files[|files| - 2], RollbackEdit(steps[|steps| + 1 - |files|])).1
  }

  lemma {:induction false} RunTraced(managed: bool, steps: seq<Step>, file: File) returns (files: seq<File>)
    ensures RunThrough(managed, steps, files) && files[0] == file
    ensures Run(managed, steps, file) == Progress(files[|files| - 1], |files| - 1, LastTried(managed, steps, files))
  {
    hide Tried, ExecuteEdit;
    files := [file];
    if steps != [] {
      var (next, err) := Tried(managed, file, ExecuteEdit(steps[0]));
      if err.Some? {
        files := [file, next];
      } else {
        var rest := RunTraced(managed, steps[1..], next);
        files := [file] + rest;
        assert forall i | 0 < i < |files| :: files[i] == rest[i - 1];
      }
    }
  }

  lemma {:induction false} UnwindTraced(managed: bool, steps: seq<Step>, file: File) returns (files: seq<File>)
    ensures UnwoundThrough(managed, steps, files) && files[0] == file
    ensures Unwind(managed, steps, file) == (files[|files| - 1], LastUnwound(managed, steps, files))
    ensures LastUnwound(managed, steps, files) == None ==> |files| == |steps| + 1
  {
    hide Tried, RollbackEdit;
    files := [file];
    if steps != [] {
      var last := |steps| - 1;
      var (next, err) := Tried(managed, file, RollbackEdit(steps[last]));
      if err.Some? {
        files := [file, next];
      } else {
        var rest := UnwindTraced(managed, steps[..last], next);
        UnwoundBefore(managed, steps, file, rest);
        hide UnwoundThrough, LastUnwound;
        files := [file] + rest;
      }
    }
  }

  lemma UnwoundBefore(managed: bool, steps: seq<Step>, file: File, rest: seq<File>)
    requires steps != [] && UnwoundThrough(managed, steps[..|steps| - 1], rest)
    requires Tried(managed, file, RollbackEdit(steps[|steps| - 1])) == (rest[0], None)
    ensures UnwoundThrough(managed, steps, [file] + rest)
    ensures LastUnwound(managed, steps, [file] + rest) == LastUnwound(managed, steps[..|steps| - 1], rest)
  {
    hide Tried, RollbackEdit;
    var files := [file] + rest;
    assert forall i | 0 < i < |files| :: files[i] == rest[i - 1];
  }

  /** Steps are tried up to the first that fails, or all. Then, if one has failed or the
      reload has, all that were tried are taken back from the last one on, up to the first
      that cannot be; the outcome tells which step failed, with which error, and how far
      the way back went. */
  lemma ExecutedExactly(managed: bool, steps: seq<Step>, file: File, reload: bool, again: bool)
    returns (files: seq<File>, back: seq<File>)
    ensures RunThrough(managed, steps, files) && files[0] == file
    ensures var tried := |files| - 1;
      && var failed := LastTried(managed, steps, files);
      && (failed == None ==> tried == |steps|)
      && UnwoundThrough(managed, steps[..tried], back) && back[0] == files[tried]
      && var stuck := LastUnwound(managed, steps[..tried], back);
      && (stuck == None ==> |back| == tried + 1)
      && Executed(managed, steps, file, reload, again) ==
         (match (failed, stuck)
          case (Some(e), Some(r)) => (back[|back| - 1], StepAndRollbackFailed(e, r))
          case (Some(e), None) => (back[|back| - 1], StepFailed(tried - 1, e))
          case (None, Some(r)) => if reload then (files[tried], Applied) else (back[|back| - 1], ReloadAndRollbackFailed(r))
          case (None, None) =>
            if reload || steps == [] then (files[tried], Applied)
            else (back[|back| - 1], if again then ReloadFailed else RollbackReloadFailed))
  {
    files := RunTraced(managed, steps, file);
    back := UnwindTraced(managed, steps[..|files| - 1], files[|files| - 1]);
    assert steps[..|steps|] == steps;
    hide Run, Unwind, RunThrough, UnwoundThrough, Tried;
  }

  /** Without a manager nothing is edited: an empty plan is applied, and the first step of
      any other cannot be executed and not be taken back. */
  lemma UnmanagedExactly(steps: seq<Step>, file: File, reload: bool, again: bool)
    ensures Executed(false, steps, file, reload, again) ==
            if steps == [] then (file, Applied)
            else
              var kind := match steps[0] case InboundStep(c) => c.kind case UserStep(c) => c.kind;
              var e := if kind.Unknown? then UnknownChangeType else NoConfigManager;
              (file, StepAndRollbackFailed(e, e))
  {
    if steps != [] {
      assert steps[..1] == [steps[0]] && [steps[0]][..0] == [];
    }
  }

  /** A step of a kind that is not known fails both ways; one that updates or deletes
      without saying what was there before cannot be taken back. */
  lemma StepsUndone(step: Step, file: File)
    ensures var (kind, previous) := match step
                                    case InboundStep(c) => (c.kind, c.previous.Some?)
                                    case UserStep(c) => (c.kind, c.previous.Some?);
      && (ExecuteEdit(step) == Err(UnknownChangeType) <==> kind.Unknown?)
      && (RollbackEdit(step).Ok? <==> kind.Create? || ((kind.Update? || kind.Delete?) && previous))
      && (RollbackEdit(step).Err? ==>
            Tried(true, file, RollbackEdit(step)) == (file, Some(if kind.Unknown? then UnknownChangeType else MissingPrevious)))
  {
  }
}
