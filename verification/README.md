# Verification model of the sing-box agent

The agent keeps one sing-box configuration file. Two writers change it: a REST client with a debounced
reload, and a desired-state manager that executes reconciliation plans. Around the file stand a
hand-written protobuf codec for traffic statistics, replay protection, an idempotency store, retries
and traffic counters. This project models that core in Dafny and proves what it keeps.

| Modules | Subject |
|---|---|
| `Wrappers`, `Sets`, `Json`, `Entries`, `Models` | option and result types, JSON trees, keyed lists, inbounds and users |
| `Diff`, `ConfigManager`, `ManagerEdits`, `Plan`, `SyncView`, `ConfigShown`, `Rollback`, `Reconcile`, `Relisting`, `Engine` | desired-state reconciliation |
| `ClientEdits`, `InboundListing`, `StatsUsers`, `RestClient` | the REST client's edits of the config tree |
| `CfgLock`, `Debounce`, `TwoWriters` | the path lock and the two-writer protocol |
| `Wire`, `Messages`, `Layout`, `Codec` | the protobuf codec |
| `NonceCache`, `Auth`, `Idempotency` | bounded, expiring tables |
| `Retry`, `Metrics` | backoff and counters |

Code that updates state is a class or a method with the original's loops, proved against a function of
the old state (`Committed`, `Executed`, `Served`, `Decode`, `Checked`, `Put`); the theorems are about
those functions. Lemmas whose names end in `Exactly` say what such a function gives for every input without
naming it: keys, limits, bytes and errors are written out in them. Most proofs hide definitions they do not need (`hide`), which keeps them cheap.

**Reconciliation.** `SyncView` reads a config as a finite map, tag -> (the inbound without its users,
SubID -> stored entry), and shows that each edit of the JSON lists is an edit of that map.
`ConfigShown.ViewIsConfig` shows that two configs with one view are the same but for the order of
inbounds and users, and an empty list of users where there was none. `Rollback.PlanExactly` says of any
clean plan with one step per key exactly when a failed execution leaves the config as it was (a plan is
clean if its data keep SubIDs unambiguous, its added inbounds come without users and its deleted ones
carry back no user of another step). `Reconcile.ReconcilesExactly` says it of the plan of a diff, whatever
the diff took for the current state: the steps reach what is desired exactly when no user changes
inbound, and a failure is undone exactly when what every tried step has recorded as previous puts back
what was stored. `Relisting.OwnListingExactly` says it of the plan that the engine makes, from the REST
client's listing of the file, in terms of what is in the file. `Engine.ReconcileAndApply` does all of it:
it lists, diffs, plans and executes. The side conditions (`Relisting.Tidy`, `Reconcile.Desirable`) are those the
code needs: tags and SubIDs are unique, no SubID is another user's UUID or name, every desired user's
inbound is desired, and desired options carry no `users`.

**Two writers.** `Debounce` is a state machine over the steps between lock operations. Its invariant
holds in every reachable state of every interleaving; what rollbacks overwrite, put back and lose is read
off it. `TwoWriters` puts the real creations of both writers into that machine.

## Where the code and its documentation differ

- README.md:33-34 says that reconciliation is atomic with rollback on failure. Whether it is depends on
  what each tried step has recorded as previous. The exact condition is in `Rollback.PlanExactly` for any
  clean plan, in `Reconcile.ReconcilesExactly` for any diff, and in `Relisting.OwnListingExactly` for the
  engine's own plan: every inbound it deletes has nothing but canonical settings (no options, no
  `listen_port`, no users), every inbound it updates likewise, and is not given options either, and
  every user it updates or deletes has an entry that the manager wrote, without limits or a reset date.
  So a failed reconciliation of an inbound with users or options leaves a trace. Four failures: a create
  against an outdated listing is rolled back by deleting the inbound that was there
  (`Reconcile.StalePlanLosesInbound`); with an up-to-date listing, an update of an inbound that has options
  is rolled back to other options (`Relisting.RelistedInboundChanges`), an update of one that has users
  leaves a copy of them in its options (`Relisting.RelistedUsersLinger`), and an update of a user that the
  REST client wrote loses its password (`Relisting.RelistedUserRewritten`).
- internal/singbox/client.go:750-752 says that a rollback never discards another writer's newer config.
  That holds for anything written after the window's last client write (`Debounce.RollbackIsExact`). A
  rollback takes changes of others with it if what it overwrites is not what the window's own edits alone
  make of the file that it puts back; that can only be if some client write of its window found other
  bytes than the window's write before it had left (`Debounce.OthersLostOnlyIfOvertaken`), which is so
  exactly if one of the window's resets of the timer read such a backup (`Debounce.ResetsTell`).
  `Debounce.ManagerWriteRolledBack` is a run with a loss, `Debounce.ChangeTakenOutAgain` one where the client
  built on a change that was taken out again, so that nothing was lost.
- internal/auth/replay.go:18-19 says that a timestamp more than 300 s away is rejected. One that is at
  least 2^63 ns ahead passes, because the difference saturates and its negation is itself, unless it is so
  far ahead that the instant itself wraps around (`Auth.TimestampInSkewExactly`, `Auth.FarFutureTimestamp`).
  The comment on internal/auth/replay.go:22 calls the eviction LRU; it is by age of arrival.
- An embedded message that occurs twice is replaced, where "Last One Wins" of Protocol Buffers Encoding
  asks for a merge (`Messages.SecondStatReplaces`).
- Listing what the manager stored returns the desired inbound only if it has neither options nor users,
  and the desired user only if it has no limits and no reset date
  (`InboundListing.ManagedInboundReadsBack`, `InboundListing.ManagedUserReadsBack`). So reconciling
  twice is in general not idempotent.
- The backoff doubles past its bound when BaseDelay is 2^62 ns or more, or MaxDelay lies above the first
  doubling that reaches 2^62 ns (`Retry.BackoffExact`); the delay is then negative for some attempt, as in
  `Retry.OverflowingConfig`.

## Model

| member | source | states |
|---|---|---|
| Json.InterfaceEqualIsEquality | internal/sync/diff.go:157-184 | comparing objects by size and one-way inclusion is structural equality on every JSON tree |
| Diff.InboundsDifferIsInequality | internal/sync/diff.go:119-135 | two inbounds are reported different exactly when they are |
| Diff.UsersDifferIsInequality | internal/sync/diff.go:138-155 | two users are reported different exactly when they are |
| Models.SettingsStored | internal/models/models.go:39-54 | a stored inbound has its tag and type, and address, port and options where they are set, and no other key |
| Models.UserStored | internal/models/models.go:6-36 | a stored user has its SubID, inbound tag and state, each of uuid, email, flow, limitIp, uploadLimit, downloadLimit and resetAt exactly if that field is set, with its value, and no other key |
| Models.EntryRead | internal/singbox/client.go:595-622 | what any entry is listed as: the first of subId, name, email and uuid, nothing without one; the uuid or else the password; enabled unless it says no |
| Entries.SelectsExactly | internal/singbox/client.go:517-524 | under which keys an entry answers to an id, for the manager and for the client |
| Diff.DiffIsPatch | internal/sync/diff.go:31-115 | applying the changes to the current map gives the desired map; there are none exactly when the maps agree |
| Diff.DiffMaps | internal/sync/diff.go:44-70 | whatever order the maps are walked in, each key gets at most one change and it is the expected one |
| Diff.DiffInbounds | internal/sync/diff.go:31-73 | the change list is a diff of the two lists keyed by tag |
| Diff.DiffUsers | internal/sync/diff.go:75-117 | the change list is a diff of the two lists keyed by SubID |
| Diff.LaterWins | internal/sync/diff.go:31-42 | of the entries with one key the last one counts |
| Entries.LookupAppend | internal/sync/config_manager.go:66-81 | appending an entry changes what a selector finds only where nothing was found |
| Entries.LookupReplace | internal/sync/config_manager.go:110-130 | replacing the first match changes what its own selector finds and no other's |
| Entries.LookupReject | internal/sync/config_manager.go:158-171 | after deletion its selector finds nothing and any other finds what it found |
| Entries.RejectMembers | internal/sync/config_manager.go:158-171 | deletion drops every match and only matches |
| ConfigManager.Filter | internal/sync/config_manager.go:158-171 | the loop keeps what is not selected, in order, and reports whether anything was |
| ConfigManager.ConfigManager.AddUser | internal/sync/config_manager.go:42-85 | the new file and the error are those of the edit; on any error the file is as before |
| ConfigManager.ConfigManager.UpdateUser | internal/sync/config_manager.go:87-134 | likewise for replacing the first entry that answers to the SubID |
| ConfigManager.ConfigManager.DeleteUser | internal/sync/config_manager.go:136-180 | likewise for dropping every entry that answers to the SubID |
| ConfigManager.ConfigManager.AddInbound | internal/sync/config_manager.go:182-217 | likewise for appending an inbound with a new tag |
| ConfigManager.ConfigManager.UpdateInbound | internal/sync/config_manager.go:219-262 | likewise for replacing an inbound while its users are carried over |
| ConfigManager.ConfigManager.DeleteInbound | internal/sync/config_manager.go:264-303 | likewise for dropping every inbound of the tag |
| ManagerEdits.AddUserExactly | internal/sync/config_manager.go:42-85 | for every config: which error AddUser gives, or that the first inbound of the tag gets an entry with exactly the fields of the user at the end of its list |
| ManagerEdits.UpdateUserExactly | internal/sync/config_manager.go:87-134 | likewise, that the first entry that answers to the SubID is replaced by one with exactly the fields of the user |
| ManagerEdits.DeleteUserExactly | internal/sync/config_manager.go:136-180 | likewise, that the entries that answer to the SubID are gone and the others stay in order |
| ManagerEdits.AddInboundExactly | internal/sync/config_manager.go:182-217 | likewise, that an inbound with exactly the given settings comes last, in a new list if there is none |
| ManagerEdits.UpdateInboundExactly | internal/sync/config_manager.go:219-262 | likewise, that the first inbound of the tag is replaced by one with the given settings and the users of the one before, beside the options and in them |
| ManagerEdits.DeleteInboundExactly | internal/sync/config_manager.go:264-303 | likewise, that all inbounds of the tag are gone and the others stay in order |
| ManagerEdits.CommittedExactly | internal/sync/config_manager.go:319-348 | a missing file or one that is no object is an error and stays, null is an empty config, and a refused edit keeps the file |
| ManagerEdits.UserWritten | internal/sync/config_manager.go:42-134 | after a user was added or updated, the entry found for it in the first inbound of the tag holds exactly its fields |
| SyncView.SetUsersReads | internal/sync/config_manager.go:388-422 | users written through the accessor are read back, and body and tag stay |
| SyncView.PreserveUsersReads | internal/sync/config_manager.go:440-463 | a replaced inbound keeps its list of users where it was and gets the new settings; users in the new options stay there beside the list |
| SyncView.EditSimulated | internal/sync/config_manager.go:42-303 | each of the six edits applies to the JSON tree exactly when it applies to the finite map of stored entries, with the mapped result, and keeps the tree sound; options may carry users |
| ConfigShown.ViewIsConfig | internal/sync/config_manager.go:388-438 | two configs have one view if and only if under every tag they have the same inbound, with the same entries as a multiset, but for an empty or absent list |
| ConfigShown.EditInside | internal/sync/config_manager.go:42-303 | no edit touches anything of the config but its inbounds |
| Plan.StepsForCount | internal/sync/plan.go:50-81 | the steps are a permutation of the changes of known kind |
| Plan.StepsForSorted | internal/sync/plan.go:74-80 | inbound creates, inbound updates, user creates, user updates, user deletes, inbound deletes, in this order |
| Plan.Plan.BuildSteps | internal/sync/plan.go:50-81 | the appending loops leave exactly that list of steps |
| Plan.Plan.Execute | internal/sync/plan.go:85-119 | file and outcome after execution, for every failing step, reload outcome and rollback outcome |
| Plan.Plan.RollbackExecuted | internal/sync/plan.go:122-130 | the executed steps are unwound in reverse up to the first rollback that fails |
| Plan.StepsSnoc | internal/sync/plan.go:53-72 | within a kind the steps come in the order of the changes |
| Plan.ExecutedExactly | internal/sync/plan.go:85-130 | an execution as a trace of files: steps up to the first that fails, then back from there, and which outcome, step and errors are reported |
| Plan.UnmanagedExactly | internal/sync/plan.go:184-326 | without a manager an empty plan is applied, and the first step of any other fails both ways and edits nothing |
| Plan.StepsUndone | internal/sync/plan.go:154-178 | which steps cannot be executed or taken back: those of an unknown kind, and updates and deletes without a previous item |
| Rollback.RestoresExactly | internal/sync/config_manager.go:219-262 | replacing an inbound and replacing it again by the previous item gives it back if and only if settings and options are those stored, and an inbound without options has not been given any |
| Rollback.RollbackUndoesStep | internal/sync/plan.go:184-326 | a step that succeeded is undone by its own rollback if and only if its recorded previous item is what was stored, entry for entry |
| Rollback.FailingStepRollback | internal/sync/plan.go:88-96 | rolling back a step that failed changes nothing if and only if it is a user update and the entry stored for its previous user is the one that the manager writes |
| Rollback.RunUnwindsExactly | internal/sync/plan.go:88-115 | running keyed steps with distinct keys and unwinding what was tried leads back if and only if every step that succeeds found what it recorded and one that fails is harmless; added inbounds come without users, deleted ones carry back no user of another step |
| Rollback.PlanExactly | internal/sync/plan.go:85-119 | for such steps whose data keep SubIDs unambiguous, Execute applies all exactly when each applies and the reload succeeds; otherwise the config is as before and no rollback fails, if and only if the run is faithful |
| Rollback.ExecutedOutside | internal/sync/plan.go:85-119 | whatever a plan does, nothing but the inbounds changes |
| Reconcile.ReadyRun | internal/sync/plan.go:50-81 | in plan order the steps of a diff get to the first that moves a user to another inbound, and through to the goal if there is none, whatever they recorded as previous |
| Reconcile.ReadyFaithful | internal/sync/plan.go:88-115 | such a run is faithful if and only if what the tried steps recorded puts back what was stored before the plan ran |
| Reconcile.DiffReady | internal/sync/engine.go:49-69 | the plan of a diff is ready in every view that has the listed keys |
| Reconcile.ReconcilesExactly | internal/sync/engine.go:49-88 | the plan of a diff is applied exactly when nobody moves and the reload succeeds or is not needed, and what is desired is reached wherever it differs from the listing; a failure leaves the config as it was, without a failing rollback, if and only if what every tried step recorded puts back what was stored |
| Reconcile.PlanIsAtomic | internal/sync/engine.go:49-88 | from a listing that is what the file shows: the desired state exactly if no inbound loses all its options; a failure is undone if and only if no updated inbound is listed with users or given its first options, and, if nobody moves, no deleted one is listed with users |
| Relisting.RestoresPlain | internal/sync/plan.go:200-217 | updating an inbound and rolling back to its listing gives it again if and only if it has nothing but canonical settings and is given no options |
| Relisting.AddsPlain | internal/sync/plan.go:219-236 | deleting an inbound and adding its listing gives it again if and only if it has nothing but canonical settings |
| Relisting.ManagedExactly | internal/singbox/client.go:595-622 | storing a user as listed gives its entry again if and only if the manager wrote it, without limits or a reset date |
| Relisting.TidyKeys | internal/singbox/client.go:79-163 | for a tidy file the listing has exactly the tags and users of the view |
| Relisting.ListingShows | internal/singbox/client.go:79-163 | the listing of a tidy file is the state that the file shows if and only if every inbound has nothing but canonical settings and its own list, all entries are listed, and the manager wrote them without limits |
| Relisting.OwnListingExactly | internal/sync/engine.go:49-88 | the plan from the client's own listing: applied exactly when nobody moves and the reload succeeds or is not needed; a failure leaves the config as before, with no failing rollback, if and only if everything a tried step meets in the file can be put back from the listing |
| Relisting.RelistedInboundChanges | internal/sync/plan.go:208-217 | with an up-to-date listing, a failed reload after the update of an inbound with options leaves other options |
| Relisting.RelistedUsersLinger | internal/sync/plan.go:208-217 | and after the update of an inbound with users it leaves a copy of them in its options |
| Relisting.RelistedUserRewritten | internal/sync/plan.go:298-307 | and after the update of a user that the client wrote its password is gone |
| Reconcile.StalePlanLosesInbound | internal/sync/plan.go:192-198 | a create against an outdated state fails, and its rollback deletes the inbound that was there |
| Engine.MakePlan | internal/sync/engine.go:49-69 | the plan holds a diff of the desired lists with the client's two listings, which may find different files, and its ordered steps, or the client's error |
| Engine.ReconcileAndApply | internal/sync/engine.go:49-88 | one reconciliation from end to end, whatever the file is at the listings and at the execution: listing errors change nothing, else the result is that of executing the diff, with the exact conditions for what is reached and what is undone |
| CfgLock.RunKeepsInv | internal/cfglock/cfglock.go:20-43 | in every interleaving the registry is injective and every returned mutex is the registered one |
| CfgLock.OneMutexPerPath | internal/cfglock/cfglock.go:20-43 | two calls get the same mutex exactly when they name the same path |
| Debounce.RunKeepsInv | internal/singbox/client.go:707-792 | every interleaving of both writers, fires and reloads keeps the invariant on file, windows and timers |
| Debounce.FileIsFoldOfWrites | internal/singbox/client.go:266-306 | the file is the fold of the committed writes in lock order, each edit applied to the bytes its predecessor left |
| Debounce.WriteSurvives | internal/singbox/client.go:266-306 | what a write establishes and later edits keep holds from then on, unless a rollback goes back to before it |
| TwoWriters.CreationsSurvive | internal/singbox/client.go:266-306 | in every run of both writers whose edits are creations of users and inbounds, and whose written text is read back, all that was created and not rolled back is listed at the end; all of it when no rollback ran |
| TwoWriters.PresentKept | internal/sync/config_manager.go:42-85 | a creation by either writer keeps every user and inbound listed that is there, under the same tag |
| Debounce.RollbackIsExact | internal/singbox/client.go:769-785 | a rollback overwrites only its window's last client write, with the file from before the window's first client write |
| Debounce.ReloadsDecide | internal/singbox/client.go:753-792 | in every run and for every window: no attempt before its fire, then one that succeeds, or one that fails, a check and a second; attempts are to come until then, and only a window whose first attempt failed is rolled back |
| Debounce.SuccessIsFinal | internal/singbox/client.go:769 | a window whose first reload succeeds is never rolled back and not reloaded again |
| Debounce.CheckDecides | internal/singbox/client.go:770-785 | after a failed reload the next write is the restore if and only if at the check the file is what the window's client wrote last and not what was there before its first write; else the window is never rolled back |
| Debounce.RollbackKeepsEarlier | internal/singbox/client.go:769-785 | what was established before a window's first write, and not rolled back until then, is still there after its rollback |
| Debounce.OthersLostOnlyIfOvertaken | internal/singbox/client.go:769-785 | a rollback overwrites more than what the window's own edits make of the file it puts back only if a write of the window found other bytes than the window's write before it had left, which is to say that it was built on changes of others |
| Debounce.ChangeTakenOutAgain | internal/singbox/client.go:769-785 | a run whose window was overtaken and whose rollback loses nothing of others |
| Debounce.ResetsTell | internal/singbox/client.go:707-744 | in every run a write of a window was overtaken if and only if one of the window's resets of the timer read a backup other than the bytes the window wrote last |
| Debounce.DebounceCovers | internal/singbox/client.go:728-764 | an open window has a fire coming, an uncovered client write has a reload attempt coming, attempts are at most twice the client writes |
| Debounce.Counted | internal/singbox/client.go:728-792 | in every run the count of attempts and the mark of uncovered writes are those of its actions |
| Debounce.TimersConserved | internal/singbox/client.go:728-744 | in every run each timer scheduled is still scheduled, is left from a closed window, has expired, or has fired, and every write schedules one or puts it off |
| Debounce.IdleFiresDoNothing | internal/singbox/client.go:753-764 | every run without its fires that found no window makes the same writes and reload attempts and ends with the same file, window, reloads and lock |
| Debounce.ManagerWriteRolledBack | internal/singbox/client.go:750-785 | a run in which a manager write between two client writes of a window is lost in its rollback |
| ClientEdits.GetAfterSet | internal/singbox/client.go:453-463 | users set are the users got, wherever the inbound keeps them |
| ClientEdits.SetAfterSet | internal/singbox/client.go:502-515 | setting twice is setting last, and every key but `users` and `options` stays |
| ClientEdits.UsersPlaced | internal/singbox/client.go:453-515 | which list of users is read, and where one is written |
| ClientEdits.BuiltExactly | internal/singbox/client.go:526-593 | the entry for every protocol, in any letter case: for vless and vmess uuid, name and flow, for the five password protocols name and password, as given, else as stored, else generated, and no other key; for any other type what is given over all that was stored |
| ClientEdits.BuiltUserReads | internal/singbox/client.go:526-593 | for every protocol a user stored under a SubID answers to it and is listed under it, with the given UUID or password, else the stored, else the generated one, and the given or stored flow |
| ClientEdits.CreateUserAppends | internal/singbox/client.go:266-306 | creating a user adds that user alone, at the end of its inbound's block of the listing, with the UUID and flow given |
| ClientEdits.UpdateUserReplaces | internal/singbox/client.go:308-352 | the listings before and after an update differ in one listed user of one inbound, which then has the given SubID, and the UUID and flow that are given or else stored |
| ClientEdits.DeleteUserRemoves | internal/singbox/client.go:354-398 | deleting leaves no entry of any inbound that answers to the id, lists no such SubID, keeps all other entries in order |
| ClientEdits.RefusedExactly | internal/singbox/client.go:165-398 | for each of the six requests when it succeeds and which error it gives: tags and users that are there when creating, or not there when updating or deleting |
| ClientEdits.EditedElsewhere | internal/singbox/client.go:165-398 | no request touches anything of the config but the inbounds |
| InboundListing.SettingsRead | internal/singbox/client.go:221-234 | how an inbound is listed after a request, setting by setting: options named like a setting win, then what is given, and an empty address or zero port leaves the listed one; other options are added |
| InboundListing.SettingAt | internal/singbox/client.go:182-195 | which value is stored under every key of an inbound by a request |
| InboundListing.ListedExactly | internal/singbox/client.go:95-123 | how any inbound is listed: listen_port before port, everything but five settings an option |
| InboundListing.TruncatedTowardsZero | internal/singbox/client.go:648-666 | a fractional port is truncated towards zero |
| InboundListing.CreatedInboundListed | internal/singbox/client.go:165-204 | a created inbound is the last of the listing, the others stay |
| InboundListing.UpdatedInboundListed | internal/singbox/client.go:206-240 | an update changes how the first inbound of the tag is listed, the others stay |
| InboundListing.DeletedInboundListed | internal/singbox/client.go:242-264 | a deleted inbound, the first of its tag, is listed no more, the others stay |
| InboundListing.CreatedInboundReadsBack | internal/singbox/client.go:79-126 | a created inbound is listed as given if and only if no option bears the name of a setting |
| InboundListing.ManagedInboundReadsBack | internal/singbox/client.go:79-126 | what the manager stored is listed without difference if and only if it has neither options nor users |
| InboundListing.ManagedUserReadsBack | internal/singbox/client.go:595-622 | a stored user is listed without difference if and only if it has no limits and no reset date |
| InboundListing.InboundRequestUsers | internal/singbox/client.go:165-240 | creating appends the users that the options bring along to the listing and updating replaces the inbound's block; with options that name neither users, options nor tag the listing stays |
| InboundListing.DeleteInboundRemoves | internal/singbox/client.go:242-264 | deleting an inbound loses the first of its tag and its block of users, nothing else |
| StatsUsers.SyncMakesExact | internal/singbox/client.go:468-500 | where the config has statistics, the list is strictly ascending and holds exactly the nonempty names of all users; inbounds are untouched |
| StatsUsers.SyncedExactly | internal/singbox/client.go:468-500 | of the whole config only the list under experimental, v2ray_api, stats, users is written, if the three are objects: with the names in use, ascending |
| StatsUsers.LessExactly | internal/singbox/client.go:498 | ascending in the order of the first character that differs, a proper prefix first |
| StatsUsers.ServedIsExact | internal/singbox/client.go:707-726 | after every successful request the list is exact, and the listing of users is that of the edit |
| StatsUsers.ServedExactly | internal/singbox/client.go:400-416 | for every file and request: errors of loading and refusals keep the file, and anything else is the edited config with its statistics brought up to date |
| RestClient.ListUsers | internal/singbox/client.go:146-162 | the loops list the users of each inbound in order |
| RestClient.RemoveUser | internal/singbox/client.go:366-392 | the loops over a copy of the inbounds remove the user from each and report whether any had it |
| RestClient.CollectNames | internal/singbox/client.go:478-493 | the loops collect each nonempty name once, in order of first occurrence |
| RestClient.ConfigClient.GetInbounds | internal/singbox/client.go:79-127 | the inbounds as listed, or the error of loading |
| RestClient.ConfigClient.GetUsers | internal/singbox/client.go:129-163 | the users as listed, or the error of loading |
| RestClient.ConfigClient.CreateInbound | internal/singbox/client.go:165-204 | the new file and the error are those of the request; the file is kept on every error |
| RestClient.ConfigClient.UpdateInbound | internal/singbox/client.go:206-240 | likewise |
| RestClient.ConfigClient.DeleteInbound | internal/singbox/client.go:242-264 | likewise |
| RestClient.ConfigClient.CreateUser | internal/singbox/client.go:266-306 | likewise |
| RestClient.ConfigClient.UpdateUser | internal/singbox/client.go:308-352 | likewise |
| RestClient.ConfigClient.DeleteUser | internal/singbox/client.go:354-398 | likewise |
| Wire.VarintRoundTrip | internal/v2rayapi/v2rayapi.go:436-454 | every 64-bit value, whatever follows it, is read back, and the overflow check never trips on it |
| Wire.VarintAtMostTenBytes | internal/v2rayapi/v2rayapi.go:100-106 | an encoded varint takes 1 to 10 bytes |
| Wire.VarintPrefixFails | internal/v2rayapi/v2rayapi.go:436-454 | every proper prefix of an encoded varint is an error |
| Wire.VarintExactly | internal/v2rayapi/v2rayapi.go:436-454 | for any bytes: the value of a varint is that of its 7-bit digits modulo 2^64, up to the first byte without the top bit; it is an overflow without one among the first ten, and a truncation if the bytes end before |
| Wire.RecordExtends | internal/v2rayapi/v2rayapi.go:432-494 | a field that is complete reads the same whatever follows it |
| Wire.CutRecordFails | internal/v2rayapi/v2rayapi.go:432-494 | a complete field cut short anywhere is a truncation error |
| Wire.FixedRecord | internal/v2rayapi/v2rayapi.go:469-494 | fields of 4 and 8 bytes are skipped whole |
| Wire.OtherWiresFail | internal/v2rayapi/v2rayapi.go:469-494 | groups and unassigned wire types are errors |
| Wire.AddBitsIsOr | internal/v2rayapi/v2rayapi.go:445 | or-ing in the next seven bits is adding them, since only lower bits are set, and those past the 64th are lost |
| Wire.AppendVarint | internal/v2rayapi/v2rayapi.go:100-106 | the loop appends the base 128 encoding |
| Wire.Decoder.Varint | internal/v2rayapi/v2rayapi.go:436-454 | the cursor advances over the varint, with the value or the error of reading it |
| Wire.Decoder.Bytes | internal/v2rayapi/v2rayapi.go:456-467 | likewise for length and bytes |
| Wire.Decoder.Skip | internal/v2rayapi/v2rayapi.go:469-494 | likewise for the payload of each wire type |
| Messages.DecodeAppend | internal/v2rayapi/v2rayapi.go:164-192 | decoding is a homomorphism: what decodes without error can be cut off in front |
| Messages.UnknownFieldIgnored | internal/v2rayapi/v2rayapi.go:469-494 | a well-formed field that a message does not use, put at any field boundary, changes nothing |
| Messages.UsedFields | internal/v2rayapi/v2rayapi.go:164-430 | each message ignores a field, whatever it holds, if and only if it differs in number or wire type from all of its own |
| Messages.UnusedFieldIgnored | internal/v2rayapi/v2rayapi.go:164-430 | so such a field, if complete, changes nothing at any field boundary of any of the seven messages |
| Messages.StatRoundTrip | internal/v2rayapi/v2rayapi.go:157-192 | Unmarshal undoes Marshal, negative values included |
| Messages.GetStatsRequestRoundTrip | internal/v2rayapi/v2rayapi.go:194-229 | Unmarshal undoes Marshal |
| Messages.GetStatsResponseRoundTrip | internal/v2rayapi/v2rayapi.go:231-264 | Unmarshal undoes Marshal, for no stat, an empty stat and any other |
| Messages.QueryStatsRequestRoundTrip | internal/v2rayapi/v2rayapi.go:266-317 | Unmarshal undoes Marshal, empty patterns included |
| Messages.QueryStatsResponseRoundTrip | internal/v2rayapi/v2rayapi.go:319-353 | Unmarshal undoes Marshal for any number of stats |
| Messages.SysStatsResponseRoundTrip | internal/v2rayapi/v2rayapi.go:373-430 | Unmarshal undoes Marshal for all ten fields |
| Layout.StatWritten | internal/v2rayapi/v2rayapi.go:157-162 | the bytes of a stat: 10, length and name, 16 and the value modulo 2^64, each left out when empty or zero |
| Layout.GetStatsRequestWritten | internal/v2rayapi/v2rayapi.go:194-199 | the bytes of the request: 10, length and name, 16 and 1 |
| Layout.GetStatsResponseWritten | internal/v2rayapi/v2rayapi.go:231-237 | the bytes of the response: 10, length and stat, even an empty one |
| Layout.QueryStatsRequestWritten | internal/v2rayapi/v2rayapi.go:266-275 | the bytes of the request: 10 and pattern, 16 and 1, 26 and each of the patterns, 32 and 1 |
| Layout.QueryStatsResponseWritten | internal/v2rayapi/v2rayapi.go:319-325 | the bytes of the response: 10, length and stat for each stat in order |
| Layout.SysStatsResponseWritten | internal/v2rayapi/v2rayapi.go:373-386 | the bytes of the response: the tags 8 to 80 and the ten numbers in their order |
| Layout.NumbersRead | internal/v2rayapi/v2rayapi.go:164-317 | what any varint under a tag means: signed values with the same bits, and true for everything but zero |
| Layout.SysNumberRead | internal/v2rayapi/v2rayapi.go:388-430 | which of the ten fields a varint under each tag sets, the 32-bit ones to its low half |
| Layout.TextsRead | internal/v2rayapi/v2rayapi.go:164-317 | which text bytes under a tag replace, and that those under 26 are added to the patterns |
| Layout.StatsRead | internal/v2rayapi/v2rayapi.go:239-353 | bytes under the tag of a stat are read as one from nothing; a malformed one is an error that leaves part of it in GetStatsResponse and nothing in QueryStatsResponse |
| Messages.SecondStatReplaces | internal/v2rayapi/v2rayapi.go:239-263 | a second stat, whatever its bytes, replaces the first, which is the merge if and only if it mentions every field that the first has set |
| Codec.StatMessage.Marshal | internal/v2rayapi/v2rayapi.go:157-162 | the bytes are the encoding of the message |
| Codec.StatMessage.Unmarshal | internal/v2rayapi/v2rayapi.go:164-192 | fields and error are those of decoding into the message as it was |
| Codec.GetStatsRequestMessage.Marshal | internal/v2rayapi/v2rayapi.go:194-199 | likewise for encoding |
| Codec.GetStatsRequestMessage.Unmarshal | internal/v2rayapi/v2rayapi.go:201-229 | likewise for decoding |
| Codec.GetStatsResponseMessage.Marshal | internal/v2rayapi/v2rayapi.go:231-237 | likewise for encoding |
| Codec.GetStatsResponseMessage.Unmarshal | internal/v2rayapi/v2rayapi.go:239-264 | likewise for decoding |
| Codec.QueryStatsRequestMessage.Marshal | internal/v2rayapi/v2rayapi.go:266-275 | likewise for encoding |
| Codec.QueryStatsRequestMessage.Unmarshal | internal/v2rayapi/v2rayapi.go:277-317 | likewise for decoding |
| Codec.QueryStatsResponseMessage.Marshal | internal/v2rayapi/v2rayapi.go:319-325 | likewise for encoding |
| Codec.QueryStatsResponseMessage.Unmarshal | internal/v2rayapi/v2rayapi.go:327-353 | likewise for decoding |
| Codec.SysStatsRequestMessage.Unmarshal | internal/v2rayapi/v2rayapi.go:359-371 | any well-formed fields are accepted and dropped |
| Codec.SysStatsResponseMessage.Marshal | internal/v2rayapi/v2rayapi.go:373-386 | likewise for encoding |
| Codec.SysStatsResponseMessage.Unmarshal | internal/v2rayapi/v2rayapi.go:388-430 | likewise for decoding |
| NonceCache.CleanupIsFilter | internal/auth/replay.go:96-110 | with clock readings in order, scanning the front removes exactly what a filter by age over all entries would |
| NonceCache.CheckKeepsCache | internal/auth/replay.go:66-92 | nonces stay distinct, in clock order and at most 10000 |
| NonceCache.CheckedIsSuffix | internal/auth/replay.go:66-92 | a stored nonce stands behind a suffix of the entries, only the oldest having gone |
| NonceCache.NonceCache.CheckAndStoreNonce | internal/auth/replay.go:66-92 | queue and map stay consistent (no duplicates, the same nonces, bounded), and entries and verdict are those of the check |
| NonceCache.NonceCache.Cleanup | internal/auth/replay.go:96-110 | the loop drops the expired front and keeps queue and map consistent |
| Auth.TimestampInSkewExactly | internal/auth/replay.go:48-61 | a timestamp in seconds passes if and only if it is within 300 s, or at least 2^63 ns ahead and below 2^63 - 62135596800 |
| Auth.AuthenticateRequest | internal/middleware/auth.go:84-206 | the verdict and the cache after the chain of checks |
| Auth.CacheExactly | internal/auth/replay.go:66-110 | in every run with a clock that does not go back, the cache holds exactly the last 10000 accepted nonces that are at most 24 h older than the last one, in order |
| Auth.ChecksExactly | internal/middleware/auth.go:84-206 | whatever the cache holds: unauthorized without any one of token, signature, headers, parsed timestamp within 300 s (or as above), readable body of at most 10485760 bytes and valid signature; a replay if the nonce is held; the cache is as before in both cases; otherwise allowed |
| Auth.VerdictsExactly | internal/middleware/auth.go:84-206 | in such a run a request is accepted if and only if it brings all of these and its nonce is not among those 10000 |
| Auth.OthersUnaffected | internal/middleware/auth.go:194-203 | every request that passes the checks before the nonce gets the verdict it would get in the run without the requests that fail one |
| Auth.ReplayNeedsFullCache | internal/middleware/auth.go:142-203 | over any run, one nonce and timestamp is accepted twice only after at least 10000 other nonces in between |
| Auth.FarFutureTimestamp | internal/auth/replay.go:48-61 | a run that accepts one request twice with one other in between, its timestamp 20000000000 s after the first |
| Idempotency.IdempotencyStore.Store | internal/store/idempotency.go:72-96 | table and verdict: stored, conflict or full, after expired entries have gone |
| Idempotency.IdempotencyStore.Get | internal/store/idempotency.go:98-113 | table and entry, an expired one being dropped |
| Idempotency.IdempotencyStore.Cleanup | internal/store/idempotency.go:140-147 | exactly the live entries stay |
| Idempotency.ApplyRefines | internal/store/idempotency.go:72-147 | each operation answers like a table that never deletes, and at most maxKeys entries are held |
| Idempotency.RunRefines | internal/store/idempotency.go:72-147 | so does every run with a clock in order |
| Idempotency.ServeHTTP | internal/middleware/idempotency.go:21-75 | table, reply and whether the handler ran, for every branch |
| Idempotency.PassedThrough | internal/middleware/idempotency.go:24-39 | a request that reads or has no key runs its handler and gets its response; one with a key whose body cannot be read gets a conflict; the table stays |
| Idempotency.RunExactly | internal/middleware/idempotency.go:42-75 | in every run: a keyed request runs its handler if and only if no kept response under its key is within its time to live; else it gets that response, or a conflict if the hash differs; its own is kept if and only if the keys with one are fewer than maxKeys |
| Idempotency.OthersUnaffected | internal/middleware/idempotency.go:24-39 | every request that is looked up has the effect it would have in the run without the others |
| Idempotency.KeptStays | internal/middleware/idempotency.go:42-72 | a kept response stays in the table over any run within its time to live |
| Idempotency.AtMostOnce | internal/middleware/idempotency.go:42-72 | a later request with the key does not run the handler: same hash, same reply; other hash, conflict |
| Idempotency.KeptUnlessFull | internal/middleware/idempotency.go:61-72 | a response is kept exactly when the live entries are fewer than maxKeys |
| Retry.Backoff | internal/client/retry.go:61-73 | the loop computes the recursive backoff in wrapping 64-bit arithmetic |
| Retry.BackoffExact | internal/client/retry.go:61-73 | backoff is min(base * 2^n, max) for all n if and only if base is below 2^62 and max is at most the first doubling that reaches 2^62 |
| Retry.OverflowingConfig | internal/client/retry.go:61-73 | a base and a maximum for which the second doubling is negative |
| Retry.BackoffMonotone | internal/client/retry.go:61-73 | under that condition delays are positive, never decrease and never exceed the maximum |
| Retry.Retry | internal/client/retry.go:22-59 | 3 retries with waits from 1 s to 30 s where nothing is configured; the loop stops at the first call that succeeds, fails for good, is the last retry or is cancelled in its wait, and with that outcome; the k-th wait is backoff(k), and waits sum to at most retries * most, and to no less than 0 if delays are bounded |
| Metrics.ExportedIsTotal | internal/metrics/collector.go:172-177 | the exported total is the last value plus the values before each detected reset, and never decreases |
| Metrics.ObservedExactly | internal/metrics/collector.go:141-170 | the observations of a tag are its up or down values in order, whatever other tags have; inbounds without a tag have none |
| Metrics.GaugesAreLast | internal/metrics/collector.go:145-153 | after a batch only its inbounds that have a tag have gauges, each that of its last observation |
| Metrics.Collector.ObserveInbounds | internal/metrics/collector.go:141-170 | after any batches every tag's last value and total are those of its observations, in both directions, and the gauges are those of the batch |

## Left out

- JSON text and files: a file is a parsed tree in the editing modules and opaque bytes in `Debounce`; write errors, partial writes, permissions, the backup file and temporary files are not modelled. Numbers are exact reals, not float64.
- In-place edits of nested maps: the maps inside a loaded config are values here, so sharing between the loaded tree and a caller's objects is not captured. The file, the plan, the caches, the messages and the decoder's cursor are updated in place as in the source.
- Debounce.DebounceCovers: says that a fire or a reload attempt is pending, not that the scheduler eventually runs it; coverage is stated for every reachable state.
- Relisting.OwnListingExactly: a config counts as unchanged when only the order of inbounds or users differs, or an empty list of users stands where there was none; the code restores neither.
- Reset dates are integer instants; time zones and the text of dates are not part of this model.
- Idempotency.AtMostOnce: for sequential requests; concurrent requests with one key may both run the handler, because Get, handler and Store are not one step. Copying of stored headers and bodies and the cleanup ticker are left out.
- Auth.AuthenticateRequest: header parsing, the token comparison and the HMAC enter as their results. A request's clock readings are parameters.
- Metrics.Collector.ObserveInbounds: counters are naturals and gauges integers; rounding in float64 is left out.
- StatsUsers.SyncMakesExact: the library sort is an insertion sort on strings ordered by code; the order of bytes of a UTF-8 text is the same.
- ClientEdits.BuiltExactly: a character is lower-cased as far as the result is an ASCII letter, which is what the protocol names compared with consist of; a generated UUID is a parameter.
- A config file that holds `null` in the REST client, which writes into a nil map there; the model gives a parse error.
- Stat elements that are nil, the dispatch on message types and the gRPC transport.
- Reload commands, contexts and their timeouts, and the pacing of reloads: a reload is a success or a failure. The client's own mutex, which the path lock implies for everything modelled here.
- Sync status, request versions, HTTP routing, validation, redaction, subscriptions and agent configuration: branch by branch or input and output.
