# OpenPraxis verification

OpenPraxis keeps a time-versioned graph of work - products own manifests, manifests own tasks,
tasks and manifests depend on each other - and dispatches one agent at a time along it. This
project models the algorithms and state machines at the centre of that engine in Dafny 4.11 and
proves what they promise. `dafny verify dfyconfig.toml` checks everything.

The modules follow the program:

| files | what they model |
|---|---|
| `EdgeModel`, `EdgeHistory`, `EdgeRace`, `EdgeWalk`, `WalkOverRows`, `EdgeStore` | the `relationships` table: its writers, as-of readers, history, interleaved writers, and the recursive walk |
| `ExecutionLog`, `Dispatcher`, `OneAgent`, `DependencyOrder`, `DirectDispatch`, `Progress`, `DispatchEngine` | the append-only log, the concurrency guard, what a live agent keeps out, the dependency gate, schedules that go past it, and progress |
| `TaskWalk`, `TaskOrder`, `TaskCollector`, `DagChain`, `CalmSweeps`, `ChainEngine`, `EarlyStart` | `collectAll`, what the end of a task sets off, and when that is too early |
| `Propagation` | the activation walk after a manifest or a product closes |
| `ScheduleModel`, `ScheduleRunner` | schedule rows, cron entries and how often a schedule fires |
| `SettingsModel`, `SettingsResolver` | knob validation, decoding and the two resolvers |
| `EntityStore`, `EntityTypes` | versioned entities and entity types |
| `WordMatcher` | the whole-word matcher and the pattern extractor |
| `Migration` | the copy of the legacy dependency tables into the edge table |
| `Common` | options, results, `SELECT ... WHERE` and stable sorting over sequences |

Objects that the program updates in place are classes whose methods are proved equal to functions
on values; the whole-run theorems are lemmas about those functions.

## What is proved, in short

- **Time travel.** For any run of atomic Create and Remove calls under a non-decreasing clock, failing
  calls included, what the as-of readers report at T is what the current readers reported after replaying only
  the operations up to T (`AsOfIsReplay`); a tuple's history is a chain of disjoint intervals, adjacent exactly where
  the tuple was still current (`HistoryIsChain`, `HistoryAdjacency`).
- **Races.** One current row per tuple survives every interleaving, a split Remove included
  (`EveryInterleavingKeepsTable`). Interval order does not: it survives a step, and a whole run, exactly when no
  Create or Remove closes a row that began after the stamp it writes (`CreateKeepsOrderIff`,
  `LateRemoveKeepsOrderIff`, `RunKeepsOrderIff`); versions stay disjoint exactly when no Create commits a row that
  begins before an earlier version is over (`RunKeepsDisjointIff`).
- **Walks.** Enumerating every path, stable-sorting by depth and keeping the first row per id gives a shortest-path
  tree of exactly the nodes in reach, on any graph and for any row order of the query
  (`DedupIsShortestPathTree`), now and in the past (`WalkAtIsWalkThen`); in terms of the table, the chains of rows live
  at that time (`TreeAnswers`).
- **Dispatch.** Over every run of sweeps, direct dispatches, completions, failures, crashes and restarts one run at
  most is in flight, and a live agent keeps every other out until it crashes or its end is recorded, server restarts
  included (`AgentKeepsOthersOut`); no task starts before its dependencies have run exactly when every direct
  dispatch is refused or starts a task whose dependencies have run (`EveryRunIsOrderedIff`, from any state); the
  whole gate - dependencies still completed, the task itself not - is respected exactly when every direct dispatch
  is refused or starts a ready task (`EveryRunIsSafe`); what is completed stands, through all gated steps to come,
  exactly when no direct dispatch starts a completed task (`CompletionsStandIff`). Acyclic dependencies make
  progress and n sweeps finish n tasks (`SweepMakesProgress`, `SweepsFinishAllTasks`), and cycles never run
  (`CycleNeverRuns`). When a task ends, the first ready task starts, and only that one (`ChainStartsFirstReady`);
  whether one starts, `CompletionStartsIff` says; it starts too early exactly under the conditions of
  `StartsEarlyIff`, and a table allows that exactly under those of `CanStartEarlyIff`.
- **collectAll** is exact, for every listing order and every assignment of statuses, exactly when no node is reached
  both as a task and as a group (`ExactInEveryOrderIff`); activation after a close flips precisely what it should
  (`Propagate`).
- **Bounds and agreement:** fires of a schedule (`FiresAreBounded`, `NoneSpentRegisteredIff`, `FiresAgainIff`),
  batched against single settings (`ResolveAll`), validate-then-resolve (`SetThenResolve`), versions tile time
  (`VersionsTileTime`), type ids end exactly by a Create on their name (`UidLivesUntilCreate`).
- **Migration:** directions kept, a second run inserts nothing, and exactly when it succeeds and when it keeps one
  current row per tuple (`MigrateSucceedsIff`, `OneCurrentIffNoClash`).

## Where the code does less than it says

Each of these has a concrete input, next to the exact condition under which the property does hold.

- `Remove` reads its clock outside the mutex, so it can close a row at a stamp before the row began
  (`EdgeRace.SplitRemoveInvertsInterval`); a Create can do the same to a row dated in the future
  (`EdgeRace.FutureCreateInvertsInterval`). Exactly when: `EdgeRace.RunKeepsOrderIff`.
- `Remove` takes no lock, so it can close a row between a Create's clock reading and its commit, later than the new row
  begins: `EdgeRace.RemoveInsideCreateOverlaps`. Exactly when versions stay disjoint: `EdgeRace.RunKeepsDisjointIff`.
- A schedule of kind task goes past the dependency gate: it can break the order
  (`DirectDispatch.DirectDispatchBreaksOrder`; exactly when: `DependencyOrder.EveryRunIsOrderedIff`) and undo a completion
  (`DirectDispatch.DirectDispatchUndoesCompletion`; exactly when: `DirectDispatch.CompletionsStandIff`).
- A finished manifest fires the manifests that depend on it without asking about their other
  dependencies: `EarlyStart.DownstreamIgnoresOtherDeps`. Exactly when that starts a task too early, in one state:
  `EarlyStart.StartsEarlyIff`; over all states of a table: `EarlyStart.CanStartEarlyIff`.
- A manifest counts as done by its directly owned tasks, archived and closed ones included, and not by those of its
  sub-groups. Finishing all collected tasks fires what is downstream exactly as `EarlyStart.FinishingMakesDoneIff` says,
  and a done manifest has none left exactly as `EarlyStart.DoneMeansFinishedIff` says; both proofs give the state that fails.
- An id stored once as a task and once as something else can be lost to `collectAll`:
  `TaskCollector.DisagreeingKindsLoseTask`. Exactly when: `TaskWalk.ExactInEveryOrderIff`.
- `Reload` lists rows before it takes the lock, so a spent schedule can be registered again:
  `ScheduleModel.LateReloadOverfires`. Exactly when, over whole runs: `ScheduleModel.NoneSpentRegisteredIff`.
- The comment on `MarkFired` says recurring schedules fire indefinitely; a job removes its own cron entry after
  every successful fire, and the next tick is lost: `ScheduleModel.RecurringLosesSecondTick`. It fires again exactly
  as `ScheduleModel.FiresAgainIff` says.
- A task pair that is also a product or manifest pair can end with two current rows after the
  migration: `Migration.SharedPairBreaksOneCurrent`. Exactly when: `Migration.OneCurrentIffNoClash`.
- The whole-word matcher misses the empty word in some texts, such as "a.": exactly which, `WordMatcher.FoundIffWholeWord`.
  The extractor never yields an empty word.

## Model

| member | source | states |
|---|---|---|
| EdgeModel.CreateKeepsTable | internal/relationships/store.go:333-361 | a successful Create leaves one current row for its tuple, keeps keys and one-current everywhere, touches no other tuple and no closed row |
| EdgeModel.RemoveKeepsTable | internal/relationships/store.go:473-486 | Remove leaves no current row for its tuple, deletes nothing and touches no other tuple |
| EdgeModel.CreateInFields | internal/relationships/store.go:282-361 | which input fails, and on success the whole table in terms of its columns: the tuple's current rows get an end stamp, one row is added that says field by field what the caller gave, and nothing else changes |
| EdgeModel.RemoveInFields | internal/relationships/store.go:473-482 | the current rows of the tuple get the end stamp, the actor and the reason, column by column, and nothing else changes |
| EdgeModel.HistoryInFields | internal/relationships/store.go:773-802 | exactly the rows with these ends and this kind, by valid_from |
| EdgeHistory.ReplayInvariants | internal/relationships/store.go:306-319 | after any run the versions of a tuple are chained: each ends no later than the next begins, no stamp is in the future, keys are unique |
| EdgeHistory.AsOfAligns | internal/relationships/store.go:669-756 | row by row, a row is valid at T in the full table exactly when it was current after the operations up to T |
| EdgeHistory.AsOfIsReplay | internal/relationships/store.go:669-756 | ListOutgoingAt and ListIncomingAt at T report the facts that ListOutgoing and ListIncoming report after replaying only the operations stamped at or before T |
| EdgeHistory.HistoryIsChain | internal/relationships/store.go:773-802 | History is strictly increasing in valid_from, its half-open intervals are pairwise disjoint, only the last can be open |
| EdgeHistory.HistoryAdjacency | internal/relationships/store.go:315-361 | consecutive versions are adjacent exactly where the tuple was still current when the later one was written |
| EdgeRace.EveryInterleavingKeepsTable | internal/relationships/store.go:303-482 | in every interleaving of Creates and Removes, each split into clock reading and commit, a Remove inside a Create included: one current row per tuple, unique keys, no row deleted, no closed row changed |
| EdgeRace.HolderKeepsLock | internal/relationships/store.go:303-319 | until it commits, the Create that holds createMu keeps it and its stamp, whatever else is attempted |
| EdgeRace.CreatesAreSerial | internal/relationships/store.go:303-367 | the table that interleaved Creates leave is one that whole Creates build in the order of their stamps |
| EdgeRace.FailedCreateChangesNothing | internal/relationships/store.go:315-362 | Create fails exactly on rejected input or a primary key that exists when it commits, and then the table is untouched, the close included |
| EdgeRace.LateRemoveKeepsOrderIff | internal/relationships/store.go:473-482 | a Remove with a late UPDATE keeps every interval ordered if and only if no current row of its tuple began after its clock reading |
| EdgeRace.CreateKeepsOrderIff | internal/relationships/store.go:315-347 | a successful Create keeps every interval ordered if and only if no current row of its tuple begins after its clock reading |
| EdgeRace.StepKeepsOrderIff | internal/relationships/store.go:303-366 | any step keeps the order exactly when it closes no row that began after the stamp it writes, and never restores it |
| EdgeRace.RunKeepsOrderIff | internal/relationships/store.go:303-482 | a whole run of interleaved split Creates and split Removes keeps every interval ordered if and only if none of its steps closes a current row that began after the stamp it writes |
| EdgeRace.ApartIff | internal/relationships/store.go:669-690 | the endpoint test for disjoint versions means what the as-of predicate says: at no time are both valid |
| EdgeRace.CreateKeepsDisjointIff | internal/relationships/store.go:333-361 | a successful Create keeps the versions of its tuple disjoint if and only if each of them, the current one closed, is over when the new row begins |
| EdgeRace.RunKeepsDisjointIff | internal/relationships/store.go:303-482 | versions are disjoint at every point of a run if and only if no Create of it commits a row that begins before an earlier version is over |
| EdgeRace.RemoveInsideCreateOverlaps | internal/relationships/store.go:315-482 | for any current edge, a run in which a Remove between the halves of a Create leaves two versions valid at one time |
| EdgeRace.FutureCreateInvertsInterval | internal/relationships/store.go:315-347 | any Create dated in the future, followed by a Create of the same tuple, leaves a row that ends before it begins |
| EdgeRace.SplitRemoveInvertsInterval | internal/relationships/store.go:473-482 | for any edge, a run in which a Remove closes a row before the row's own valid_from |
| EdgeWalk.PathRowsIn | internal/relationships/store.go:882-890 | the recursive query's rows are exactly the ends of all edge paths of at most the depth, one hop per level |
| EdgeWalk.FirstRowsArePerId | internal/relationships/store.go:932-942 | keeping the first row per id of a depth-sorted list keeps, for every listed id, one row, the least deep |
| EdgeWalk.DedupIsShortestPathTree | internal/relationships/store.go:842-963 | whatever order the query returns its rows in, sort and dedup give one row per node within the depth, at its shortest hop distance, each non-root row reached over a current edge from a returned row one level up |
| EdgeWalk.EveryRowDescendsFromRoot | internal/relationships/store.go:922-942 | following via_src from any returned row leads to the root in exactly its depth many real edges |
| EdgeWalk.WalkIsDetermined | internal/relationships/store.go:932-942 | two walks over the same edges agree on ids and depths; only the choice among equally short parents is open |
| EdgeWalk.WalkAtIsWalkOnSnapshot | internal/relationships/store.go:1013-1028 | WalkAt at T follows exactly the edges Walk follows on a table holding only the rows valid at T |
| EdgeWalk.WalkAtIsWalkWhenLate | internal/relationships/store.go:984-1028 | for T at or after every stamp of the table the two walks follow the same edges |
| EdgeWalk.WalkAtIsWalkThen | internal/relationships/store.go:984-1028 | after any run, WalkAt at T follows the edges a Walk followed once the operations up to T had run |
| WalkOverRows.InHopsIffInEdges | internal/relationships/store.go:882-890 | a node is a path of n hops away exactly when a chain of n rows, live at the time asked about and of a kind asked for, leads from the root to it, source to destination |
| WalkOverRows.TreeAnswers | internal/relationships/store.go:842-1062 | a shortest-path tree over the hops is the answer in terms of rows: a node is listed exactly when a chain of at most the depth's many live rows leads to it, at the length of the shortest, and each row but the root's names the ends and kinds of a live row it was reached over |
| EdgeStore.KeepFirst | internal/relationships/store.go:935-942 | the loop with the seen set returns the first row of every id, in order |
| EdgeStore.Store.constructor | internal/relationships/store.go:176-184 | a new store is empty and valid |
| EdgeStore.Store.Create | internal/relationships/store.go:282-367 | the whole new table, which error on which input, no change on an error, one-current kept; the added row says the draft's fields, its ValidFrom or now, and is open |
| EdgeStore.Store.Remove | internal/relationships/store.go:465-487 | the whole new table, idempotent on a missing edge, errors on empty ids and unknown kinds |
| EdgeStore.Store.BackfillRow | internal/relationships/store.go:431-444 | appends a row that says the draft's fields under its own stamps, or fails with the check's or the key's error and no change |
| EdgeStore.Store.BackfillBulk | internal/relationships/store.go:1164-1208 | all rows land or none: they land exactly when every draft is valid and no primary key repeats, within the batch included; each says its draft's fields |
| EdgeStore.Store.Fetch | internal/relationships/store.go:592-605 | the result loop returns every row the WHERE clause admits, in table order, and no other |
| EdgeStore.Store.ListOutgoing | internal/relationships/store.go:567-605 | exactly the current rows out of the source of the kind, errors on an empty id or unknown kind |
| EdgeStore.Store.ListIncoming | internal/relationships/store.go:613-643 | exactly the current rows into the destination of the kind |
| EdgeStore.Store.ListOutgoingAt | internal/relationships/store.go:669-711 | the rows out of the source valid at asOf, the current ones when asOf is absent |
| EdgeStore.Store.ListIncomingAt | internal/relationships/store.go:717-756 | the rows into the destination valid at asOf, the current ones when asOf is absent |
| EdgeStore.Store.History | internal/relationships/store.go:773-802 | every row with these ends and this kind, sorted by valid_from |
| EdgeStore.Store.Get | internal/relationships/store.go:1109-1147 | the current row of the tuple, the only one when the table keeps one-current, or none |
| EdgeStore.Store.Walk | internal/relationships/store.go:842-963 | in terms of rows: the root, then each node that a chain of at most maxDepth (100 when out of 0..100) current rows of the kinds asked for leads to, once, at the length of the shortest chain, with the row it was reached over; errors as the code checks them |
| EdgeStore.Store.WalkAt | internal/relationships/store.go:984-1062 | the same over the rows valid at asOf, or over the current rows when it is absent |
| ExecutionLog.TerminalClosesRun | internal/execution/store.go:638-662 | a terminal row takes exactly its own run out of flight |
| ExecutionLog.StartOpensRun | internal/execution/store.go:638-662 | a started row with a fresh run id is the one run added to those in flight |
| ExecutionLog.CompletedIffLatest | internal/execution/store.go:491-509 | an entity has completed if and only if its latest completed or failed row is a completed one |
| ExecutionLog.CompletedHasRow | internal/execution/store.go:491-509 | a completed entity has a completed row |
| ExecutionLog.Log.Insert | internal/execution/store.go:348-352 | appends the row, or rejects one without an entity and changes nothing |
| ExecutionLog.Log.QueryCompleted | internal/execution/store.go:491-509 | true exactly when the entity's latest terminal row is a completed one; error on an empty id |
| ExecutionLog.Log.ListInFlight | internal/execution/store.go:638-662 | exactly the started rows whose run has no completed or failed row |
| ExecutionLog.Log.MarkFailed | internal/execution/store.go:664-677 | appends one failed row for the run, whatever the entity |
| Dispatcher.DeadPrefix | cmd/serve.go:430-445 | the guard closes the runs before the first live one, all of them dead, and no other |
| Dispatcher.BuryList | cmd/serve.go:430-445 | failing a list of runs takes exactly those runs out of flight |
| Dispatcher.StartedRunIsAlone | cmd/serve.go:414-446 | however many dead runs earlier crashes left, after a dispatch that starts a run that run alone is in flight |
| Dispatcher.DispatchKeepsInv | cmd/serve.go:414-446 | a dispatch, refused or not, keeps at most one run in flight and the registry consistent with it |
| Dispatcher.SweepAdvances | cmd/serve.go:601-632 | a sweep appends only, undoes no completion and starts only tasks the gate admits at that moment |
| Dispatcher.SweepErrorIsLast | cmd/serve.go:599-633 | a sweep returns the error of the last of its dispatches that failed |
| Dispatcher.EveryRunIsSafe | cmd/serve.go:601-647 | the whole gate, over every run of sweeps, direct dispatches, completions, failures, crashes and restarts: every started row finds its depends_on targets still completed and its own task not completed if and only if each direct dispatch is refused or starts a ready task; such a run keeps one run in flight and every completion |
| Dispatcher.FreshRunIsOrdered | cmd/serve.go:601-647 | from an empty log: one run in flight whatever happens, and every started row of the log was gated if and only if every direct dispatch was admitted |
| Dispatcher.UngatedDispatchBreaksOrder | cmd/serve.go:646-647 | a direct dispatch that starts a task that is not ready leaves a started row the gate would not have admitted, for good |
| Dispatcher.EveryRunIsSingleFlight | cmd/serve.go:414-446 | one run in flight also with ungated dispatches |
| Dispatcher.SweepStartsAfterCompletions | cmd/serve.go:601-632 | from any log at all, whatever a sweep starts comes after a completed row of each of its depends_on targets |
| OneAgent.AgentKeepsOthersOut | cmd/serve.go:414-446 | over every run, restarts and direct dispatches included: from the step that enters a started row until a step crashes that run or ends it as the registered one, no row enters the log and every dispatch returns an error |
| OneAgent.CrashLetsNextIn | cmd/serve.go:425-446 | and no longer: after the crash the next dispatch of a startable task records the crashed run as failed and starts its own |
| OneAgent.EndLetsNextIn | cmd/serve.go:414-446 | after the recorded end of the run the next dispatch of a startable task starts, and closes nothing |
| DependencyOrder.DispatchIsOrderedIff | cmd/serve.go:414-548 | one dispatch, whatever it closes first, keeps the dependency order if and only if it is refused or every target of its task has a completed row |
| DependencyOrder.EveryRunIsOrderedIff | cmd/serve.go:601-647 | from any state: every started row of a run follows a completed row of each depends_on target of its task if and only if every direct dispatch of the run is refused or starts a task whose targets have all run |
| DirectDispatch.DirectRunKeepsCompletionsIff | cmd/serve.go:414-548 | from any state whatever, a task fired past the gate whose run then fails leaves all completions standing if and only if it was not itself completed and no run of a completed task was in flight |
| DirectDispatch.CrashedRunKeepsCompletionsIff | cmd/serve.go:425-446 | the same, with fresh run ids, when the run crashes unrecorded and the next dispatch, of whatever task, closes it as a zombie |
| DirectDispatch.EveryRunKeepsCompletions | cmd/serve.go:414-647 | completions stand over any run in which no direct dispatch starts a completed task, failures, crashes and zombie closing included |
| DirectDispatch.CompletionsStandIff | cmd/serve.go:414-647 | at every point of a run what is completed stands through all gated steps to come if and only if no direct dispatch of the run starts a completed task |
| DirectDispatch.DirectDispatchBreaksOrder | cmd/serve.go:646-647 | a run in which a task starts before its depends_on target has run, against the order and the gate |
| DirectDispatch.DirectDispatchUndoesCompletion | cmd/serve.go:646-647 | a run with an ungated dispatch that undoes a completion |
| Progress.AcyclicHasSink | cmd/serve.go:601-632 | among any non-empty set of tasks without a dependency cycle one depends on none of the set |
| Progress.SweepStartsFirstReady | cmd/serve.go:600-633 | with no run live a sweep starts the first ready task of its list and leaves the rest alone |
| Progress.SweepMakesProgress | cmd/serve.go:601-632 | acyclic dependencies, no live run, something incomplete: a sweep puts an incomplete task in flight |
| Progress.SweepsFinishAllTasks | cmd/serve.go:601-632 | if every started run completes, as many sweeps as there are tasks complete them all |
| Progress.CycleNeverRuns | cmd/serve.go:601-632 | in no run that keeps the dependency order does a task on a dependency cycle get a row in the log |
| DispatchEngine.Engine.constructor | cmd/serve.go:205-214 | the engine starts with an empty log and nothing running |
| DispatchEngine.Engine.CloseZombies | cmd/serve.go:425-446 | the loop over in-flight runs fails exactly the dead prefix and reports whether it met a live agent |
| DispatchEngine.Engine.Dispatch | cmd/serve.go:414-548 | the closure's new state and error are those of the step the theorems are about |
| DispatchEngine.Engine.Blocked | cmd/serve.go:613-624 | blocked exactly when some depends_on target has not completed |
| DispatchEngine.Engine.FireTasks | cmd/serve.go:599-633 | the sweep loop's new state and last error are those of the sweep the theorems are about |
| DispatchEngine.Engine.RunEnds | cmd/serve.go:213-220 | the end of a registered run is recorded, then the run is forgotten |
| DagChain.DepsAreCurrentEdges | cmd/serve.go:613-619 | the gate's targets are exactly the current depends_on edges out of the task |
| DagChain.OwnerInFields | cmd/serve.go:222-225 | the owner is the source of the first current owns edge into the task from a manifest or product |
| DagChain.AllDoneInFields | cmd/serve.go:238-251 | the manifest has a current owns edge, and every task at the end of one is completed |
| DagChain.DownstreamInFields | cmd/serve.go:253-259 | one manifest is fired per current depends_on edge from a manifest to this one, in the table's order |
| DagChain.DownstreamAreDependents | cmd/serve.go:253-259 | an id is among them if and only if it is the source of such an edge |
| ChainEngine.DispatchAtomicTasks | cmd/serve.go:555-634 | firing a group is one sweep, over current edges, of exactly the list collectAll finds under it; an error and no sweep for an unknown parent |
| DagChain.TasksOfAreCollected | cmd/serve.go:567-592 | that list is duplicate-free, of active tasks reachable through groups, and all of them where no id is mixed |
| ChainEngine.FindOwner | cmd/serve.go:223-225 | the first current owner that is a manifest or product, or none exists |
| ChainEngine.QueryAllDone | cmd/serve.go:238-251 | the manifest owns something and every task it owns directly is completed |
| ChainEngine.DispatchEach | cmd/serve.go:256-264 | the loop over downstream manifests is one sweep of each list, in order |
| ChainEngine.DispatchNext | cmd/serve.go:234-266 | a finished manifest, and no other owner, fires the manifests downstream, one sweep of each list |
| ChainEngine.OnTaskCompleted | cmd/serve.go:220-268 | the callback is a series of sweeps: of the owner, and if the owner is then a finished manifest, of each manifest downstream; with no run live it starts a task if and only if one of the owner's list is ready and startable, or the owner is a finished manifest and one of a manifest with a current depends_on edge to it is |
| ChainEngine.CompletionStartsIff | cmd/serve.go:220-268 | the same about the sweeps, and the started row is of a task on one of the lists |
| DagChain.ChainIsSafe | cmd/serve.go:220-268 | those sweeps keep every promise of a run |
| DagChain.ChainStartsFirstReady | cmd/serve.go:226-266 | with no run live a completion starts exactly one task, the first ready one of the lists it sweeps |
| DagChain.OtherTasksWaitForManifest | cmd/serve.go:234-266 | it starts a task outside its owner's list only when the owner is a manifest with every directly owned task completed and none on its list ready, and the task is on the list collected under a manifest downstream |
| CalmSweeps.StartedByIff | cmd/serve.go:226-266 | with no run live, the sweep that starts a run is that of the first list in which some task is ready and can be started |
| EarlyStart.StartsEarlyIff | cmd/serve.go:234-266 | a completion starts a task in the sweep of a manifest with a task or manifest dependency that is not done if and only if its owner is a done manifest with no ready task left and the first manifest downstream with a ready task has such a dependency |
| EarlyStart.CanStartEarlyIff | cmd/serve.go:234-266 | over all states: a table allows such an early start if and only if some manifest downstream can be the first to start a task while a task it depends on, or a task of a manifest it depends on, is neither the owner's nor among that task's own dependencies, or such a manifest owns nothing |
| EarlyStart.FinishingMakesDoneIff | cmd/serve.go:238-251 | finishing every collected task of a manifest makes it done if and only if it owns something and every task it owns directly is collected |
| EarlyStart.OwnedIsCollectedIffActive | cmd/serve.go:573-581 | where no id is mixed, a directly owned task is collected if and only if it is neither archived nor closed |
| EarlyStart.DoneMeansFinishedIff | cmd/serve.go:238-251 | a done manifest has no collected task left if and only if it owns nothing or owns every collected task directly |
| EarlyStart.DownstreamIgnoresOtherDeps | cmd/serve.go:254-264 | a completion that starts a task of a manifest whose other dependency has run nothing, for any ids |
| TaskWalk.CollectKeepsInv | cmd/serve.go:570-591 | the walk reaches groups through groups and tasks through groups only, and has seen every child of each group it entered |
| TaskWalk.WalkIsSound | cmd/serve.go:567-592 | it hands on no id twice, and only active tasks other than the parent that groups lead to |
| TaskWalk.ReachedTaskIsMet | cmd/serve.go:570-592 | a finished walk has met every task reachable through groups, where no node is mixed |
| TaskWalk.MixedNodeIsLost | cmd/serve.go:573-587 | for every node reached both ways some listing order of the same rows loses it although it is active |
| TaskWalk.ExactInEveryOrderIff | cmd/serve.go:567-592 | the walk is exact for every listing order of the rows and every assignment of statuses if and only if no node but the parent is reached both as a task and as a group |
| TaskOrder.DirectTasksInRowOrder | cmd/serve.go:570-591 | under a parent that owns tasks only, tasks are listed in the order of the rows that own them |
| TaskCollector.Collector.constructor | cmd/serve.go:567-569 | the parent is seen from the start and no task is listed |
| TaskCollector.Collector.MeetTask | cmd/serve.go:573-581 | a task is marked seen once and listed if active: one step of the walk function |
| TaskCollector.Collector.EnterGroup | cmd/serve.go:582-587 | a group not seen before is marked seen, before the recursion |
| TaskCollector.Collector.CollectAll | cmd/serve.go:570-591 | the recursion terminates on cyclic graphs and does what the walk function does |
| TaskCollector.TasksUnder | cmd/serve.go:567-592 | returns the list of the walk function: without duplicates, only non-archived, non-closed tasks other than the parent reachable by an owns path through non-tasks, and all of them where no id is reached both as a task and as a group |
| TaskCollector.DisagreeingKindsLoseTask | cmd/serve.go:573-587 | a table where an id has both kinds and the walk loses the task |
| Propagation.ExhaustedWalkIsExact | internal/task/manifest_activation.go:97-140 | once the queue is empty the flipped nodes are exactly those to be activated |
| Propagation.OpenReachIsChain | internal/task/manifest_activation.go:97-140 | in terms of the lookups: a node is reached exactly at the end of a chain of dependents that were all satisfied and flipped without an error |
| Propagation.ActivatesInLookups | internal/task/manifest_activation.go:105-137 | activated is each satisfied node, other than the closed one, that depends on the end of such a chain |
| Propagation.FlippedIsSum | internal/task/manifest_activation.go:118-131 | the total is the sum of what the flips returned, a failed flip counting nothing |
| Propagation.Visit | internal/task/manifest_activation.go:105-137 | one dependent is visited once, flipped only if satisfied, queued only if its flip succeeded |
| Propagation.Propagate | internal/task/manifest_activation.go:83-141 | terminates on cyclic graphs, flips no node twice, and without a failing dependents lookup flips precisely the satisfied nodes other than the closed one reachable along dependents whose every later node passes; fails exactly when such a lookup does |
| Propagation.PropagateClosed | internal/task/product_activation.go:63-111 | the same walk for products, with the empty-id error and the total of the flips |
| ScheduleModel.ReloadIdempotent | internal/schedule/runner.go:102-146 | reloading again on the same rows changes nothing |
| ScheduleModel.StepKeepsInv | internal/schedule/store.go:559-581 | every atomic step keeps each row's fires accounted for by runs_so_far, plus at most one on a closed row |
| ScheduleModel.FiresAreBounded | internal/schedule/store.go:505-581 | in every run with atomic Reload and fire a schedule with max_runs m fires at most m minus its initial runs_so_far times, closed or not |
| ScheduleModel.OneFireBetweenReloads | internal/schedule/runner.go:200-210 | between two reloads a schedule fires at most once, recurring or not |
| ScheduleModel.DisabledNeverFires | internal/schedule/store.go:505-510 | over every run with atomic reloads, and every run whose late reloads do not list it, a schedule created disabled is never registered and never fires |
| ScheduleModel.FiresAgainIff | internal/schedule/runner.go:102-210 | after a successful fire the next tick fires the schedule again if and only if a reload since then listed it, it parsed, and nothing dropped it after that |
| ScheduleModel.RecurringLosesSecondTick | internal/schedule/runner.go:200-210 | a run in which an unlimited recurring schedule, still due, loses its second tick |
| ScheduleModel.LateReloadOverspendsIff | internal/schedule/runner.go:103-108 | from any state in which a limited schedule is not overspent, one late reload and one fire overspend it if and only if it was spent, and the list named it while it was registered or could be parsed |
| ScheduleModel.NoneSpentRegisteredIff | internal/schedule/runner.go:102-212 | over every run with split reloads: no registered schedule is ever spent if and only if no late reload lists and parses a schedule spent at that moment; then none is ever overspent |
| ScheduleModel.SpentRegisteredOverspends | internal/schedule/runner.go:163-212 | the next fire of a spent schedule that is registered is one too many |
| ScheduleModel.FiresAreBoundedIfNoneSpentRelisted | internal/schedule/store.go:505-581 | the fire bound, max_runs minus the initial count, over every such run with split reloads |
| ScheduleModel.LateReloadOverfires | internal/schedule/runner.go:103-108 | a run in which a schedule with max_runs 1 fires twice |
| ScheduleRunner.Runner.constructor | internal/schedule/runner.go:55-77 | nothing scheduled, nothing registered |
| ScheduleRunner.Runner.Create | internal/schedule/store.go:245-300 | opens the given row under a fresh id, or says which of entity, kind and run_at is empty |
| ScheduleRunner.Runner.Close | internal/schedule/store.go:373-387 | closes the row if it is open, error on a non-positive id |
| ScheduleRunner.Runner.CloseStaleOneShots | internal/schedule/store.go:539-557 | each open row with an empty or "once" expression and a past run_at gets the end stamp, every other row is untouched |
| ScheduleRunner.Runner.Unregister | internal/schedule/runner.go:205-210 | removes exactly one id and keeps entries and cron in bijection |
| ScheduleRunner.Runner.Register | internal/schedule/runner.go:150-157 | adds exactly one id under a new cron entry and keeps the bijection |
| ScheduleRunner.Runner.DropStale | internal/schedule/runner.go:117-123 | keeps exactly the wanted entries, untouched |
| ScheduleRunner.Runner.AddMissing | internal/schedule/runner.go:125-144 | adds exactly the wanted rows that parse, leaving existing entries alone |
| ScheduleRunner.Runner.ReloadLocked | internal/schedule/runner.go:108-146 | for whatever list was read: entries and cron end in bijection, kept entries are not restarted, a second call does nothing |
| ScheduleRunner.Runner.Reload | internal/schedule/runner.go:102-146 | afterwards an id is registered if and only if its row is open, enabled and has a run left, and it was registered before or parses; an entry that stays is not restarted |
| ScheduleRunner.Runner.RunJob | internal/schedule/runner.go:163-212 | a successful fire adds one to runs_so_far of the open row, disables it when that reaches max_runs, and removes the entry; a failed dispatch changes nothing |
| SettingsModel.KnobByKeyFinds | internal/settings/catalog.go:166-173 | the linear scan finds each knob of a catalog with distinct keys |
| SettingsModel.ValidIffDecodesFaithfully | internal/settings/catalog.go:194-271 | the validator accepts a document if and only if it decodes to a value that says the same, whole numbers as integers |
| SettingsModel.ValidInFields | internal/settings/catalog.go:194-271 | what is accepted kind by kind - every whole number in int64 range for an int knob, and no other - and which error else |
| SettingsModel.WarningsInFields | internal/settings/catalog.go:273-284 | a number past a slider is accepted with the warning for that end, and nothing else is warned about |
| SettingsModel.UnknownKeyInFields | internal/settings/catalog.go:194-198 | the unknown-key error comes exactly for a key no knob of the catalog has |
| SettingsModel.DecodesInFields | internal/settings/resolver.go:298-374 | what decodes is what has the right shape, and null, which decodes to a zero value |
| SettingsModel.LazyIsEager | internal/settings/resolver.go:98-152 | where the scope can be promoted, promoting it lazily gives the effective value over the promoted scope |
| SettingsModel.EffectiveIsInnermost | internal/settings/resolver.go:98-152 | task before manifest before product before the default: the answer's source is the innermost tier with a row, and its value what that row decodes to |
| SettingsModel.LazyWithoutPromotion | internal/settings/resolver.go:98-152 | where a wired lookup fails, Resolve still answers only from the task or manifest tier |
| SettingsModel.NilLookupsPromoteNothing | internal/settings/resolver.go:98-152 | without adapters the scope is resolved as given |
| SettingsModel.SetThenResolve | internal/settings/resolver.go:98-152 | a validated value set at a scope with an id and resolved there is the value validated, with that scope as its source; set at the system tier or without an id it is never read and the default comes back |
| SettingsResolver.Resolver.NormalizeScope | internal/settings/resolver.go:201-226 | ids the caller pinned stay as given, a missing manifest or product id becomes the lookup's answer, a nil or failing lookup is an error |
| SettingsResolver.Resolver.TryScope | internal/settings/resolver.go:230-243 | a miss exactly when the tier stores no row; a hit names the tier and id and says what a valid stored document says |
| SettingsResolver.Resolver.ResolveOne | internal/settings/resolver.go:98-152 | one knob, tier by tier with lazy promotion |
| SettingsResolver.Resolver.SnapshotScope | internal/settings/resolver.go:248-263 | exactly the rows of one scope, keyed by knob, empty for an absent scope |
| SettingsResolver.Resolver.PickFromMaps | internal/settings/resolver.go:265-296 | from faithful snapshots, the effective value over the full scope |
| SettingsResolver.Resolver.ResolveAll | internal/settings/resolver.go:163-193 | succeeds exactly when the scope can be promoted and every knob resolves alone, and then agrees with Resolve on value, tier and id for every knob |
| EntityStore.ReplaySays | internal/entity/store.go:225-270 | after any run an entity's one current row says exactly what its own operations made of it |
| EntityStore.VersionsTileTime | internal/entity/store.go:108-163 | for every T exactly one row of a created entity is valid at T, and it says what the last operation at or before T left; none before its creation |
| EntityStore.OriginNeverChanges | internal/entity/store.go:238-247 | type and created_at are the same in all versions of an entity |
| EntityStore.Store.Create | internal/entity/store.go:108-140 | appends one open version that says the given fields, with status "draft" for want of one |
| EntityStore.Store.Update | internal/entity/store.go:225-270 | closes the current version and adds one with the new content and the old type and created_at, or fails on an unknown entity without change |
| EntityStore.Store.GetAt | internal/entity/store.go:153-163 | a row of the entity valid at asOf with the greatest valid_from, none only if none is valid |
| EntityStore.Store.GetAtReplays | internal/entity/store.go:153-163 | over a replayed table, the effect of the entity's last operation at or before asOf |
| EntityTypes.RenameCarriesUid | internal/entity/types_store.go:233-295 | Rename fails without change exactly when the old name is unknown or the new one taken; otherwise the new name holds the old uid |
| EntityTypes.RenameInFields | internal/entity/types_store.go:233-295 | a successful Rename closes the old name's row and adds one with its uid, the new name and the given look, field by field |
| EntityTypes.EveryRunKeepsInv | internal/entity/types_store.go:110-295 | over every run one current row per name and one per type_uid |
| EntityTypes.UidEndsOnlyByCreate | internal/entity/types_store.go:162-214 | one operation ends an issued uid if and only if it is a Create on the name the uid holds |
| EntityTypes.UidLivesUntilCreate | internal/entity/types_store.go:162-295 | over a whole run, through any renames, an issued uid stays current if and only if no Create falls on the name it then holds |
| EntityTypes.SeedIsIdempotent | internal/entity/types_store.go:110-134 | a second Seed changes nothing, and after the first every built-in is current |
| EntityTypes.SeedInFields | internal/entity/types_store.go:110-134 | one new row for each missing built-in, each current built-in row with a default colour or icon restyled, every other row as it was |
| EntityTypes.Store.Create | internal/entity/types_store.go:162-214 | closes the current row of the name and adds one under a fresh uid with the given look, a default colour and icon for want of one, keeping the invariant |
| EntityTypes.Store.Rename | internal/entity/types_store.go:233-295 | the new table: the old name's row closed, one with the same uid, the new name and the given look added; which of the two errors and when |
| EntityTypes.Store.Seed | internal/entity/types_store.go:110-134 | one new row for each missing built-in, each current built-in row with a default colour or icon restyled, every other row untouched |
| WordMatcher.FoundIffWholeWord | internal/action/polarity.go:277-300 | what the loop can find is every whole word, for a non-empty word; the empty word is missed exactly in a text that starts with a word character, ends in another, and has no two others side by side |
| WordMatcher.WholeWordSplits | internal/action/polarity.go:284-292 | a whole word is a place where the text splits into before, word and after, the word being no piece of a longer one |
| WordMatcher.WordCharacters | internal/action/polarity.go:302-304 | the word characters by their codes: ASCII letters, digits and the underscore |
| WordMatcher.IndexFrom | internal/action/polarity.go:280-283 | the first occurrence at or after a start, or that there is none |
| WordMatcher.ContainsWord | internal/action/polarity.go:277-300 | terminates, and is true exactly when some occurrence, overlapping ones included, has a boundary on both sides |
| WordMatcher.CheckForbiddenPatterns | internal/action/polarity.go:264-274 | the first listed pattern that stands in the lower-cased text as a whole word, or none does |
| WordMatcher.LowerFolds | internal/action/polarity.go:189-189 | a capital becomes the letter 32 codes further on, nothing else changes |
| WordMatcher.FieldsAreRuns | internal/action/polarity.go:194-194 | splitting lists exactly the maximal runs of non-space characters, in order |
| WordMatcher.CleanPatternCuts | internal/action/polarity.go:307-312 | cleaning removes trailing punctuation, then quotes and brackets from both ends, as far as they reach, and nothing else |
| WordMatcher.ForbiddenInWords | internal/action/polarity.go:199-221 | a forbidden candidate is a word after no, not, never, without or "instead of" that passes the tool test once cleaned |
| WordMatcher.RequiredInWords | internal/action/polarity.go:223-249 | a required candidate is a word after "use", "use only" or an opening "only" |
| WordMatcher.AlternativesInWords | internal/action/polarity.go:347-363 | which words a required one rules out |
| WordMatcher.Dedupe | internal/action/polarity.go:365-375 | each value once, where it first stands |
| WordMatcher.Subtract | internal/action/polarity.go:377-389 | the values of the first list not in the second, in order |
| WordMatcher.KeepTools | internal/action/polarity.go:201-245 | the cleaned candidates the tool test admits, in order |
| WordMatcher.ExtractPatterns | internal/action/polarity.go:188-260 | duplicate-free, disjoint lists of words that pass the tool test, never empty; a word is in them if and only if the text names it so or it is an inferred alternative; in the order of the text |
| Migration.MigrateProbesAll | internal/relationships/migrate_legacy.go:55-92 | the migration only appends, keeps primary keys unique, counts what it appended, and on success every legacy row is skipped or found |
| Migration.MigrationKeepsDirections | internal/relationships/migrate_legacy.go:97-373 | after a success every legacy row with non-empty, distinct ends has a row of the same direction |
| Migration.MigratedRowsInFields | internal/relationships/migrate_legacy.go:97-373 | every row the migration adds is, field by field, one of the four legacy tables |
| Migration.SecondRunInsertsNothing | internal/relationships/migrate_legacy.go:55-92 | an immediate second run, at any later clock, inserts nothing and cannot fail |
| Migration.MigrateSucceedsIff | internal/relationships/migrate_legacy.go:97-373 | from an empty table it succeeds if and only if every task dependency has a valid_from and no manifest is its own product |
| Migration.MigrationKeepsOneCurrent | internal/relationships/migrate_legacy.go:305-373 | from an empty table, with at most one open row per task pair and task pairs apart from product and manifest pairs, one current row per tuple, on failing runs too |
| Migration.OneCurrentIffNoClash | internal/relationships/migrate_legacy.go:171-373 | a migration that succeeds from an empty table keeps one current row per tuple if and only if no two of the legacy rows that are new open the same tuple |
| Migration.SharedPairBreaksOneCurrent | internal/relationships/migrate_legacy.go:343-368 | a product pair that is also an open task pair ends with two current rows |
| Migration.CopyInto | internal/relationships/migrate_legacy.go:340-372 | the skip, probe, insert, count loop over the live store, stopping at the first error |
| Migration.MigrateLegacyDeps | internal/relationships/migrate_legacy.go:55-92 | the four tables in order over the live store; an error reports no count and leaves what was copied before it |

## Left out

- EdgeHistory.AsOfIsReplay: leaves out `created_by` and `reason`, which Remove overwrites on the row it closes; atomic Create with the default ValidFrom and atomic Remove only, because the interval order fails otherwise (EdgeRace).
- EdgeHistory.HistoryAdjacency: with equal stamps a Remove and a Create of one tick are adjacent too, so adjacency is stated by whether the tuple was still current, not by which call closed it.
- EdgeStore.Store.QueryPaths: the recursive query is modelled by its rows; the readers above it rely on the multiset of those rows and on no order.
- TaskCollector.TasksUnder: for one listing order of a table with a mixed id it states no completeness; `TaskWalk.ExactInEveryOrderIff` quantifies over the orders, which SQL leaves open.
- EarlyStart.CanStartEarlyIff: over states in which everything the table names exists and every task can be started. Dependencies of a manifest on anything but tasks and manifests are never counted as not done: the dispatcher has no notion of a product or skill being done.
- Ids are UUIDs: the log lines of the dispatcher slice the first 12 bytes of an id, and a shorter one would stop it. Ids here are any strings.
- WordMatcher.ExtractPatterns: the table of common words is data, written once, as is that of the built-in types in EntityTypes.
- Propagation.Propagate: states which ids are flipped and how often, not in which order.
- ScheduleModel.FiresAreBounded: Reload as one atomic section, and MarkFired does not fail; FiresAreBoundedIfNoneSpentRelisted has the bound with split reloads.
- ScheduleModel.NoneSpentRegisteredIff: a late reload lists rows that exist; rows are never deleted, so what it read earlier does.
- SettingsModel.SetThenResolve: any catalog with distinct keys; the shipped table of knobs is not reproduced. Rows of the system tier are never read by the resolver, as in the code.
- Migration.MigrationKeepsOneCurrent: the condition that task pairs are apart from product and manifest pairs is one the code needs; OneCurrentIffNoClash gives the exact one.
- Timestamps are natural numbers of a non-decreasing clock. The text form is not modelled: RFC3339Nano drops trailing zeros, `MarkFailed` writes whole seconds, and section 5.1 of RFC 3339 promises string order only for equal numbers of fractional digits.
- The execution log's rows stand in created_at order, so "latest" is "last appended".
- A malformed asOf text is rejected before a reader does anything else; here asOf is a stamp or absent.
- SQL text, indexes, schema creation and drivers: only filter, order, transaction rollback and key or index failure are kept. Database errors other than those are not modelled.
- Readers list rows in table order where the SQL gives none; the owner of a task is its first in that order.
- Agent processes, prompts, skills and branches in `dispatch`: a run is alive or not. `runner.Execute` is taken to record a started row and register the run before it returns; the late end of a run whose process was declared dead is not modelled.
- `dispatch` is one atomic step; two concurrent calls are not modelled. The callback of a completed task runs on its own goroutine in the program; here it is the sweeps it makes, at any later moment of a run.
- `MarkFailed` is taken to insert its row, although it omits columns that a fresh schema declares without a default, and its error is dropped.
- Sample, turn and usage columns of the log, `HasCompletedSince`, `LatestRun` and the other log readers: easy members.
- Cron expression parsing, `oneShot.Next` and cron's own scheduler: registering a row succeeds or fails, and a registered job may fire at any time.
- Float64 rounding in settings: numbers are reals, and the conversion to int64 is that of amd64. JSON text is taken as parsed.
- Unicode in rule texts: case folding and white space are ASCII.
- `ListOutgoingForMany`, `ListIncomingForMany`, `Health`, entity list, search and history readers, `ListAsOf`, `ClassifyPolarity` and the rule pattern table: they would add easy members.
- Missing legacy tables and columns are empty ones in the migration, as the code treats them; `migrateTaskOwnership` does nothing.
- Schema changes, HTTP and MCP handlers, sync, chat, embeddings, the dashboard and the command line.
