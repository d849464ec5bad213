/** The chain as it runs: the methods the end of a task sets off, and which task
    they start. */
module ChainEngine {
  import opened Common
  import opened Sequences
  import opened EdgeModel
  import opened ExecutionLog
  import opened Dispatcher
  import opened DispatchEngine
  import opened TaskWalk
  import opened DagChain
  import opened CalmSweeps
  import TaskCollector
  import Progress

  // ---- Which task a completion starts ---------------------------------------

  /** Some task on the list of a manifest with a current depends_on edge to this one
      is ready and can be started. */
  ghost predicate DownstreamFires(log: seq<Event>, rows: seq<Edge>, entities: Entities, manifest: string,
                                  startable: set<string>) {
    exists e, t ::
      && e in rows && e.validTo.None? && e.kind == "depends_on" && e.dstId == manifest && e.srcKind == "manifest"
      && t in TasksOf(rows, entities, e.srcId) && Fires(log, DepsIn(rows), startable, t)
  }

  /** A task the completion may start: one of the owner's list, or if none of those
      can, one of a manifest downstream of an owner that is a done manifest. */
  ghost predicate ChainFires(log: seq<Event>, rows: seq<Edge>, entities: Entities, owner: Edge,
                             startable: set<string>) {
    || !NoneFires(log, DepsIn(rows), startable, TasksOf(rows, entities, owner.srcId))
    || (owner.srcKind == "manifest" && AllDone(log, rows, owner.srcId)
        && DownstreamFires(log, rows, entities, owner.srcId, startable))
  }

  lemma DownstreamListFires(log: seq<Event>, rows: seq<Edge>, entities: Entities, manifest: string,
                            startable: set<string>)
    ensures DownstreamFires(log, rows, entities, manifest, startable) <==>
              exists j :: 0 <= j < |Downstream(rows, manifest)| &&
                !NoneFires(log, DepsIn(rows), startable, TasksOf(rows, entities, Downstream(rows, manifest)[j]))
  {
    var next := Downstream(rows, manifest);
    var at := DownstreamInFields(rows, manifest);
    if DownstreamFires(log, rows, entities, manifest, startable) {
      var e, t :| && e in rows && e.validTo.None? && e.kind == "depends_on" && e.dstId == manifest
                  && e.srcKind == "manifest" && t in TasksOf(rows, entities, e.srcId)
                  && Fires(log, DepsIn(rows), startable, t);
      var k: nat :| k < |rows| && rows[k] == e;
      assert k in at;
      var j :| 0 <= j < |at| && at[j] == k;
      assert next[j] == e.srcId;
    }
    if j :| 0 <= j < |next| && !NoneFires(log, DepsIn(rows), startable, TasksOf(rows, entities, next[j])) {
      assert at[j] in at && rows[at[j]] in rows && next[j] == rows[at[j]].srcId;
    }
  }

  /** Some list of the chain has a task that fires. */
  ghost predicate SomeList(log: seq<Event>, deps: Deps, startable: set<string>, lists: seq<seq<string>>) {
    exists i :: 0 <= i < |lists| && !NoneFires(log, deps, startable, lists[i])
  }

  lemma SomeListAfter(log: seq<Event>, deps: Deps, startable: set<string>, first: seq<string>, more: seq<seq<string>>)
    ensures SomeList(log, deps, startable, [first] + more)
            <==> !NoneFires(log, deps, startable, first) || SomeList(log, deps, startable, more)
  {
    var lists := [first] + more;
    assert lists[0] == first && forall i :: 0 <= i < |more| ==> lists[i + 1] == more[i];
    if i: nat :| i < |lists| && !NoneFires(log, deps, startable, lists[i]) {
      assert i > 0 ==> lists[i] == more[i - 1];
    }
  }

  /** What is fired after a sweep of the owner's list that started nothing. */
  lemma NextListsFire(s: State, rows: seq<Edge>, entities: Entities, owner: Edge, startable: set<string>)
    requires Calm(s) && NoneFires(s.log, DepsIn(rows), startable, TasksOf(rows, entities, owner.srcId))
    ensures var next := NextManifests(OwnerSwept(s, rows, entities, owner, startable).log, rows, owner);
            SomeList(s.log, DepsIn(rows), startable, MapSeq(next, ListOf(rows, entities)))
            <==> owner.srcKind == "manifest" && AllDone(s.log, rows, owner.srcId)
                 && DownstreamFires(s.log, rows, entities, owner.srcId, startable)
  {
    var swept := OwnerSwept(s, rows, entities, owner, startable);
    CalmSweepSkips(s, TasksOf(rows, entities, owner.srcId), DepsIn(rows), startable);
    SameDone(s.log, swept.log, rows, owner.srcId);
    DownstreamListFires(s.log, rows, entities, owner.srcId, startable);
    var next := NextManifests(swept.log, rows, owner);
    var lists := MapSeq(next, ListOf(rows, entities));
    assert forall j :: 0 <= j < |next| ==> lists[j] == TasksOf(rows, entities, next[j]);
  }

  lemma ChainListsFire(s: State, rows: seq<Edge>, entities: Entities, task: string, startable: set<string>)
    requires Calm(s)
    ensures SomeList(s.log, DepsIn(rows), startable, ChainLists(s, rows, entities, task, startable)) <==>
              Owner(rows, task).Some? && ChainFires(s.log, rows, entities, Owner(rows, task).value, startable)
  {
    if Owner(rows, task).Some? {
      var owner := Owner(rows, task).value;
      var own := TasksOf(rows, entities, owner.srcId);
      var next := NextManifests(OwnerSwept(s, rows, entities, owner, startable).log, rows, owner);
      SomeListAfter(s.log, DepsIn(rows), startable, own, MapSeq(next, ListOf(rows, entities)));
      if NoneFires(s.log, DepsIn(rows), startable, own) {
        NextListsFire(s, rows, entities, owner, startable);
      }
    }
  }

  /** A started row of one of the lists has entered the log. */
  ghost predicate StartsFrom(before: seq<Event>, after: seq<Event>, lists: seq<seq<string>>) {
    exists i, j :: |before| <= i < |after| && after[i].kind == Started
                   && 0 <= j < |lists| && after[i].entity in lists[j]
  }

  lemma RegisteredHasRow(s: State, after: State, lists: seq<seq<string>>, j: nat, t: string)
    requires Inv(s) && Inv(after) && s.log <= after.log && after.registry == map[t := s.next]
    requires j < |lists| && t in lists[j]
    ensures StartsFrom(s.log, after.log, lists)
  {
    var e := Event(Started, s.next, t);
    assert t in after.registry && e in InFlight(after.log);
    SelectIn(after.log, OpenIn(after.log), e);
    assert forall i :: 0 <= i < |s.log| ==> after.log[i] == s.log[i] && s.log[i].run < s.next;
    var i :| 0 <= i < |after.log| && after.log[i] == e;
  }

  /** With no run live, a completion starts a task exactly when some task it may start
      is ready and startable; which list it is from is what StartedByIff says. */
  lemma CompletionStartsIff(s: State, rows: seq<Edge>, entities: Entities, task: string, startable: set<string>)
    requires Calm(s)
    ensures var lists := ChainLists(s, rows, entities, task, startable);
            var after := SweepAll(s, lists, DepsIn(rows), startable);
            && (after.registry != map[] <==>
                  Owner(rows, task).Some? && ChainFires(s.log, rows, entities, Owner(rows, task).value, startable))
            && (after.registry != map[] ==> StartsFrom(s.log, after.log, lists))
  {
    var deps := DepsIn(rows);
    var lists := ChainLists(s, rows, entities, task, startable);
    ChainListsFire(s, rows, entities, task, startable);
    ChainIsSafe(s, lists, deps, startable);
    if SomeList(s.log, deps, startable, lists) {
      var m: nat :| m < |lists| && !NoneFires(s.log, deps, startable, lists[m]);
      var i := EarliestList(s.log, deps, startable, lists, m);
      FirstListStarts(s, lists, deps, startable, i);
      BusyStays(s, lists, i + 1, deps, startable);
      var k :| 0 <= k < |lists[i]| && SweepAll(s, lists, deps, startable).registry == map[lists[i][k] := s.next];
      RegisteredHasRow(s, SweepAll(s, lists, deps, startable), lists, i, lists[i][k]);
    } else {
      CalmChainSkips(s, lists, deps, startable);
    }
  }

  // ---- The methods ------------------------------------------------------------

  /** One firing of a manifest, product or other group: collect, then sweep. */
  method DispatchAtomicTasks(engine: Engine, rows: seq<Edge>, entities: Entities, parent: string,
                             startable: set<string>)
      returns (err: Option<DispatchError>)
    requires engine.Valid() && "" !in startable
    modifies engine, engine.log
    ensures engine.Valid()
    ensures engine.State() == Sweep(old(engine.State()), TasksOf(rows, entities, parent), DepsIn(rows), startable).0
    ensures parent in entities ==>
              err == Sweep(old(engine.State()), TasksOf(rows, entities, parent), DepsIn(rows), startable).1
    ensures parent !in entities ==> err == Some(NotStarted)
  {
    if parent !in entities {
      return Some(NotStarted);
    }
    var taskIds := TaskCollector.TasksUnder(rows, entities, parent);
    if taskIds == [] {
      return None;
    }
    err := engine.FireTasks(taskIds, DepsIn(rows), startable);
  }

  method FindOwner(rows: seq<Edge>, task: string) returns (owner: Option<Edge>)
    ensures owner == Owner(rows, task)
    ensures owner.Some? ==> owner.value in rows && OwnedByGroup(task)(owner.value)
    ensures owner.None? ==> forall e :: e in rows ==> !OwnedByGroup(task)(e)
  {
    for i := 0 to |rows|
      invariant forall k :: 0 <= k < i ==> !OwnedByGroup(task)(rows[k])
    {
      if rows[i].dstId == task && Current(rows[i]) && rows[i].kind == OWNS {
        if rows[i].srcKind == MANIFEST || rows[i].srcKind == PRODUCT {
          SelectFirst(rows, OwnedByGroup(task), i);
          return Some(rows[i]);
        }
      }
    }
    SelectNone(rows, OwnedByGroup(task));
    return None;
  }

  method QueryAllDone(engine: Engine, rows: seq<Edge>, manifest: string) returns (done: bool)
    requires engine.Valid()
    ensures done <==> AllDone(engine.log.events, rows, manifest)
  {
    var owned := Owned(rows, manifest);
    NobodyCompletesNothing(engine.log.events);
    for i := 0 to |owned|
      invariant forall k :: 0 <= k < i && owned[k].dstKind == TASK ==> HasCompleted(engine.log.events, owned[k].dstId)
    {
      if owned[i].dstKind == TASK {
        var completed := engine.log.QueryCompleted(owned[i].dstId);
        if completed != Ok(true) {
          return false;
        }
      }
    }
    return owned != [];
  }

  /** Fires the listed manifests one after another. */
  method DispatchEach(engine: Engine, rows: seq<Edge>, entities: Entities, next: seq<string>, startable: set<string>)
    requires engine.Valid() && "" !in startable
    modifies engine, engine.log
    ensures engine.Valid()
    ensures engine.State()
         == SweepAll(old(engine.State()), MapSeq(next, ListOf(rows, entities)), DepsIn(rows), startable)
  {
    ghost var s, lists := engine.State(), MapSeq(next, ListOf(rows, entities));
    for i := 0 to |next|
      invariant engine.Valid()
      invariant engine.State() == SweepAll(s, lists[..i], DepsIn(rows), startable)
    {
      var _ := DispatchAtomicTasks(engine, rows, entities, next[i], startable);
      assert lists[..i + 1][..i] == lists[..i];
    }
    assert lists[..|lists|] == lists;
  }

  /** Once the owner's own tasks are swept: fires what is downstream of it. */
  method DispatchNext(engine: Engine, rows: seq<Edge>, entities: Entities, owner: Edge, startable: set<string>)
    requires engine.Valid() && "" !in startable
    modifies engine, engine.log
    ensures engine.Valid()
    ensures var next := NextManifests(old(engine.log.events), rows, owner);
            engine.State()
            == SweepAll(old(engine.State()), MapSeq(next, ListOf(rows, entities)), DepsIn(rows), startable)
  {
    if owner.srcKind != MANIFEST {
      return;
    }
    var done := QueryAllDone(engine, rows, owner.srcId);
    if !done {
      return;
    }
    DispatchEach(engine, rows, entities, Downstream(rows, owner.srcId), startable);
  }

  /** The callback of a completed task. */
  method OnTaskCompleted(engine: Engine, rows: seq<Edge>, entities: Entities, task: string, startable: set<string>)
    requires engine.Valid() && "" !in startable
    modifies engine, engine.log
    ensures engine.Valid()
    ensures var s := old(engine.State());
            engine.State() == SweepAll(s, ChainLists(s, rows, entities, task, startable), DepsIn(rows), startable)
    ensures Calm(old(engine.State())) ==>
              (engine.registry != map[] <==>
                 && Owner(rows, task).Some?
                 && ChainFires(old(engine.log.events), rows, entities, Owner(rows, task).value, startable))
    ensures Calm(old(engine.State())) && engine.registry != map[] ==>
              StartsFrom(old(engine.log.events), engine.log.events,
                         ChainLists(old(engine.State()), rows, entities, task, startable))
  {
    ghost var s := engine.State();
    if Calm(s) {
      CompletionStartsIff(s, rows, entities, task, startable);
    }
    var owner := FindOwner(rows, task);
    if owner.None? {
      return;
    }
    var _ := DispatchAtomicTasks(engine, rows, entities, owner.value.srcId, startable);
    ghost var next := NextManifests(engine.log.events, rows, owner.value);
    DispatchNext(engine, rows, entities, owner.value, startable);
    SweepAllAfter(s, TasksOf(rows, entities, owner.value.srcId), MapSeq(next, ListOf(rows, entities)), DepsIn(rows),
                  startable);
  }
}
