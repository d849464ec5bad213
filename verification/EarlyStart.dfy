/** What the callback of a completed task does not ask: a manifest is fired when one
    of the manifests it depends on is done, whatever its other dependencies. When
    that starts a task too early, state by state and table by table. */
module EarlyStart {
  import opened Common
  import opened Sequences
  import opened EdgeModel
  import opened ExecutionLog
  import opened Dispatcher
  import opened TaskWalk
  import opened DagChain
  import opened CalmSweeps

  // ---- When a completion starts a task too early ------------------------------

  function DependencyEdges(rows: seq<Edge>, manifest: string): seq<Edge> {
    Select(rows, OutgoingNow(manifest, DEPENDS_ON))
  }

  /** What it takes for a dependency to be done: a task must be completed, a manifest
      must own something and have its directly owned tasks completed. Nothing is
      asked of other kinds, for which the dispatcher has no notion of being done. */
  predicate EdgeDone(log: seq<Event>, rows: seq<Edge>, e: Edge) {
    if e.dstKind == TASK then HasCompleted(log, e.dstId)
    else e.dstKind == MANIFEST ==> AllDone(log, rows, e.dstId)
  }

  /** Some dependency of the manifest is not done. */
  ghost predicate Unfinished(log: seq<Event>, rows: seq<Edge>, manifest: string) {
    exists e :: e in DependencyEdges(rows, manifest) && !EdgeDone(log, rows, e)
  }

  /** The completion starts a task in the sweep of a manifest of which some
      dependency is not done. */
  ghost predicate StartsEarly(s: State, rows: seq<Edge>, entities: Entities, task: string, startable: set<string>) {
    && Owner(rows, task).Some?
    && var owner := Owner(rows, task).value;
       var next := NextManifests(OwnerSwept(s, rows, entities, owner, startable).log, rows, owner);
       exists j :: 0 <= j < |next| && Unfinished(s.log, rows, next[j])
                   && StartedBy(s, ChainLists(s, rows, entities, task, startable), DepsIn(rows), startable, 1 + j)
  }

  /** The lists of the manifests downstream. */
  function NextLists(rows: seq<Edge>, entities: Entities, id: string): seq<seq<string>> {
    MapSeq(Downstream(rows, id), ListOf(rows, entities))
  }

  /** Manifest j downstream is the first of which some task is ready. */
  ghost predicate FirstDownstream(log: seq<Event>, rows: seq<Edge>, entities: Entities, startable: set<string>,
                                  id: string, j: nat) {
    FirstList(log, DepsIn(rows), startable, NextLists(rows, entities, id), j)
  }

  /** The owner is a done manifest without a ready task left. */
  ghost predicate OwnerSpent(log: seq<Event>, rows: seq<Edge>, entities: Entities, owner: Edge,
                             startable: set<string>)
  {
    && owner.srcKind == MANIFEST && AllDone(log, rows, owner.srcId)
    && NoneFires(log, DepsIn(rows), startable, TasksOf(rows, entities, owner.srcId))
  }

  /** The first manifest downstream with a ready task has a dependency not done. */
  ghost predicate FirstReadyIsUnfinished(log: seq<Event>, rows: seq<Edge>, entities: Entities, startable: set<string>,
                                         id: string) {
    exists j: nat :: FirstDownstream(log, rows, entities, startable, id, j)
                     && Unfinished(log, rows, Downstream(rows, id)[j])
  }

  /** The guard the code lacks. With no run live, a completion starts a task too
      early exactly when its owner is a manifest that is done and has no ready task
      left, and the first manifest downstream with a ready task has a dependency
      that is not done. */
  lemma StartsEarlyIff(s: State, rows: seq<Edge>, entities: Entities, task: string, startable: set<string>)
    requires Calm(s)
    ensures StartsEarly(s, rows, entities, task, startable) <==>
              && Owner(rows, task).Some?
              && OwnerSpent(s.log, rows, entities, Owner(rows, task).value, startable)
              && FirstReadyIsUnfinished(s.log, rows, entities, startable, Owner(rows, task).value.srcId)
  {
    if Owner(rows, task).Some? {
      var owner := Owner(rows, task).value;
      var lists, deps := ChainLists(s, rows, entities, task, startable), DepsIn(rows);
      if NoneFires(s.log, deps, startable, lists[0]) {
        SpentOwnerIff(s, rows, entities, task, startable, owner);
      } else {
        forall i: nat | i > 0
          ensures !StartedBy(s, lists, deps, startable, i)
        {
          StartedByIff(s, lists, deps, startable, i);
        }
      }
    }
  }

  lemma SpentOwnerIff(s: State, rows: seq<Edge>, entities: Entities, task: string, startable: set<string>, owner: Edge)
    requires Calm(s) && Owner(rows, task) == Some(owner)
    requires NoneFires(s.log, DepsIn(rows), startable, TasksOf(rows, entities, owner.srcId))
    ensures StartsEarly(s, rows, entities, task, startable) <==>
              && OwnerSpent(s.log, rows, entities, owner, startable)
              && FirstReadyIsUnfinished(s.log, rows, entities, startable, owner.srcId)
  {
    var first, deps := TasksOf(rows, entities, owner.srcId), DepsIn(rows);
    var swept := OwnerSwept(s, rows, entities, owner, startable);
    CalmSweepSkips(s, first, deps, startable);
    SameDone(s.log, swept.log, rows, owner.srcId);
    var next := NextManifests(s.log, rows, owner);
    var lists := [first] + MapSeq(next, ListOf(rows, entities));
    assert ChainLists(s, rows, entities, task, startable) == lists;
    forall j: nat
      ensures StartedBy(s, lists, deps, startable, 1 + j)
              <==> FirstList(s.log, deps, startable, MapSeq(next, ListOf(rows, entities)), j)
    {
      StartedByIff(s, lists, deps, startable, 1 + j);
      FirstListAfter(s.log, deps, startable, first, MapSeq(next, ListOf(rows, entities)), j);
    }
  }

  lemma FirstListAfter(log: seq<Event>, deps: Deps, startable: set<string>, first: seq<string>, more: seq<seq<string>>,
                       j: nat)
    requires NoneFires(log, deps, startable, first)
    ensures FirstList(log, deps, startable, [first] + more, 1 + j) <==> FirstList(log, deps, startable, more, j)
  {
    var lists := [first] + more;
    assert lists[0] == first && forall m :: 0 <= m < |more| ==> lists[1 + m] == more[m];
    if FirstList(log, deps, startable, more, j) {
      forall m | 0 <= m < 1 + j
        ensures NoneFires(log, deps, startable, lists[m])
      {
        assert m > 0 ==> lists[m] == more[m - 1];
      }
    }
    if FirstList(log, deps, startable, lists, 1 + j) {
      forall m | 0 <= m < j
        ensures NoneFires(log, deps, startable, more[m])
      {
        assert lists[1 + m] == more[m];
      }
    }
  }

  // ---- Which tables allow it ------------------------------------------------

  predicate OwnsTask(rows: seq<Edge>, id: string, t: string) {
    exists i :: 0 <= i < |Owned(rows, id)| && Owned(rows, id)[i].dstKind == TASK && Owned(rows, id)[i].dstId == t
  }

  /** The dependency e can be undone while id is done and t is ready: it is a task that
      neither id owns nor t depends on, or a manifest that owns nothing or owns such
      a task. */
  ghost predicate CanLag(rows: seq<Edge>, id: string, t: string, e: Edge) {
    if e.dstKind == TASK then LooseTask(rows, id, t, e.dstId)
    else e.dstKind == MANIFEST
         && (Owned(rows, e.dstId) == [] || exists u :: OwnsTask(rows, e.dstId, u) && LooseTask(rows, id, t, u))
  }

  predicate LooseTask(rows: seq<Edge>, id: string, t: string, u: string) {
    !OwnsTask(rows, id, u) && u !in Targets(rows, t)
  }

  /** t is first collected under manifest j downstream of id - not under id itself,
      which does not own it either, nor under an earlier one - and does not depend
      on itself. */
  ghost predicate FirstCollectedBy(rows: seq<Edge>, id: string, j: nat, t: string) {
    var next := Downstream(rows, id);
    && j < |next| && t in Walk(rows, next[j]).met
    && t !in Walk(rows, id).met && !OwnsTask(rows, id, t) && t !in Targets(rows, t)
    && forall m :: 0 <= m < j ==> t !in Walk(rows, next[m]).met
  }

  /** Some manifest downstream of id can start a task while one of its dependencies
      lags. */
  ghost predicate Exposed(rows: seq<Edge>, id: string) {
    exists j: nat, t, e :: FirstCollectedBy(rows, id, j, t) && e in DependencyEdges(rows, Downstream(rows, id)[j])
                           && CanLag(rows, id, t, e)
  }

  /** The manifests the edges name exist. */
  ghost predicate Exist(rows: seq<Edge>, entities: Entities) {
    forall e :: e in rows ==> e.srcId in entities && e.dstId in entities
  }

  lemma DownstreamExists(rows: seq<Edge>, entities: Entities, id: string, j: nat)
    requires Exist(rows, entities) && j < |Downstream(rows, id)|
    ensures Downstream(rows, id)[j] in entities
  {
    var incoming := Select(rows, IncomingNow(id, DEPENDS_ON));
    var e := Select(incoming, IsManifestEdge)[j];
    SelectIn(incoming, IsManifestEdge, e);
    SelectIn(rows, IncomingNow(id, DEPENDS_ON), e);
  }

  lemma OwnerIsRow(rows: seq<Edge>, task: string)
    requires Owner(rows, task).Some?
    ensures Owner(rows, task).value in rows
  {
    SelectIn(rows, OwnedByGroup(task), Owner(rows, task).value);
  }

  /** What an early start says about the table. */
  lemma EarlyStartExposes(log: seq<Event>, rows: seq<Edge>, entities: Entities, startable: set<string>, owner: Edge,
                          j: nat)
    requires Exist(rows, entities) && owner in rows
    requires OwnerSpent(log, rows, entities, owner, startable)
    requires FirstDownstream(log, rows, entities, startable, owner.srcId, j)
    requires Unfinished(log, rows, Downstream(rows, owner.srcId)[j])
    ensures Exposed(rows, owner.srcId)
  {
    var id, next := owner.srcId, Downstream(rows, owner.srcId);
    var lists := NextLists(rows, entities, id);
    assert forall m :: 0 <= m < |next| ==> lists[m] == TasksOf(rows, entities, next[m]);
    var t :| t in lists[j] && Fires(log, DepsIn(rows), startable, t);
    DownstreamExists(rows, entities, id, j);
    DepsOfTable(rows, t);
    TasksFromIn(rows, entities, next[j], t);
    TasksFromIn(rows, entities, id, t);
    forall m | 0 <= m < j
      ensures t !in Walk(rows, next[m]).met
    {
      DownstreamExists(rows, entities, id, m);
      TasksFromIn(rows, entities, next[m], t);
      assert NoneFires(log, DepsIn(rows), startable, lists[m]);
    }
    var e :| e in DependencyEdges(rows, next[j]) && !EdgeDone(log, rows, e);
    LaggingCanLag(log, rows, id, t, e);
    assert FirstCollectedBy(rows, id, j, t);
  }

  lemma UncompletedIsLoose(log: seq<Event>, rows: seq<Edge>, id: string, t: string, u: string)
    requires AllDone(log, rows, id) && !HasCompleted(log, u)
    requires forall v :: v in Targets(rows, t) ==> HasCompleted(log, v)
    ensures LooseTask(rows, id, t, u)
  {
  }

  lemma LaggingCanLag(log: seq<Event>, rows: seq<Edge>, id: string, t: string, e: Edge)
    requires AllDone(log, rows, id) && !EdgeDone(log, rows, e)
    requires forall v :: v in Targets(rows, t) ==> HasCompleted(log, v)
    ensures CanLag(rows, id, t, e)
  {
    if e.dstKind == TASK {
      UncompletedIsLoose(log, rows, id, t, e.dstId);
    } else {
      var owned := Owned(rows, e.dstId);
      if owned != [] {
        var i :| 0 <= i < |owned| && owned[i].dstKind == TASK && !HasCompleted(log, owned[i].dstId);
        assert OwnsTask(rows, e.dstId, owned[i].dstId);
        UncompletedIsLoose(log, rows, id, t, owned[i].dstId);
      }
    }
  }

  // ---- A state for every set of completed tasks ---------------------------------

  /** A fresh run that completes at once. */
  lemma CompletedRun(log: seq<Event>, run: RunId, t: string)
    requires InFlight(log) == [] && forall i :: 0 <= i < |log| ==> log[i].run != run
    ensures var longer := log + [Event(Started, run, t)] + [Event(Completed, run, t)];
            && InFlight(longer) == []
            && forall u :: HasCompleted(longer, u) <==> HasCompleted(log, u) || u == t
  {
    var started, completed := Event(Started, run, t), Event(Completed, run, t);
    var one := log + [started];
    StartOpensRun(log, started);
    TerminalClosesRun(one, completed);
    SelectNone(InFlight(one), NotRun(run));
    forall u ensures HasCompleted(one + [completed], u) <==> HasCompleted(log, u) || u == t {
      CompletedSnoc(log, started, u);
      CompletedSnoc(one, completed, u);
    }
  }

  lemma OneMore(before: State, t: string) returns (s: State)
    requires Calm(before) && InFlight(before.log) == []
    ensures Calm(s) && InFlight(s.log) == []
    ensures forall u :: HasCompleted(s.log, u) <==> HasCompleted(before.log, u) || u == t
  {
    var run := before.next;
    CompletedRun(before.log, run, t);
    s := State(before.log + [Event(Started, run, t)] + [Event(Completed, run, t)], map[], before.alive, run + 1);
  }

  lemma {:induction false} StateWith(done: set<string>) returns (s: State)
    ensures Calm(s) && InFlight(s.log) == []
    ensures forall t :: HasCompleted(s.log, t) <==> t in done
  {
    if done == {} {
      s := INITIAL;
    } else {
      var t :| t in done;
      var before := StateWith(done - {t});
      s := OneMore(before, t);
    }
  }

  function Names(rows: seq<Edge>): set<string> {
    Destinations(rows) + set e | e in rows :: e.srcId
  }

  /** Everything named in the table exists; t alone is active. */
  function OnlyActive(rows: seq<Edge>, t: string): Entities {
    map n | n in Names(rows) :: if n == t then "active" else ARCHIVED
  }

  lemma OnlyActiveTasks(rows: seq<Edge>, t: string, parent: string)
    requires parent in OnlyActive(rows, t) && t in Names(rows)
    ensures forall u :: u in TasksOf(rows, OnlyActive(rows, t), parent) <==> u == t && t in Walk(rows, parent).met
  {
    forall u ensures u in TasksOf(rows, OnlyActive(rows, t), parent) <==> u == t && t in Walk(rows, parent).met {
      TasksFromIn(rows, OnlyActive(rows, t), parent, u);
    }
  }

  lemma MetIsNamed(rows: seq<Edge>, parent: string, t: string)
    requires t in Walk(rows, parent).met
    ensures t in Destinations(rows)
  {
    WalkIsClosed(rows, parent);
    assert TaskReachFirst(rows, parent, t);
  }

  lemma TargetsAreNamed(rows: seq<Edge>, t: string)
    ensures forall d :: d in Targets(rows, t) ==> d in Destinations(rows)
  {
    forall d | d in Targets(rows, t)
      ensures d in Destinations(rows)
    {
      TargetOf(rows, t, d);
    }
  }

  lemma OwnedIsNamed(rows: seq<Edge>, id: string)
    ensures forall i :: 0 <= i < |Owned(rows, id)| ==> Owned(rows, id)[i].dstId in Destinations(rows)
  {
    OwnedAllIn(rows, id);
  }

  /** A task whose absence from the completed ones leaves the dependency undone. */
  lemma LaggingTask(rows: seq<Edge>, id: string, t: string, e: Edge) returns (u: string)
    requires LooseTask(rows, id, t, t) && CanLag(rows, id, t, e)
    ensures LooseTask(rows, id, t, u)
    ensures forall log :: !HasCompleted(log, u) ==> !EdgeDone(log, rows, e)
  {
    if e.dstKind == TASK {
      u := e.dstId;
    } else if Owned(rows, e.dstId) == [] {
      u := t;
    } else {
      u :| OwnsTask(rows, e.dstId, u) && LooseTask(rows, id, t, u);
    }
  }

  /** The state that shows the gap: everything is completed but t and one more task. */
  lemma GapState(rows: seq<Edge>, id: string, t: string, e: Edge) returns (s: State)
    requires Owned(rows, id) != [] && LooseTask(rows, id, t, t) && CanLag(rows, id, t, e)
    ensures Calm(s) && AllDone(s.log, rows, id) && !EdgeDone(s.log, rows, e) && Ready(s.log, DepsIn(rows), t)
  {
    var u := LaggingTask(rows, id, t, e);
    s := StateWith(Destinations(rows) - {t, u});
    OwnedIsNamed(rows, id);
    TargetsAreNamed(rows, t);
    DepsOfTable(rows, t);
    forall i | 0 <= i < |Owned(rows, id)| && Owned(rows, id)[i].dstKind == TASK
      ensures HasCompleted(s.log, Owned(rows, id)[i].dstId)
    {
      assert OwnsTask(rows, id, Owned(rows, id)[i].dstId);
    }
  }

  lemma OnlyTaskIsFirst(log: seq<Event>, rows: seq<Edge>, startable: set<string>, id: string, j: nat, t: string)
    requires FirstCollectedBy(rows, id, j, t) && Fires(log, DepsIn(rows), startable, t)
    ensures FirstDownstream(log, rows, OnlyActive(rows, t), startable, id, j)
  {
    var next, entities := Downstream(rows, id), OnlyActive(rows, t);
    var lists := NextLists(rows, entities, id);
    MetIsNamed(rows, next[j], t);
    forall m: nat | m < |next|
      ensures forall u :: u in lists[m] <==> u == t && t in Walk(rows, next[m]).met
    {
      DownstreamExists(rows, entities, id, m);
      OnlyActiveTasks(rows, t, next[m]);
      assert lists[m] == TasksOf(rows, entities, next[m]);
    }
  }

  lemma ExposedStartsEarly(rows: seq<Edge>, owner: Edge, j: nat, t: string, e: Edge)
      returns (s: State, entities: Entities)
    requires OwnsEdge(rows, owner) && owner.srcKind == MANIFEST
    requires FirstCollectedBy(rows, owner.srcId, j, t)
    requires e in DependencyEdges(rows, Downstream(rows, owner.srcId)[j]) && CanLag(rows, owner.srcId, t, e)
    ensures Calm(s) && Exist(rows, entities) && OwnerSpent(s.log, rows, entities, owner, Destinations(rows))
    ensures FirstDownstream(s.log, rows, entities, Destinations(rows), owner.srcId, j)
    ensures Unfinished(s.log, rows, Downstream(rows, owner.srcId)[j])
  {
    OwnedIn(rows, owner.srcId, owner);
    MetIsNamed(rows, Downstream(rows, owner.srcId)[j], t);
    s := GapState(rows, owner.srcId, t, e);
    entities := OnlyActive(rows, t);
    OnlyActiveTasks(rows, t, owner.srcId);
    OnlyTaskIsFirst(s.log, rows, Destinations(rows), owner.srcId, j, t);
  }

  /** Some calm state, with everything the table names in existence and every task
      startable, in which the completion of the task starts another too early. */
  ghost predicate CanStartEarly(rows: seq<Edge>, task: string) {
    exists s, entities :: Calm(s) && Exist(rows, entities) && StartsEarly(s, rows, entities, task, Destinations(rows))
  }

  lemma EarlyIsExposed(rows: seq<Edge>, task: string)
    requires CanStartEarly(rows, task)
    ensures Owner(rows, task).Some? && Owner(rows, task).value.srcKind == MANIFEST
    ensures Exposed(rows, Owner(rows, task).value.srcId)
  {
    var s, entities :| Calm(s) && Exist(rows, entities) && StartsEarly(s, rows, entities, task, Destinations(rows));
    StartsEarlyIff(s, rows, entities, task, Destinations(rows));
    var owner := Owner(rows, task).value;
    OwnerIsRow(rows, task);
    var j: nat :| FirstDownstream(s.log, rows, entities, Destinations(rows), owner.srcId, j)
                  && Unfinished(s.log, rows, Downstream(rows, owner.srcId)[j]);
    EarlyStartExposes(s.log, rows, entities, Destinations(rows), owner, j);
  }

  lemma ExposedIsEarly(rows: seq<Edge>, task: string)
    requires Owner(rows, task).Some? && Owner(rows, task).value.srcKind == MANIFEST
    requires Exposed(rows, Owner(rows, task).value.srcId)
    ensures CanStartEarly(rows, task)
  {
    var owner := Owner(rows, task).value;
    SelectIn(rows, OwnedByGroup(task), owner);
    var j: nat, t, e :| FirstCollectedBy(rows, owner.srcId, j, t)
                        && e in DependencyEdges(rows, Downstream(rows, owner.srcId)[j])
                        && CanLag(rows, owner.srcId, t, e);
    var s, entities := ExposedStartsEarly(rows, owner, j, t, e);
    StartsEarlyIff(s, rows, entities, task, Destinations(rows));
  }

  /** Over all states: a completion can start a task too early exactly when its owner
      is a manifest and some manifest downstream can be the first to start a task t
      while one of its dependencies lags: a task, or a task of a manifest, that the
      owner does not own and t does not depend on, or a manifest that owns nothing. */
  lemma CanStartEarlyIff(rows: seq<Edge>, task: string)
    ensures CanStartEarly(rows, task) <==>
              && Owner(rows, task).Some? && Owner(rows, task).value.srcKind == MANIFEST
              && Exposed(rows, Owner(rows, task).value.srcId)
  {
    if CanStartEarly(rows, task) {
      EarlyIsExposed(rows, task);
    } else if Owner(rows, task).Some? && Owner(rows, task).value.srcKind == MANIFEST {
      if Exposed(rows, Owner(rows, task).value.srcId) {
        ExposedIsEarly(rows, task);
      }
    }
  }

  // ---- Done is not the same as swept ------------------------------------------

  /** Every task collected under the manifest is completed: a sweep has nothing left. */
  predicate AllCollectedDone(log: seq<Event>, rows: seq<Edge>, entities: Entities, id: string) {
    forall t :: t in TasksOf(rows, entities, id) ==> HasCompleted(log, t)
  }

  /** Finishing every task the sweeps can fire makes the manifest done, and so fires
      what is downstream of it, exactly when it owns something and every task it owns
      directly is collected. An archived or closed one is not: unless it was completed
      earlier, it holds the chain up for good. */
  lemma FinishingMakesDoneIff(rows: seq<Edge>, entities: Entities, id: string)
    ensures (forall log :: AllCollectedDone(log, rows, entities, id) ==> AllDone(log, rows, id))
            <==> Owned(rows, id) != [] && forall u :: OwnsTask(rows, id, u) ==> u in TasksOf(rows, entities, id)
  {
    var tasks := TasksOf(rows, entities, id);
    if Owned(rows, id) != [] && forall u :: OwnsTask(rows, id, u) ==> u in tasks {
      forall log | AllCollectedDone(log, rows, entities, id)
        ensures AllDone(log, rows, id)
      {
        DoneIfOwnedCompleted(log, rows, id);
      }
    } else {
      var s := StateWith(set t | t in tasks);
      assert AllCollectedDone(s.log, rows, entities, id);
      if Owned(rows, id) != [] {
        var u :| OwnsTask(rows, id, u) && u !in tasks;
        assert !HasCompleted(s.log, u);
      }
      assert !AllDone(s.log, rows, id);
    }
  }

  lemma DoneIfOwnedCompleted(log: seq<Event>, rows: seq<Edge>, id: string)
    requires Owned(rows, id) != [] && forall u :: OwnsTask(rows, id, u) ==> HasCompleted(log, u)
    ensures AllDone(log, rows, id)
  {
    var owned := Owned(rows, id);
    forall i | 0 <= i < |owned| && owned[i].dstKind == TASK
      ensures HasCompleted(log, owned[i].dstId)
    {
      assert OwnsTask(rows, id, owned[i].dstId);
    }
  }

  /** Where no node is mixed and no manifest owns itself, that is: every task it owns
      directly is active. */
  lemma OwnedIsCollectedIffActive(rows: seq<Edge>, entities: Entities, id: string, u: string)
    requires id in entities && Unmixed(rows, id) && OwnsTask(rows, id, u) && u != id
    ensures u in TasksOf(rows, entities, id) <==> Active(entities, u)
  {
    var owned := Owned(rows, id);
    var i :| 0 <= i < |owned| && owned[i].dstKind == TASK && owned[i].dstId == u;
    OwnedIn(rows, id, owned[i]);
    assert OwnsPath(rows, id, []) && NoTaskOn([]) && End(id, []) == id && GroupReach(rows, id, id);
    assert TaskReach(rows, id, u);
    TasksOfAreCollected(rows, entities, id);
  }

  /** The other way round: a done manifest has no collected task left exactly when it
      owns nothing at all or every collected task is owned directly. One owned through
      a sub-group is not waited for. */
  lemma DoneMeansFinishedIff(rows: seq<Edge>, entities: Entities, id: string)
    ensures (forall log :: AllDone(log, rows, id) ==> AllCollectedDone(log, rows, entities, id))
            <==> Owned(rows, id) == [] || forall t :: t in TasksOf(rows, entities, id) ==> OwnsTask(rows, id, t)
  {
    var tasks := TasksOf(rows, entities, id);
    if Owned(rows, id) != [] && !(forall t :: t in tasks ==> OwnsTask(rows, id, t)) {
      var t :| t in tasks && !OwnsTask(rows, id, t);
      var s := StateWith(Destinations(rows) - {t});
      OwnedIsNamed(rows, id);
      forall u | OwnsTask(rows, id, u)
        ensures HasCompleted(s.log, u)
      {
      }
      DoneIfOwnedCompleted(s.log, rows, id);
      assert AllDone(s.log, rows, id) && !AllCollectedDone(s.log, rows, entities, id);
    } else {
      forall log | AllDone(log, rows, id)
        ensures AllCollectedDone(log, rows, entities, id)
      {
      }
    }
  }

  // ---- A table that does --------------------------------------------------------

  /** Three manifests and the one task each owns. */
  datatype Ids = Ids(a: string, b: string, c: string, ta: string, tb: string, tc: string)

  ghost predicate Apart(x: Ids) {
    Distinct([x.a, x.b, x.c, x.ta, x.tb, x.tc])
  }

  lemma ApartPairs(x: Ids)
    requires Apart(x)
    ensures x.a != x.b && x.a != x.c && x.b != x.c && x.ta != x.tb && x.ta != x.tc && x.tb != x.tc
    ensures x.a != x.ta && x.a != x.tb && x.a != x.tc && x.b != x.ta && x.b != x.tb && x.b != x.tc
    ensures x.c != x.ta && x.c != x.tb && x.c != x.tc
  {
    var all := [x.a, x.b, x.c, x.ta, x.tb, x.tc];
    assert all[0] == x.a && all[1] == x.b && all[2] == x.c && all[3] == x.ta && all[4] == x.tb && all[5] == x.tc;
  }

  function Holds(src: string, dst: string): Edge {
    Edge(MANIFEST, src, TASK, dst, OWNS, "", 0, None, "", "", 0)
  }

  function Needs(src: string, dst: string): Edge {
    Edge(MANIFEST, src, MANIFEST, dst, DEPENDS_ON, "", 0, None, "", "", 0)
  }

  /** Manifest c depends on manifests a and b. */
  function TwoUpstreams(x: Ids): seq<Edge> {
    [Holds(x.a, x.ta), Holds(x.b, x.tb), Holds(x.c, x.tc), Needs(x.c, x.a), Needs(x.c, x.b)]
  }

  lemma NoGroupBelow(rows: seq<Edge>, from: string, p: seq<Edge>)
    requires OwnsPath(rows, from, p) && NoTaskOn(p) && forall e :: OwnsEdge(rows, e) ==> e.dstKind == TASK
    ensures End(from, p) == from
  {
  }

  /** Where every owned node is a task, a parent that owns one task collects it alone. */
  lemma SingleTask(rows: seq<Edge>, entities: Entities, owner: Edge)
    requires forall e :: OwnsEdge(rows, e) ==> e.dstKind == TASK
    requires OwnsEdge(rows, owner) && owner.srcId != owner.dstId
    requires forall e :: OwnsEdge(rows, e) && e.srcId == owner.srcId ==> e == owner
    requires owner.srcId in entities && Active(entities, owner.dstId)
    ensures TasksOf(rows, entities, owner.srcId) == [owner.dstId]
  {
    var parent, t := owner.srcId, owner.dstId;
    assert OwnsPath(rows, parent, []) && NoTaskOn([]) && End(parent, []) == parent && GroupReach(rows, parent, parent);
    forall n | GroupReach(rows, parent, n)
      ensures n == parent
    {
      var p: seq<Edge> :| OwnsPath(rows, parent, p) && NoTaskOn(p) && End(parent, p) == n;
      NoGroupBelow(rows, parent, p);
    }
    TasksOfAreCollected(rows, entities, parent);
    var tasks := TasksOf(rows, entities, parent);
    assert TaskReach(rows, parent, t) && t in tasks;
    DistinctSingle(tasks, t);
  }

  lemma {:induction false} DistinctCount(s: seq<string>)
    requires Distinct(s)
    ensures |set x | x in s| == |s|
  {
    if s != [] {
      var rest, last := s[..|s| - 1], s[|s| - 1];
      DistinctCount(rest);
      assert s == rest + [last];
      assert (set x | x in s) == (set x | x in rest) + {last};
    }
  }

  lemma DistinctSingle(s: seq<string>, t: string)
    requires Distinct(s) && t in s && forall x :: x in s ==> x == t
    ensures s == [t]
  {
    DistinctCount(s);
    assert (set x | x in s) == {t};
    assert s[0] in s;
  }

  lemma OwnedOfTwo(x: Ids)
    requires Apart(x)
    ensures var rows := TwoUpstreams(x);
            Owner(rows, x.ta) == Some(rows[0]) && Owned(rows, x.a) == [rows[0]] && Owned(rows, x.b) == [rows[1]]
  {
    ApartPairs(x);
    var rows := TwoUpstreams(x);
    SelectOnly(rows, OwnedByGroup(x.ta), 0);
    SelectOnly(rows, OutgoingNow(x.a, OWNS), 0);
    SelectOnly(rows, OutgoingNow(x.b, OWNS), 1);
  }

  lemma OneDownstream(rows: seq<Edge>, manifest: string, i: nat)
    requires i < |rows| && IncomingNow(manifest, DEPENDS_ON)(rows[i]) && rows[i].srcKind == MANIFEST
    requires forall k :: 0 <= k < |rows| && k != i ==> !IncomingNow(manifest, DEPENDS_ON)(rows[k])
    ensures Downstream(rows, manifest) == [rows[i].srcId]
  {
    SelectOnly(rows, IncomingNow(manifest, DEPENDS_ON), i);
    SelectAll([rows[i]], IsManifestEdge);
  }

  lemma DownstreamOfTwo(x: Ids)
    requires Apart(x)
    ensures Downstream(TwoUpstreams(x), x.a) == [x.c]
  {
    ApartPairs(x);
    OneDownstream(TwoUpstreams(x), x.a, 3);
  }

  lemma TargetsOfTwo(x: Ids)
    requires Apart(x)
    ensures var rows := TwoUpstreams(x);
            Needs(x.c, x.b) in DependencyEdges(rows, x.c) && Targets(rows, x.ta) == [] && Targets(rows, x.tc) == []
  {
    ApartPairs(x);
    var rows := TwoUpstreams(x);
    assert rows[4] in rows && OutgoingNow(x.c, DEPENDS_ON)(rows[4]);
    SelectIn(rows, OutgoingNow(x.c, DEPENDS_ON), rows[4]);
    SelectNone(rows, OutgoingNow(x.ta, DEPENDS_ON));
    SelectNone(rows, OutgoingNow(x.tc, DEPENDS_ON));
  }

  lemma TasksOfTwo(x: Ids, entities: Entities)
    requires Apart(x) && x.a in entities && x.c in entities && Active(entities, x.ta) && Active(entities, x.tc)
    ensures var rows := TwoUpstreams(x);
            TasksOf(rows, entities, x.a) == [x.ta] && TasksOf(rows, entities, x.c) == [x.tc]
  {
    ApartPairs(x);
    var rows := TwoUpstreams(x);
    assert OwnsEdge(rows, rows[0]) && OwnsEdge(rows, rows[2]);
    SingleTask(rows, entities, rows[0]);
    SingleTask(rows, entities, rows[2]);
  }

  /** A done owner whose one task is completed, and one manifest downstream with one
      ready task: the completion starts that task. */
  lemma OneStartsOther(s: State, rows: seq<Edge>, entities: Entities, owner: Edge, c: string, t: string,
                       startable: set<string>)
    requires Calm(s) && Owner(rows, owner.dstId) == Some(owner) && owner.srcKind == MANIFEST
    requires AllDone(s.log, rows, owner.srcId) && Downstream(rows, owner.srcId) == [c]
    requires TasksOf(rows, entities, owner.srcId) == [owner.dstId] && HasCompleted(s.log, owner.dstId)
    requires TasksOf(rows, entities, c) == [t] && Fires(s.log, DepsIn(rows), startable, t)
    ensures SweepAll(s, ChainLists(s, rows, entities, owner.dstId, startable), DepsIn(rows), startable).registry
            == map[t := s.next]
    ensures Unfinished(s.log, rows, c) ==> StartsEarly(s, rows, entities, owner.dstId, startable)
  {
    var deps, lists := DepsIn(rows), [[owner.dstId], [t]];
    OneNextList(s, rows, entities, owner, c, t, startable);
    assert lists[0] == [owner.dstId] && lists[1] == [t];
    FirstListStarts(s, lists, deps, startable, 1);
    assert lists[..2] == lists;
  }

  lemma OneNextList(s: State, rows: seq<Edge>, entities: Entities, owner: Edge, c: string, t: string,
                    startable: set<string>)
    requires Calm(s) && Owner(rows, owner.dstId) == Some(owner) && owner.srcKind == MANIFEST
    requires AllDone(s.log, rows, owner.srcId) && Downstream(rows, owner.srcId) == [c]
    requires TasksOf(rows, entities, owner.srcId) == [owner.dstId] && HasCompleted(s.log, owner.dstId)
    requires TasksOf(rows, entities, c) == [t]
    ensures NextManifests(OwnerSwept(s, rows, entities, owner, startable).log, rows, owner) == [c]
    ensures ChainLists(s, rows, entities, owner.dstId, startable) == [[owner.dstId], [t]]
  {
    CalmSweepSkips(s, [owner.dstId], DepsIn(rows), startable);
    SameDone(s.log, OwnerSwept(s, rows, entities, owner, startable).log, rows, owner.srcId);
    assert MapSeq([c], ListOf(rows, entities)) == [[t]];
  }

  /** What matters of that table. */
  ghost predicate TwoUpstreamFacts(rows: seq<Edge>, x: Ids, entities: Entities) {
    && Owner(rows, x.ta).Some? && Owner(rows, x.ta).value == Holds(x.a, x.ta)
    && Owned(rows, x.a) == [Holds(x.a, x.ta)] && Owned(rows, x.b) == [Holds(x.b, x.tb)]
    && Downstream(rows, x.a) == [x.c] && Needs(x.c, x.b) in DependencyEdges(rows, x.c) && Targets(rows, x.tc) == []
    && TasksOf(rows, entities, x.a) == [x.ta] && TasksOf(rows, entities, x.c) == [x.tc]
  }

  lemma TwoUpstreamTable(x: Ids, entities: Entities) returns (rows: seq<Edge>)
    requires Apart(x) && x.a in entities && x.c in entities && Active(entities, x.ta) && Active(entities, x.tc)
    ensures TwoUpstreamFacts(rows, x, entities)
  {
    rows := TwoUpstreams(x);
    OwnedOfTwo(x);
    DownstreamOfTwo(x);
    TargetsOfTwo(x);
    TasksOfTwo(x, entities);
  }

  /** The end of the one task of a starts the task of c, although c depends on b as
      well and the task of b has not run. */
  lemma DownstreamIgnoresOtherDeps(x: Ids, entities: Entities) returns (s: State, rows: seq<Edge>)
    requires Apart(x) && x.a in entities && x.c in entities && Active(entities, x.ta) && Active(entities, x.tc)
    ensures Calm(s) && StartsEarly(s, rows, entities, x.ta, {x.tb, x.tc})
    ensures SweepAll(s, ChainLists(s, rows, entities, x.ta, {x.tb, x.tc}), DepsIn(rows), {x.tb, x.tc}).registry
            == map[x.tc := s.next]
    ensures x.tc in TasksOf(rows, entities, x.c) && Needs(x.c, x.b) in DependencyEdges(rows, x.c)
    ensures !AllDone(s.log, rows, x.b)
  {
    ApartPairs(x);
    s := StateWith({x.ta});
    rows := TwoUpstreamTable(x, entities);
    DepsOfTable(rows, x.tc);
    assert Owned(rows, x.b)[0].dstId == x.tb && !EdgeDone(s.log, rows, Needs(x.c, x.b));
    OneStartsOther(s, rows, entities, Holds(x.a, x.ta), x.c, x.tc, {x.tb, x.tc});
  }
}
