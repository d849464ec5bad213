/** What a sweep reads and what the end of a task sets off: the tasks collected
    under a parent are swept, and when a task completes its owner is swept again
    and, once that manifest is done, every manifest depending on it. The methods
    are in ChainEngine. */
module DagChain {
  import opened Common
  import opened Sequences
  import opened EdgeModel
  import opened ExecutionLog
  import opened Dispatcher
  import opened TaskWalk
  import Progress

  const MANIFEST := "manifest"
  const PRODUCT := "product"

  // ---- The dependencies a table holds ---------------------------------------

  function Destination(e: Edge): string {
    e.dstId
  }

  function Targets(rows: seq<Edge>, task: string): seq<string> {
    MapSeq(Select(rows, OutgoingNow(task, DEPENDS_ON)), Destination)
  }

  function DepsIn(rows: seq<Edge>): Deps {
    map t | t in (set e: Edge | e in rows :: e.srcId) :: Targets(rows, t)
  }

  lemma DepsOfTable(rows: seq<Edge>, task: string)
    ensures DepsOf(DepsIn(rows), task) == Targets(rows, task)
  {
    var sources := set e: Edge | e in rows :: e.srcId;
    if task !in sources {
      assert forall i :: 0 <= i < |rows| ==> rows[i] in rows && rows[i].srcId in sources;
      SelectNone(rows, OutgoingNow(task, DEPENDS_ON));
    }
  }

  lemma TargetOf(rows: seq<Edge>, task: string, d: string)
    ensures d in Targets(rows, task) <==>
              exists e :: e in rows && OutgoingNow(task, DEPENDS_ON)(e) && e.dstId == d
  {
    var found := Select(rows, OutgoingNow(task, DEPENDS_ON));
    forall e: Edge ensures e in found <==> e in rows && OutgoingNow(task, DEPENDS_ON)(e) {
      SelectIn(rows, OutgoingNow(task, DEPENDS_ON), e);
    }
    if d in Targets(rows, task) {
      var i :| 0 <= i < |found| && Targets(rows, task)[i] == d;
      assert found[i] in found;
    }
    if e: Edge :| e in rows && OutgoingNow(task, DEPENDS_ON)(e) && e.dstId == d {
      var i :| 0 <= i < |found| && found[i] == e;
      assert Targets(rows, task)[i] == d;
    }
  }

  /** The gate reads exactly the current depends_on edges out of the task. */
  lemma DepsAreCurrentEdges(rows: seq<Edge>, task: string, d: string)
    ensures DepsOf(DepsIn(rows), task) == Targets(rows, task)
    ensures d in Targets(rows, task) <==>
              exists e :: e in rows && Current(e) && e.kind == DEPENDS_ON && e.srcId == task && e.dstId == d
  {
    DepsOfTable(rows, task);
    TargetOf(rows, task, d);
    if e: Edge :| e in rows && Current(e) && e.kind == DEPENDS_ON && e.srcId == task && e.dstId == d {
      assert OutgoingNow(task, DEPENDS_ON)(e);
    }
  }

  // ---- One firing of a group --------------------------------------------------

  /** The list a firing sweeps; a parent that does not exist has none. */
  function TasksOf(rows: seq<Edge>, entities: Entities, parent: string): seq<string> {
    if parent in entities then TasksFrom(rows, entities, parent) else []
  }

  /** What collectAll promises of that list. */
  lemma TasksOfAreCollected(rows: seq<Edge>, entities: Entities, parent: string)
    ensures var taskIds := TasksOf(rows, entities, parent);
            && Distinct(taskIds)
            && (forall t :: t in taskIds ==> t != parent && Active(entities, t) && TaskReach(rows, parent, t))
            && (parent in entities && Unmixed(rows, parent) ==>
                  forall t :: t in taskIds <==> t != parent && Active(entities, t) && TaskReach(rows, parent, t))
  {
    WalkIsSound(rows, entities, parent);
    var taskIds := TasksOf(rows, entities, parent);
    forall t | t in taskIds
      ensures TaskReach(rows, parent, t)
    {
      FirstIsReach(rows, parent, t);
    }
    if parent in entities && Unmixed(rows, parent) {
      UnmixedIsExact(rows, entities, parent);
    }
  }

  // ---- When a task completes -------------------------------------------------

  function OwnedByGroup(task: string): Edge -> bool {
    (e: Edge) => e.dstId == task && Current(e) && e.kind == OWNS && (e.srcKind == MANIFEST || e.srcKind == PRODUCT)
  }

  /** The first current owner that is a manifest or a product. */
  function Owner(rows: seq<Edge>, task: string): Option<Edge> {
    var owners := Select(rows, OwnedByGroup(task));
    if owners == [] then None else Some(owners[0])
  }

  /** The manifest owns something, and every task it owns directly is completed. */
  predicate AllDone(log: seq<Event>, rows: seq<Edge>, manifest: string) {
    var owned := Owned(rows, manifest);
    owned != [] && forall i :: 0 <= i < |owned| && owned[i].dstKind == TASK ==> HasCompleted(log, owned[i].dstId)
  }

  predicate IsManifestEdge(e: Edge) {
    e.srcKind == MANIFEST
  }

  function Source(e: Edge): string {
    e.srcId
  }

  /** The manifests with a current depends_on edge to this one. */
  function Downstream(rows: seq<Edge>, manifest: string): seq<string> {
    MapSeq(Select(Select(rows, IncomingNow(manifest, DEPENDS_ON)), IsManifestEdge), Source)
  }

  /** One entry per current depends_on edge that leads from a manifest to this one,
      in the table's order. */
  lemma DownstreamInFields(rows: seq<Edge>, manifest: string) returns (at: seq<nat>)
    ensures |at| == |Downstream(rows, manifest)| && forall i, j :: 0 <= i < j < |at| ==> at[i] < at[j]
    ensures forall k: nat :: k in at <==>
              && k < |rows| && rows[k].validTo.None? && rows[k].kind == "depends_on" && rows[k].dstId == manifest
              && rows[k].srcKind == "manifest"
    ensures forall i :: 0 <= i < |at| ==> at[i] < |rows| && Downstream(rows, manifest)[i] == rows[at[i]].srcId
  {
    var both := (e: Edge) => IncomingNow(manifest, DEPENDS_ON)(e) && IsManifestEdge(e);
    SelectTwice(rows, IncomingNow(manifest, DEPENDS_ON), IsManifestEdge, both);
    at := SelectIndices(rows, both);
  }

  /** The manifests fired are the sources of those edges. */
  lemma DownstreamAreDependents(rows: seq<Edge>, manifest: string, id: string)
    ensures id in Downstream(rows, manifest) <==>
              exists e :: e in rows && e.validTo.None? && e.kind == "depends_on" && e.dstId == manifest
                          && e.srcKind == "manifest" && e.srcId == id
  {
    var at := DownstreamInFields(rows, manifest);
    if id in Downstream(rows, manifest) {
      var i :| 0 <= i < |at| && Downstream(rows, manifest)[i] == id;
      assert at[i] in at && rows[at[i]] in rows;
    }
    if e: Edge :| e in rows && e.validTo.None? && e.kind == "depends_on" && e.dstId == manifest
                  && e.srcKind == "manifest" && e.srcId == id {
      var k: nat :| k < |rows| && rows[k] == e;
      assert k in at;
    }
  }

  /** The owner is the source of the first current owns edge into the task that comes
      from a manifest or a product. */
  lemma OwnerInFields(rows: seq<Edge>, task: string, k: nat)
    requires k < |rows|
    ensures Owner(rows, task).None? <==>
              forall e :: e in rows && e.dstId == task && e.validTo.None? && e.kind == "owns"
                          ==> e.srcKind != "manifest" && e.srcKind != "product"
    ensures && rows[k].dstId == task && rows[k].validTo.None? && rows[k].kind == "owns"
            && (rows[k].srcKind == "manifest" || rows[k].srcKind == "product")
            && (forall j :: 0 <= j < k && rows[j].dstId == task && rows[j].validTo.None? && rows[j].kind == "owns"
                            ==> rows[j].srcKind != "manifest" && rows[j].srcKind != "product")
            ==> Owner(rows, task) == Some(rows[k])
  {
    if forall e :: e in rows ==> !OwnedByGroup(task)(e) {
      SelectNone(rows, OwnedByGroup(task));
    } else {
      var e :| e in rows && OwnedByGroup(task)(e);
      SelectIn(rows, OwnedByGroup(task), e);
    }
    if OwnedByGroup(task)(rows[k]) && forall j :: 0 <= j < k ==> !OwnedByGroup(task)(rows[j]) {
      SelectFirst(rows, OwnedByGroup(task), k);
    }
  }

  /** The manifest is done when it has a current owns edge and every task at the end
      of one is completed. */
  lemma AllDoneInFields(log: seq<Event>, rows: seq<Edge>, manifest: string)
    ensures AllDone(log, rows, manifest) <==>
              && (exists e :: e in rows && e.srcId == manifest && e.validTo.None? && e.kind == "owns")
              && (forall e :: e in rows && e.srcId == manifest && e.validTo.None? && e.kind == "owns" ==>
                    e.dstKind == "task" ==> HasCompleted(log, e.dstId))
  {
    var owned := Owned(rows, manifest);
    forall e ensures e in owned <==> e in rows && e.srcId == manifest && e.validTo.None? && e.kind == "owns" {
      OwnedIn(rows, manifest, e);
    }
    assert owned != [] ==> owned[0] in owned;
  }

  function SweepAll(s: State, lists: seq<seq<string>>, deps: Deps, startable: set<string>): State {
    if lists == [] then s
    else Sweep(SweepAll(s, lists[..|lists| - 1], deps, startable), lists[|lists| - 1], deps, startable).0
  }

  /** The manifests a completion fires after sweeping its owner's tasks: those
      downstream, if the log shows the owner to be a finished manifest. */
  function NextManifests(log: seq<Event>, rows: seq<Edge>, owner: Edge): seq<string> {
    if owner.srcKind == MANIFEST && AllDone(log, rows, owner.srcId) then Downstream(rows, owner.srcId) else []
  }

  function ListOf(rows: seq<Edge>, entities: Entities): string -> seq<string> {
    (parent: string) => TasksOf(rows, entities, parent)
  }

  function OwnerSwept(s: State, rows: seq<Edge>, entities: Entities, owner: Edge, startable: set<string>): State {
    Sweep(s, TasksOf(rows, entities, owner.srcId), DepsIn(rows), startable).0
  }

  /** The lists a completion sweeps: the owner's tasks, then those of each manifest
      it fires after that. */
  function ChainLists(s: State, rows: seq<Edge>, entities: Entities, task: string, startable: set<string>)
      : seq<seq<string>>
  {
    match Owner(rows, task)
    case None => []
    case Some(owner) =>
      [TasksOf(rows, entities, owner.srcId)] +
      MapSeq(NextManifests(OwnerSwept(s, rows, entities, owner, startable).log, rows, owner), ListOf(rows, entities))
  }

  lemma SweepAllSnoc(s: State, lists: seq<seq<string>>, last: seq<string>, deps: Deps, startable: set<string>)
    ensures SweepAll(s, lists + [last], deps, startable)
         == Sweep(SweepAll(s, lists, deps, startable), last, deps, startable).0
  {
    assert (lists + [last])[..|lists|] == lists;
  }

  lemma {:induction false} SweepAllAfter(s: State, first: seq<string>, more: seq<seq<string>>, deps: Deps,
                                         startable: set<string>)
    ensures SweepAll(s, [first] + more, deps, startable)
         == SweepAll(Sweep(s, first, deps, startable).0, more, deps, startable)
  {
    if more == [] {
      SweepAllSnoc(s, [], first, deps, startable);
      assert [] + [first] == [first] + more;
    } else {
      var before, last := more[..|more| - 1], more[|more| - 1];
      SweepAllAfter(s, first, before, deps, startable);
      SweepAllSnoc(s, [first] + before, last, deps, startable);
      assert [first] + before + [last] == [first] + more;
    }
  }

  // ---- What a completion can start -------------------------------------------

  /** The sweeps a completion sets off keep every promise of a run. */
  lemma {:induction false} ChainIsSafe(s: State, lists: seq<seq<string>>, deps: Deps, startable: set<string>)
    requires Inv(s) && DoneIsQuiet(s.log)
    ensures var after := SweepAll(s, lists, deps, startable);
            Inv(after) && DoneIsQuiet(after.log) && Advances(s.log, after.log, deps)
  {
    if lists != [] {
      var rest, last := lists[..|lists| - 1], lists[|lists| - 1];
      ChainIsSafe(s, rest, deps, startable);
      var before := SweepAll(s, rest, deps, startable);
      SweepAdvances(before, last, deps, startable);
      AdvancesTransitive(s.log, before.log, Sweep(before, last, deps, startable).0.log, deps);
    }
  }

  ghost predicate NoneReady(log: seq<Event>, deps: Deps, tasks: seq<string>) {
    forall t :: t in tasks ==> !Ready(log, deps, t)
  }

  lemma {:induction false} SweepAllSkips(s: State, lists: seq<seq<string>>, deps: Deps, startable: set<string>)
    requires forall i :: 0 <= i < |lists| ==> NoneReady(s.log, deps, lists[i])
    ensures SweepAll(s, lists, deps, startable) == s
  {
    if lists != [] {
      SweepAllSkips(s, lists[..|lists| - 1], deps, startable);
      assert NoneReady(s.log, deps, lists[|lists| - 1]);
      Progress.SweepSkips(s, lists[|lists| - 1], deps, startable);
    }
  }

  /** lists[i][k] is the first ready task, reading the lists one after another. */
  ghost predicate FirstReadyIn(log: seq<Event>, deps: Deps, lists: seq<seq<string>>, i: nat, k: nat) {
    && i < |lists| && k < |lists[i]| && Ready(log, deps, lists[i][k])
    && (forall j :: 0 <= j < k ==> !Ready(log, deps, lists[i][j]))
    && (forall j :: 0 <= j < i ==> NoneReady(log, deps, lists[j]))
  }

  /** With no run live, a completion starts exactly one task: the first ready one
      of the lists it sweeps. */
  lemma {:induction false} ChainStartsFirstReady(s: State, lists: seq<seq<string>>, deps: Deps, startable: set<string>,
                                                 i: nat, k: nat)
    requires Progress.NoLiveRun(s) && FirstReadyIn(s.log, deps, lists, i, k) && lists[i][k] in startable
    ensures SweepAll(s, lists, deps, startable) == Dispatch(s, lists[i][k], startable).0
    ensures Dispatch(s, lists[i][k], startable).1.None?
  {
    var last := |lists| - 1;
    if i == last {
      SweepAllSkips(s, lists[..last], deps, startable);
      Progress.SweepStartsFirstReady(s, lists[last], deps, startable, k);
    } else {
      ChainStartsFirstReady(s, lists[..last], deps, startable, i, k);
      var busy := SweepAll(s, lists[..last], deps, startable);
      assert lists[i][k] in busy.registry && lists[last][..0] == [];
      Progress.SweepWhileBusy(busy, lists[last], 0, deps, startable);
    }
  }

  /** A completion starts a task outside its owner's list only when the owner is a
      manifest, every task it owns directly is completed, none of the owner's list is
      ready, and the task is on the list of a manifest downstream. */
  lemma OtherTasksWaitForManifest(s: State, rows: seq<Edge>, entities: Entities, task: string, startable: set<string>,
                                  i: nat, k: nat)
    requires Progress.NoLiveRun(s)
    requires var lists := ChainLists(s, rows, entities, task, startable);
             FirstReadyIn(s.log, DepsIn(rows), lists, i, k) && lists[i][k] !in lists[0]
    ensures Owner(rows, task).Some? && Owner(rows, task).value.srcKind == MANIFEST
    ensures var id := Owner(rows, task).value.srcId;
            && AllDone(s.log, rows, id) && NoneReady(s.log, DepsIn(rows), TasksOf(rows, entities, id))
            && 1 <= i <= |Downstream(rows, id)|
            && ChainLists(s, rows, entities, task, startable)[i] == TasksOf(rows, entities, Downstream(rows, id)[i - 1])
  {
    var lists := ChainLists(s, rows, entities, task, startable);
    assert NoneReady(s.log, DepsIn(rows), lists[0]);
    Progress.SweepSkips(s, lists[0], DepsIn(rows), startable);
  }
}
