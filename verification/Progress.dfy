/** Progress of the dispatcher over one parent's tasks. */
module Progress {
  import opened Common
  import opened Sequences
  import opened ExecutionLog
  import opened Dispatcher
  import opened DependencyOrder

  // ---- Acyclic dependencies -----------------------------------------------

  /** Each entry of p depends on the next. */
  ghost predicate Linked(deps: Deps, p: seq<string>) {
    forall i, j :: 0 <= i && i + 1 == j < |p| ==> p[j] in DepsOf(deps, p[i])
  }

  ghost predicate Cycle(deps: Deps, p: seq<string>) {
    |p| >= 2 && p[0] == p[|p| - 1] && Linked(deps, p)
  }

  ghost predicate Within(p: seq<string>, tasks: set<string>) {
    forall i :: 0 <= i < |p| ==> p[i] in tasks
  }

  /** No cycle of dependencies runs through the given tasks alone. */
  ghost predicate Acyclic(deps: Deps, tasks: set<string>) {
    forall p :: Within(p, tasks) ==> !Cycle(deps, p)
  }

  function SetOf(tasks: seq<string>): set<string> {
    set t | t in tasks
  }

  /** A sequence longer than the set it draws from repeats a value. */
  lemma {:induction false} Pigeonhole(p: seq<string>, from: set<string>)
    requires |p| > |from| && Within(p, from)
    ensures exists i, j :: 0 <= i < j < |p| && p[i] == p[j]
  {
    var last := |p| - 1;
    if j :| 0 <= j < last && p[j] == p[last] {
    } else {
      Pigeonhole(p[..last], from - {p[last]});
      var i, j :| 0 <= i < j < last && p[..last][i] == p[..last][j];
      assert p[i] == p[j];
    }
  }

  ghost predicate DependsInto(deps: Deps, from: set<string>, t: string) {
    exists d :: d in DepsOf(deps, t) && d in from
  }

  lemma {:induction false} LongTrail(deps: Deps, from: set<string>, t: string, n: nat) returns (p: seq<string>)
    requires t in from && forall u {:trigger DependsInto(deps, from, u)} :: u in from ==> DependsInto(deps, from, u)
    ensures |p| == n + 1 && Linked(deps, p) && Within(p, from)
  {
    if n == 0 {
      p := [t];
    } else {
      var q := LongTrail(deps, from, t, n - 1);
      var u := q[n - 1];
      assert u in from && DependsInto(deps, from, u);
      var d :| d in DepsOf(deps, u) && d in from;
      p := q + [d];
    }
  }

  lemma LinkedSlice(deps: Deps, p: seq<string>, i: nat, j: nat)
    requires Linked(deps, p) && i < j < |p| && p[i] == p[j]
    ensures Cycle(deps, p[i..j + 1])
    ensures forall tasks :: Within(p, tasks) ==> Within(p[i..j + 1], tasks)
  {
  }

  /** In an acyclic graph every non-empty set of tasks has one that depends on
      none of them. */
  lemma AcyclicHasSink(deps: Deps, from: set<string>) returns (t: string)
    requires Acyclic(deps, from) && from != {}
    ensures t in from && !DependsInto(deps, from, t)
  {
    if forall u {:trigger DependsInto(deps, from, u)} :: u in from ==> DependsInto(deps, from, u) {
      t :| t in from;
      var p := LongTrail(deps, from, t, |from|);
      Pigeonhole(p, from);
      var i, j :| 0 <= i < j < |p| && p[i] == p[j];
      LinkedSlice(deps, p, i, j);
      assert false;
    } else {
      t :| t in from && !DependsInto(deps, from, t);
    }
  }

  // ---- One sweep starts something -----------------------------------------

  /** Every dependency of a listed task is listed itself or already completed. */
  ghost predicate ClosedUnder(log: seq<Event>, tasks: seq<string>, deps: Deps) {
    forall t, d :: t in tasks && d in DepsOf(deps, t) ==> d in tasks || HasCompleted(log, d)
  }

  ghost predicate NoLiveRun(s: State) {
    s.registry == map[] && forall e :: e in InFlight(s.log) ==> e.run !in s.alive
  }

  function Incomplete(log: seq<Event>, tasks: seq<string>): set<string> {
    set t | t in tasks && !HasCompleted(log, t)
  }

  lemma AcyclicSubset(deps: Deps, some: set<string>, tasks: set<string>)
    requires Acyclic(deps, tasks) && some <= tasks
    ensures Acyclic(deps, some)
  {
  }

  lemma SomeTaskIsReady(log: seq<Event>, tasks: seq<string>, deps: Deps) returns (t: string)
    requires Acyclic(deps, SetOf(tasks)) && ClosedUnder(log, tasks, deps) && Incomplete(log, tasks) != {}
    ensures t in tasks && Ready(log, deps, t)
  {
    AcyclicSubset(deps, Incomplete(log, tasks), SetOf(tasks));
    t := AcyclicHasSink(deps, Incomplete(log, tasks));
    forall d | d in DepsOf(deps, t)
      ensures HasCompleted(log, d)
    {
      assert d in Incomplete(log, tasks) || HasCompleted(log, d);
    }
  }

  /** Sweeping tasks of which none is ready changes nothing. */
  lemma {:induction false} SweepSkips(s: State, tasks: seq<string>, deps: Deps, startable: set<string>)
    requires forall t :: t in tasks ==> !Ready(s.log, deps, t)
    ensures Sweep(s, tasks, deps, startable).0 == s
  {
    if tasks != [] {
      SweepSkips(s, tasks[..|tasks| - 1], deps, startable);
    }
  }

  lemma {:induction false} SweepWhileBusy(s: State, tasks: seq<string>, k: nat, deps: Deps, startable: set<string>)
    requires k <= |tasks| && Sweep(s, tasks[..k], deps, startable).0.registry != map[]
    ensures Sweep(s, tasks, deps, startable).0 == Sweep(s, tasks[..k], deps, startable).0
  {
    if k < |tasks| {
      assert tasks[..|tasks| - 1][..k] == tasks[..k];
      SweepWhileBusy(s, tasks[..|tasks| - 1], k, deps, startable);
    } else {
      assert tasks[..k] == tasks;
    }
  }

  lemma NoLiveRunStarts(s: State, task: string, startable: set<string>)
    requires NoLiveRun(s) && task in startable
    ensures Dispatch(s, task, startable).1.None?
  {
  }

  /** With no run live, a sweep starts exactly the first ready task of the list,
      and only that one: the rest of the list meets a busy engine. */
  lemma SweepStartsFirstReady(s: State, tasks: seq<string>, deps: Deps, startable: set<string>, k: nat)
    requires NoLiveRun(s) && k < |tasks| && Ready(s.log, deps, tasks[k]) && tasks[k] in startable
    requires forall i :: 0 <= i < k ==> !Ready(s.log, deps, tasks[i])
    ensures Sweep(s, tasks, deps, startable).0 == Dispatch(s, tasks[k], startable).0
    ensures Dispatch(s, tasks[k], startable).1.None?
  {
    SweepSkips(s, tasks[..k], deps, startable);
    assert tasks[..k + 1][..k] == tasks[..k];
    NoLiveRunStarts(s, tasks[k], startable);
    assert tasks[k] in Dispatch(s, tasks[k], startable).0.registry;
    SweepWhileBusy(s, tasks, k + 1, deps, startable);
  }

  lemma FirstReady(log: seq<Event>, tasks: seq<string>, deps: Deps, t: string) returns (k: nat)
    requires t in tasks && Ready(log, deps, t)
    ensures k < |tasks| && Ready(log, deps, tasks[k])
    ensures forall i :: 0 <= i < k ==> !Ready(log, deps, tasks[i])
  {
    k := 0;
    while !Ready(log, deps, tasks[k])
      invariant k < |tasks|
      invariant forall i :: 0 <= i < k ==> !Ready(log, deps, tasks[i])
      invariant exists i :: k <= i < |tasks| && tasks[i] == t
      decreases |tasks| - k
    {
      k := k + 1;
    }
  }

  /** Progress: on acyclic dependencies, whenever no run is live and some task is
      incomplete, a sweep puts an incomplete task in flight. */
  lemma SweepMakesProgress(s: State, tasks: seq<string>, deps: Deps, startable: set<string>) returns (t: string)
    requires Inv(s) && NoLiveRun(s) && Acyclic(deps, SetOf(tasks)) && ClosedUnder(s.log, tasks, deps)
    requires Incomplete(s.log, tasks) != {} && forall u :: u in tasks ==> u in startable
    ensures t in tasks && !HasCompleted(s.log, t)
    ensures var after := Sweep(s, tasks, deps, startable).0;
            InFlight(after.log) == [Event(Started, s.next, t)] && after.registry == map[t := s.next]
  {
    var ready := SomeTaskIsReady(s.log, tasks, deps);
    var k := FirstReady(s.log, tasks, deps, ready);
    t := tasks[k];
    SweepStartsFirstReady(s, tasks, deps, startable, k);
    StartedRunIsAlone(s, t, startable);
  }

  // ---- n rounds finish n tasks --------------------------------------------

  /** A sweep, after which the run it started completes. */
  function Round(s: State, tasks: seq<string>, deps: Deps, startable: set<string>): State {
    CompleteAll(Sweep(s, tasks, deps, startable).0, tasks)
  }

  /** The completion of whichever listed task is registered. */
  function CompleteAll(s: State, tasks: seq<string>): State {
    if tasks == [] then s
    else Ends(CompleteAll(s, tasks[..|tasks| - 1]), tasks[|tasks| - 1], Completed)
  }

  function Rounds(s: State, tasks: seq<string>, deps: Deps, startable: set<string>, n: nat): State {
    if n == 0 then s else Round(Rounds(s, tasks, deps, startable, n - 1), tasks, deps, startable)
  }

  lemma {:induction false} CompleteAllEndsOne(s: State, tasks: seq<string>, t: string)
    requires s.registry.Keys == {t}
    ensures CompleteAll(s, tasks) == if t in tasks then Ends(s, t, Completed) else s
  {
    if tasks != [] {
      var rest, last := tasks[..|tasks| - 1], tasks[|tasks| - 1];
      CompleteAllEndsOne(s, rest, t);
      assert tasks == rest + [last];
    }
  }

  lemma {:induction false} CompleteAllOfIdle(s: State, tasks: seq<string>)
    requires s.registry == map[]
    ensures CompleteAll(s, tasks) == s
  {
    if tasks != [] {
      CompleteAllOfIdle(s, tasks[..|tasks| - 1]);
    }
  }

  ghost predicate Idle(s: State, tasks: seq<string>, deps: Deps) {
    Inv(s) && DoneIsQuiet(s.log) && NoLiveRun(s) && ClosedUnder(s.log, tasks, deps)
  }

  lemma RoundShrinks(s: State, tasks: seq<string>, deps: Deps, startable: set<string>)
    requires Idle(s, tasks, deps) && Acyclic(deps, SetOf(tasks)) && forall u :: u in tasks ==> u in startable
    ensures var after := Round(s, tasks, deps, startable);
            && Idle(after, tasks, deps)
            && (Incomplete(s.log, tasks) == {} ==> Incomplete(after.log, tasks) == {})
            && (Incomplete(s.log, tasks) != {} ==> Incomplete(after.log, tasks) < Incomplete(s.log, tasks))
  {
    if Incomplete(s.log, tasks) == {} {
      assert forall t :: t in tasks && !HasCompleted(s.log, t) ==> t in Incomplete(s.log, tasks);
      SweepSkips(s, tasks, deps, startable);
      CompleteAllOfIdle(s, tasks);
    } else {
      var t := SweepMakesProgress(s, tasks, deps, startable);
      var swept := Sweep(s, tasks, deps, startable).0;
      CompleteAllEndsOne(swept, tasks, t);
      SweepAdvances(s, tasks, deps, startable);
      EndsAdvances(swept, t, Completed, deps);
      EndsKeepsInv(swept, t, Completed);
      AdvancesTransitive(s.log, swept.log, Ends(swept, t, Completed).log, deps);
      assert t in Incomplete(s.log, tasks);
    }
  }

  lemma {:induction false} RoundsShrink(s: State, tasks: seq<string>, deps: Deps, startable: set<string>, n: nat)
    requires Idle(s, tasks, deps) && Acyclic(deps, SetOf(tasks)) && forall u :: u in tasks ==> u in startable
    ensures var after := Rounds(s, tasks, deps, startable, n);
            && Idle(after, tasks, deps)
            && (Incomplete(after.log, tasks) == {} || |Incomplete(after.log, tasks)| + n <= |Incomplete(s.log, tasks)|)
  {
    if n > 0 {
      RoundsShrink(s, tasks, deps, startable, n - 1);
      var before := Rounds(s, tasks, deps, startable, n - 1);
      RoundShrinks(before, tasks, deps, startable);
      if Incomplete(before.log, tasks) != {} {
        SubsetIsSmaller(Incomplete(Round(before, tasks, deps, startable).log, tasks), Incomplete(before.log, tasks));
      }
    }
  }

  lemma SubsetIsSmaller(a: set<string>, b: set<string>)
    requires a < b
    ensures |a| < |b|
  {
    var x :| x in b && x !in a;
    assert a <= b - {x};
    SetLeq(a, b - {x});
  }

  lemma {:induction false} SetLeq(a: set<string>, b: set<string>)
    requires a <= b
    ensures |a| <= |b|
  {
    if a != {} {
      var x :| x in a;
      SetLeq(a - {x}, b - {x});
    }
  }

  lemma {:induction false} SetOfSeqIsSmall(tasks: seq<string>, log: seq<Event>)
    ensures |Incomplete(log, tasks)| <= |tasks|
  {
    if tasks != [] {
      var rest, last := tasks[..|tasks| - 1], tasks[|tasks| - 1];
      SetOfSeqIsSmall(rest, log);
      assert tasks == rest + [last];
      SetLeq(Incomplete(log, tasks), Incomplete(log, rest) + {last});
    }
  }

  /** If every started run completes, as many sweeps as there are tasks finish
      them all. */
  lemma SweepsFinishAllTasks(s: State, tasks: seq<string>, deps: Deps, startable: set<string>)
    requires Idle(s, tasks, deps) && Acyclic(deps, SetOf(tasks)) && forall u :: u in tasks ==> u in startable
    ensures forall t :: t in tasks ==> HasCompleted(Rounds(s, tasks, deps, startable, |tasks|).log, t)
  {
    RoundsShrink(s, tasks, deps, startable, |tasks|);
    SetOfSeqIsSmall(tasks, s.log);
    var after := Rounds(s, tasks, deps, startable, |tasks|);
    forall t | t in tasks
      ensures HasCompleted(after.log, t)
    {
      assert t in Incomplete(after.log, tasks) || HasCompleted(after.log, t);
    }
  }

  // ---- Why acyclicity is needed -------------------------------------------

  ghost predicate NoRowOf(log: seq<Event>, p: seq<string>) {
    forall i :: 0 <= i < |log| ==> log[i].entity !in p
  }

  lemma CycleTargetsNeverRan(log: seq<Event>, deps: Deps, p: seq<string>, t: string)
    requires Cycle(deps, p) && NoRowOf(log, p) && t in p
    ensures !TargetsRan(log, deps, t)
  {
    var i :| 0 <= i < |p| && p[i] == t;
    var j := if i + 1 < |p| then i else 0;
    assert p[j] == t && p[j + 1] in DepsOf(deps, t) && p[j + 1] in p;
    assert !HasCompletedRow(log, p[j + 1]);
  }

  lemma DispatchAddsNoRowOf(s: State, task: string, startable: set<string>, p: seq<string>)
    requires Inv(s) && NoRowOf(s.log, p) && (Dispatch(s, task, startable).1.None? ==> task !in p)
    ensures NoRowOf(Dispatch(s, task, startable).0.log, p)
  {
    DispatchShape(s, task, startable);
    forall e | e in InFlight(s.log)
      ensures e.entity !in p
    {
      SelectIn(s.log, OpenIn(s.log), e);
    }
    var open := InFlight(s.log);
    assert forall i :: 0 <= i < |open| ==> open[i] in open;
  }

  lemma OrderlyAddsNoRowOf(s: State, task: string, deps: Deps, startable: set<string>, p: seq<string>)
    requires Inv(s) && Cycle(deps, p) && NoRowOf(s.log, p) && Orderly(s, deps, task, startable)
    ensures NoRowOf(Dispatch(s, task, startable).0.log, p)
  {
    if task in p {
      CycleTargetsNeverRan(s.log, deps, p, task);
    }
    DispatchAddsNoRowOf(s, task, startable, p);
  }

  lemma {:induction false} SweepAddsNoRowOf(s: State, tasks: seq<string>, deps: Deps, startable: set<string>,
                                            p: seq<string>)
    requires Inv(s) && Cycle(deps, p) && NoRowOf(s.log, p)
    ensures NoRowOf(Sweep(s, tasks, deps, startable).0.log, p)
  {
    if tasks != [] {
      var rest, task := tasks[..|tasks| - 1], tasks[|tasks| - 1];
      SweepAddsNoRowOf(s, rest, deps, startable, p);
      SweepKeepsInv(s, rest, deps, startable);
      var before := Sweep(s, rest, deps, startable).0;
      if Ready(before.log, deps, task) {
        ReadyTargetsRan(before.log, deps, task);
        OrderlyAddsNoRowOf(before, task, deps, startable, p);
      }
    }
  }

  lemma EndsAddsNoRowOf(s: State, task: string, kind: EventKind, p: seq<string>)
    requires Inv(s) && NoRowOf(s.log, p)
    ensures NoRowOf(Ends(s, task, kind).log, p)
  {
    if task in s.registry {
      SelectIn(s.log, OpenIn(s.log), InFlight(s.log)[0]);
    }
  }

  /** Tasks on a dependency cycle never run: in no run that keeps the dependency order
      does any row of theirs enter the log. */
  lemma {:induction false} CycleNeverRuns(deps: Deps, p: seq<string>, steps: seq<Step>)
    requires Cycle(deps, p) && OrderlyRun(INITIAL, deps, steps)
    ensures NoRowOf(Run(INITIAL, deps, steps).log, p)
  {
    if steps != [] {
      var before := Run(INITIAL, deps, steps[..|steps| - 1]);
      CycleNeverRuns(deps, p, steps[..|steps| - 1]);
      EveryRunIsSingleFlight(INITIAL, deps, steps[..|steps| - 1]);
      match steps[|steps| - 1]
      case SweepStep(tasks, startable) => SweepAddsNoRowOf(before, tasks, deps, startable, p);
      case DirectStep(task, startable) => OrderlyAddsNoRowOf(before, task, deps, startable, p);
      case CompleteStep(task) => EndsAddsNoRowOf(before, task, Completed, p);
      case FailStep(task) => EndsAddsNoRowOf(before, task, Failed, p);
      case CrashStep(_) =>
      case RestartStep =>
    }
  }
}
