/** Sweeps while no run is live: which list of a series starts a run, when some of
    the ready tasks cannot be started. */
module CalmSweeps {
  import opened Common
  import opened Sequences
  import opened EdgeModel
  import opened ExecutionLog
  import opened Dispatcher
  import opened DagChain
  import Progress

  // ---- Sweeps while nothing runs --------------------------------------------

  ghost predicate Calm(s: State) {
    Inv(s) && DoneIsQuiet(s.log) && Progress.NoLiveRun(s)
  }

  ghost predicate SameCompletions(a: seq<Event>, b: seq<Event>) {
    forall t :: HasCompleted(a, t) <==> HasCompleted(b, t)
  }

  predicate Fires(log: seq<Event>, deps: Deps, startable: set<string>, t: string) {
    Ready(log, deps, t) && t in startable
  }

  ghost predicate NoneFires(log: seq<Event>, deps: Deps, startable: set<string>, tasks: seq<string>) {
    forall t :: t in tasks ==> !Fires(log, deps, startable, t)
  }

  lemma SameFires(a: seq<Event>, b: seq<Event>, deps: Deps, startable: set<string>, t: string)
    requires SameCompletions(a, b)
    ensures Fires(a, deps, startable, t) <==> Fires(b, deps, startable, t)
  {
  }

  lemma SameDone(a: seq<Event>, b: seq<Event>, rows: seq<Edge>, manifest: string)
    requires SameCompletions(a, b)
    ensures AllDone(a, rows, manifest) <==> AllDone(b, rows, manifest)
  {
  }

  /** A dispatch that cannot start its task closes zombies and changes no more. */
  lemma CalmDispatchFails(s: State, t: string, startable: set<string>)
    requires Calm(s) && t !in startable
    ensures var after := Dispatch(s, t, startable).0;
            Calm(after) && SameCompletions(s.log, after.log) && after.next == s.next
  {
    var open := InFlight(s.log);
    assert forall i :: 0 <= i < |open| ==> open[i] in open;
    assert open[..|open|] == open;
    DispatchKeepsInv(s, t, startable);
    BuryAll(s.log);
    BuryKeepsAllCompleted(s.log);
  }

  lemma CalmDispatchStarts(s: State, t: string, startable: set<string>)
    requires Calm(s) && t in startable
    ensures Dispatch(s, t, startable).0.registry == map[t := s.next]
  {
    Progress.NoLiveRunStarts(s, t, startable);
    StartedRunIsAlone(s, t, startable);
  }

  /** A sweep of tasks of which none fires. */
  lemma {:induction false} CalmSweepSkips(s: State, tasks: seq<string>, deps: Deps, startable: set<string>)
    requires Calm(s) && NoneFires(s.log, deps, startable, tasks)
    ensures var after := Sweep(s, tasks, deps, startable).0;
            Calm(after) && SameCompletions(s.log, after.log) && after.next == s.next
  {
    if tasks != [] {
      var rest, t := tasks[..|tasks| - 1], tasks[|tasks| - 1];
      CalmSweepSkips(s, rest, deps, startable);
      var before := Sweep(s, rest, deps, startable).0;
      SameFires(s.log, before.log, deps, startable, t);
      if Ready(before.log, deps, t) {
        CalmDispatchFails(before, t, startable);
      }
    }
  }

  /** A sweep in which some task fires starts the first that does. */
  lemma CalmSweepStarts(s: State, tasks: seq<string>, deps: Deps, startable: set<string>, k: nat)
    requires Calm(s) && k < |tasks| && Fires(s.log, deps, startable, tasks[k])
    requires NoneFires(s.log, deps, startable, tasks[..k])
    ensures Sweep(s, tasks, deps, startable).0.registry == map[tasks[k] := s.next]
  {
    CalmSweepSkips(s, tasks[..k], deps, startable);
    var before := Sweep(s, tasks[..k], deps, startable).0;
    SameFires(s.log, before.log, deps, startable, tasks[k]);
    assert tasks[..k + 1][..k] == tasks[..k];
    CalmDispatchStarts(before, tasks[k], startable);
    assert tasks[k] in Sweep(s, tasks[..k + 1], deps, startable).0.registry;
    Progress.SweepWhileBusy(s, tasks, k + 1, deps, startable);
  }

  lemma FirstFiring(log: seq<Event>, deps: Deps, startable: set<string>, tasks: seq<string>) returns (k: nat)
    requires !NoneFires(log, deps, startable, tasks)
    ensures k < |tasks| && Fires(log, deps, startable, tasks[k]) && NoneFires(log, deps, startable, tasks[..k])
  {
    k := 0;
    while !Fires(log, deps, startable, tasks[k])
      invariant k < |tasks| && NoneFires(log, deps, startable, tasks[..k])
      invariant !NoneFires(log, deps, startable, tasks[k..])
      decreases |tasks| - k
    {
      assert tasks[k..] == [tasks[k]] + tasks[k + 1..] && tasks[..k + 1] == tasks[..k] + [tasks[k]];
      k := k + 1;
    }
  }

  lemma {:induction false} CalmChainSkips(s: State, lists: seq<seq<string>>, deps: Deps, startable: set<string>)
    requires Calm(s) && forall i :: 0 <= i < |lists| ==> NoneFires(s.log, deps, startable, lists[i])
    ensures var after := SweepAll(s, lists, deps, startable);
            Calm(after) && SameCompletions(s.log, after.log) && after.next == s.next
  {
    if lists != [] {
      var rest, last := lists[..|lists| - 1], lists[|lists| - 1];
      CalmChainSkips(s, rest, deps, startable);
      var before := SweepAll(s, rest, deps, startable);
      forall t | t in last ensures !Fires(before.log, deps, startable, t) {
        assert NoneFires(s.log, deps, startable, last);
        SameFires(s.log, before.log, deps, startable, t);
      }
      CalmSweepSkips(before, last, deps, startable);
    }
  }

  /** The first sweep of the list that leaves a run registered is number i. */
  predicate StartedBy(s: State, lists: seq<seq<string>>, deps: Deps, startable: set<string>, i: nat) {
    && i < |lists|
    && SweepAll(s, lists[..i], deps, startable).registry == map[]
    && SweepAll(s, lists[..i + 1], deps, startable).registry != map[]
  }

  /** lists[i] is the first of the lists in which some task fires. */
  ghost predicate FirstList(log: seq<Event>, deps: Deps, startable: set<string>, lists: seq<seq<string>>, i: nat) {
    && i < |lists| && !NoneFires(log, deps, startable, lists[i])
    && forall j :: 0 <= j < i ==> NoneFires(log, deps, startable, lists[j])
  }

  lemma FirstListStarts(s: State, lists: seq<seq<string>>, deps: Deps, startable: set<string>, i: nat)
    requires Calm(s) && FirstList(s.log, deps, startable, lists, i)
    ensures StartedBy(s, lists, deps, startable, i)
    ensures exists k :: 0 <= k < |lists[i]| && Fires(s.log, deps, startable, lists[i][k])
                        && SweepAll(s, lists[..i + 1], deps, startable).registry == map[lists[i][k] := s.next]
  {
    CalmChainSkips(s, lists[..i], deps, startable);
    var before := SweepAll(s, lists[..i], deps, startable);
    var k := FirstFiring(s.log, deps, startable, lists[i]);
    forall t ensures Fires(s.log, deps, startable, t) <==> Fires(before.log, deps, startable, t) {
      SameFires(s.log, before.log, deps, startable, t);
    }
    CalmSweepStarts(before, lists[i], deps, startable, k);
    SweepAllSnoc(s, lists[..i], lists[i], deps, startable);
    assert lists[..i] + [lists[i]] == lists[..i + 1];
    assert lists[i][k] in SweepAll(s, lists[..i + 1], deps, startable).registry;
  }

  lemma {:induction false} BusyStays(s: State, lists: seq<seq<string>>, k: nat, deps: Deps, startable: set<string>)
    requires k <= |lists| && SweepAll(s, lists[..k], deps, startable).registry != map[]
    ensures SweepAll(s, lists, deps, startable) == SweepAll(s, lists[..k], deps, startable)
  {
    if k < |lists| {
      var rest, last := lists[..|lists| - 1], lists[|lists| - 1];
      assert rest[..k] == lists[..k] && last[..0] == [];
      BusyStays(s, rest, k, deps, startable);
      Progress.SweepWhileBusy(SweepAll(s, rest, deps, startable), last, 0, deps, startable);
    } else {
      assert lists[..k] == lists;
    }
  }

  /** With no run live, the sweep that starts a run is that of the first list in
      which some task is ready and startable. */
  lemma StartedByIff(s: State, lists: seq<seq<string>>, deps: Deps, startable: set<string>, i: nat)
    requires Calm(s)
    ensures StartedBy(s, lists, deps, startable, i) <==> FirstList(s.log, deps, startable, lists, i)
  {
    if FirstList(s.log, deps, startable, lists, i) {
      FirstListStarts(s, lists, deps, startable, i);
    } else if StartedBy(s, lists, deps, startable, i) {
      if m :| 0 <= m < i && !NoneFires(s.log, deps, startable, lists[m]) {
        var j := EarliestList(s.log, deps, startable, lists, m);
        FirstListStarts(s, lists, deps, startable, j);
        assert lists[..i][..j + 1] == lists[..j + 1];
        BusyStays(s, lists[..i], j + 1, deps, startable);
      } else {
        assert forall m :: 0 <= m < i + 1 ==> lists[..i + 1][m] == lists[m];
        CalmChainSkips(s, lists[..i + 1], deps, startable);
      }
    }
  }

  lemma EarliestList(log: seq<Event>, deps: Deps, startable: set<string>, lists: seq<seq<string>>, bound: nat)
      returns (j: nat)
    requires bound < |lists| && !NoneFires(log, deps, startable, lists[bound])
    ensures j <= bound && FirstList(log, deps, startable, lists, j)
  {
    j := 0;
    while NoneFires(log, deps, startable, lists[j])
      invariant j <= bound && forall m :: 0 <= m < j ==> NoneFires(log, deps, startable, lists[m])
      decreases bound - j
    {
      j := j + 1;
    }
  }
}
