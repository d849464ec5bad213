/** The dependency order alone: a task starts only after a completed row of each of
    its depends_on targets. Weaker than the gate, which also wants the targets still
    completed and the task itself not completed. */
module DependencyOrder {
  import opened Common
  import opened Sequences
  import opened ExecutionLog
  import opened Dispatcher

  predicate HasCompletedRow(log: seq<Event>, d: string) {
    exists j :: 0 <= j < |log| && log[j].kind == Completed && log[j].entity == d
  }

  /** Every target of the task has a completed row. */
  predicate TargetsRan(log: seq<Event>, deps: Deps, task: string) {
    forall d :: d in DepsOf(deps, task) ==> HasCompletedRow(log, d)
  }

  /** Every started row from index n on follows a completed row of each target. */
  ghost predicate OrderedFrom(log: seq<Event>, deps: Deps, n: nat) {
    forall i :: n <= i < |log| && log[i].kind == Started ==> TargetsRan(log[..i], deps, log[i].entity)
  }

  /** The dispatch is refused, or every target of its task has run. */
  predicate Orderly(s: State, deps: Deps, task: string, startable: set<string>) {
    Dispatch(s, task, startable).1.Some? || TargetsRan(s.log, deps, task)
  }

  predicate OrderlyStep(s: State, deps: Deps, step: Step) {
    step.DirectStep? ==> Orderly(s, deps, step.task, step.startable)
  }

  ghost predicate OrderlyRun(s: State, deps: Deps, steps: seq<Step>) {
    steps == [] ||
    var before := steps[..|steps| - 1];
    OrderlyRun(s, deps, before) && OrderlyStep(Run(s, deps, before), deps, steps[|steps| - 1])
  }

  lemma ReadyTargetsRan(log: seq<Event>, deps: Deps, task: string)
    requires Ready(log, deps, task)
    ensures TargetsRan(log, deps, task)
  {
    forall d | d in DepsOf(deps, task)
      ensures HasCompletedRow(log, d)
    {
      CompletedHasRow(log, d);
    }
  }

  /** What the gate admits is orderly. */
  lemma {:induction false} AdmittedIsOrderly(s: State, deps: Deps, steps: seq<Step>)
    requires AdmittedRun(s, deps, steps)
    ensures OrderlyRun(s, deps, steps)
  {
    if steps != [] {
      var before, step := steps[..|steps| - 1], steps[|steps| - 1];
      AdmittedIsOrderly(s, deps, before);
      var mid := Run(s, deps, before);
      if step.DirectStep? && Ready(mid.log, deps, step.task) {
        ReadyTargetsRan(mid.log, deps, step.task);
      }
    }
  }

  // ---- One dispatch ---------------------------------------------------------

  lemma {:induction false} OrderOfPrefixHolds(a: seq<Event>, b: seq<Event>, deps: Deps, n: nat)
    requires a <= b && OrderedFrom(b, deps, n)
    ensures OrderedFrom(a, deps, n)
  {
    forall i | n <= i < |a| && a[i].kind == Started
      ensures TargetsRan(a[..i], deps, a[i].entity)
    {
      assert b[i] == a[i] && b[..i] == a[..i];
    }
  }

  lemma OrderedTransitive(a: seq<Event>, b: seq<Event>, deps: Deps, n: nat)
    requires a <= b && n <= |a| && OrderedFrom(a, deps, n) && OrderedFrom(b, deps, |a|)
    ensures OrderedFrom(b, deps, n)
  {
    forall i | n <= i < |b| && b[i].kind == Started
      ensures TargetsRan(b[..i], deps, b[i].entity)
    {
      if i < |a| {
        assert b[i] == a[i] && b[..i] == a[..i];
      }
    }
  }

  /** Rows that fail runs neither start nor complete anything. */
  lemma FailuresAreOrdered(log: seq<Event>, failed: seq<Event>, deps: Deps)
    requires forall i :: 0 <= i < |failed| ==> failed[i].kind == Failed
    ensures OrderedFrom(log + failed, deps, |log|)
    ensures forall d :: HasCompletedRow(log + failed, d) <==> HasCompletedRow(log, d)
  {
    forall d ensures HasCompletedRow(log + failed, d) <==> HasCompletedRow(log, d) {
      if j :| 0 <= j < |log| && log[j].kind == Completed && log[j].entity == d {
        assert (log + failed)[j] == log[j];
      }
    }
  }

  lemma StartIsOrderedIff(log: seq<Event>, e: Event, deps: Deps)
    requires e.kind == Started
    ensures OrderedFrom(log + [e], deps, |log|) <==> TargetsRan(log, deps, e.entity)
  {
    assert (log + [e])[..|log|] == log && (log + [e])[|log|] == e;
  }

  /** A dispatch, whatever it closes, keeps the order exactly when it is refused or
      every target of its task has run. */
  lemma DispatchIsOrderedIff(s: State, task: string, deps: Deps, startable: set<string>)
    ensures s.log <= Dispatch(s, task, startable).0.log
    ensures OrderedFrom(Dispatch(s, task, startable).0.log, deps, |s.log|) <==> Orderly(s, deps, task, startable)
  {
    var (after, err) := Dispatch(s, task, startable);
    if s.registry == map[] {
      var open := InFlight(s.log);
      var failed := MapSeq(open[..DeadPrefix(open, s.alive)], FailedOf);
      var closed := s.log + failed;
      FailuresAreOrdered(s.log, failed, deps);
      if err.None? {
        var started := Event(Started, s.next, task);
        assert after.log == closed + [started];
        StartIsOrderedIff(closed, started, deps);
        if OrderedFrom(after.log, deps, |closed|) {
          OrderedTransitive(closed, after.log, deps, |s.log|);
        }
      }
    }
  }

  // ---- Whole runs -----------------------------------------------------------

  lemma {:induction false} SweepIsOrdered(s: State, tasks: seq<string>, deps: Deps, startable: set<string>)
    ensures s.log <= Sweep(s, tasks, deps, startable).0.log
    ensures OrderedFrom(Sweep(s, tasks, deps, startable).0.log, deps, |s.log|)
  {
    if tasks != [] {
      var rest, task := tasks[..|tasks| - 1], tasks[|tasks| - 1];
      SweepIsOrdered(s, rest, deps, startable);
      var before := Sweep(s, rest, deps, startable).0;
      if Ready(before.log, deps, task) {
        ReadyTargetsRan(before.log, deps, task);
        DispatchIsOrderedIff(before, task, deps, startable);
        OrderedTransitive(before.log, Dispatch(before, task, startable).0.log, deps, |s.log|);
      }
    }
  }

  lemma StepIsOrderedIff(s: State, deps: Deps, step: Step)
    ensures s.log <= Next(s, deps, step).log
    ensures OrderedFrom(Next(s, deps, step).log, deps, |s.log|) <==> OrderlyStep(s, deps, step)
  {
    match step
    case SweepStep(tasks, startable) => SweepIsOrdered(s, tasks, deps, startable);
    case DirectStep(task, startable) => DispatchIsOrderedIff(s, task, deps, startable);
    case CompleteStep(_) =>
    case FailStep(_) =>
    case CrashStep(_) =>
    case RestartStep =>
  }

  lemma OrderSnoc(log: seq<Event>, s: State, deps: Deps, step: Step)
    requires log <= s.log
    ensures log <= Next(s, deps, step).log
    ensures OrderedFrom(Next(s, deps, step).log, deps, |log|)
            <==> OrderedFrom(s.log, deps, |log|) && OrderlyStep(s, deps, step)
  {
    var after := Next(s, deps, step).log;
    StepIsOrderedIff(s, deps, step);
    if OrderedFrom(after, deps, |log|) {
      OrderOfPrefixHolds(s.log, after, deps, |log|);
    } else if OrderedFrom(s.log, deps, |log|) && OrderlyStep(s, deps, step) {
      OrderedTransitive(s.log, after, deps, |log|);
    }
  }

  /** From any state whatever: every started row of a run follows a completed row of
      each depends_on target of its task exactly when every direct dispatch of the
      run is refused or starts a task whose targets have all run. */
  lemma {:induction false} EveryRunIsOrderedIff(s: State, deps: Deps, steps: seq<Step>)
    ensures s.log <= Run(s, deps, steps).log
    ensures OrderedFrom(Run(s, deps, steps).log, deps, |s.log|) <==> OrderlyRun(s, deps, steps)
  {
    if steps != [] {
      var before := steps[..|steps| - 1];
      EveryRunIsOrderedIff(s, deps, before);
      OrderSnoc(s.log, Run(s, deps, before), deps, steps[|steps| - 1]);
    }
  }
}
