/** One agent at a time, about the processes and not only the log: a started run
    keeps every other one out until it crashes or its end is recorded. */
module OneAgent {
  import opened Common
  import opened Sequences
  import opened ExecutionLog
  import opened Dispatcher

  /** The step takes the run's process away: it crashes, or the runner, which still
      has it registered, records its end. */
  ghost predicate Stops(s: State, step: Step, run: RunId) {
    || step == CrashStep(run)
    || ((step.CompleteStep? || step.FailStep?) && step.task in s.registry && s.registry[step.task] == run)
  }

  /** The run is the one in flight and its process is alive; the runner knows of no
      other, and after a restart not even of this one. */
  ghost predicate Holds(s: State, run: RunId, task: string) {
    && InFlight(s.log) == [Event(Started, run, task)] && run in s.alive
    && forall t :: t in s.registry ==> t == task && s.registry[t] == run
  }

  lemma HeldDispatchRefuses(s: State, run: RunId, task: string, other: string, startable: set<string>)
    requires Holds(s, run, task)
    ensures Dispatch(s, other, startable).0 == s && Dispatch(s, other, startable).1.Some?
  {
    assert Bury(s.log, InFlight(s.log)[..0]) == s.log;
  }

  lemma {:induction false} HeldSweepRefuses(s: State, run: RunId, task: string, tasks: seq<string>, deps: Deps,
                                            startable: set<string>)
    requires Holds(s, run, task)
    ensures Sweep(s, tasks, deps, startable).0 == s
  {
    if tasks != [] {
      HeldSweepRefuses(s, run, task, tasks[..|tasks| - 1], deps, startable);
      HeldDispatchRefuses(s, run, task, tasks[|tasks| - 1], startable);
    }
  }

  lemma StepKeepsHold(s: State, deps: Deps, step: Step, run: RunId, task: string)
    requires Holds(s, run, task) && !Stops(s, step, run)
    ensures Holds(Next(s, deps, step), run, task) && Next(s, deps, step).log == s.log
  {
    match step
    case SweepStep(tasks, startable) => HeldSweepRefuses(s, run, task, tasks, deps, startable);
    case DirectStep(other, startable) => HeldDispatchRefuses(s, run, task, other, startable);
    case CompleteStep(_) =>
    case FailStep(_) =>
    case CrashStep(_) =>
    case RestartStep =>
  }

  /** Row i was started by the step from s to after: it is the last row, under a run
      id never seen before, and its run holds. */
  ghost predicate StartedHolds(s: State, after: State, i: nat) {
    && i + 1 == |after.log| && s.log <= after.log
    && (forall j :: 0 <= j < i ==> after.log[j].run != after.log[i].run)
    && Holds(after, after.log[i].run, after.log[i].entity)
  }

  lemma DispatchStartsHold(s: State, entity: string, startable: set<string>, i: nat)
    requires Inv(s)
    requires |s.log| <= i < |Dispatch(s, entity, startable).0.log|
    requires Dispatch(s, entity, startable).0.log[i].kind == Started
    ensures StartedHolds(s, Dispatch(s, entity, startable).0, i)
    ensures Dispatch(s, entity, startable).0.log[i].entity == entity
  {
    var (after, err) := Dispatch(s, entity, startable);
    DispatchShape(s, entity, startable);
    assert err.None?;
    StartedRunIsAlone(s, entity, startable);
    BuriedRunsAreOld(s);
    assert after.log[..|after.log| - 1] == Bury(s.log, InFlight(s.log));
  }

  lemma {:induction false} SweepStartsHold(s: State, tasks: seq<string>, deps: Deps, startable: set<string>, i: nat)
    requires Inv(s)
    requires |s.log| <= i < |Sweep(s, tasks, deps, startable).0.log|
    requires Sweep(s, tasks, deps, startable).0.log[i].kind == Started
    ensures StartedHolds(s, Sweep(s, tasks, deps, startable).0, i)
  {
    var rest, task := tasks[..|tasks| - 1], tasks[|tasks| - 1];
    var before := Sweep(s, rest, deps, startable).0;
    SweepKeepsInv(s, rest, deps, startable);
    SweepAppends(s, rest, deps, startable);
    SweepAppends(s, tasks, deps, startable);
    if i < |before.log| {
      SweepStartsHold(s, rest, deps, startable, i);
      HeldDispatchRefuses(before, before.log[i].run, before.log[i].entity, task, startable);
    } else {
      DispatchStartsHold(before, task, startable, i);
    }
  }

  lemma StepStartsHold(s: State, deps: Deps, step: Step, i: nat)
    requires Inv(s) && |s.log| <= i < |Next(s, deps, step).log| && Next(s, deps, step).log[i].kind == Started
    ensures StartedHolds(s, Next(s, deps, step), i)
  {
    match step
    case SweepStep(tasks, startable) => SweepStartsHold(s, tasks, deps, startable, i);
    case DirectStep(task, startable) => DispatchStartsHold(s, task, startable, i);
    case CompleteStep(_) =>
    case FailStep(_) =>
    case CrashStep(_) =>
    case RestartStep =>
  }

  /** No step of the run stops the process of the given run. */
  ghost predicate NeverStopped(s: State, deps: Deps, steps: seq<Step>, run: RunId) {
    steps == [] ||
    var before := steps[..|steps| - 1];
    NeverStopped(s, deps, before, run) && !Stops(Run(s, deps, before), steps[|steps| - 1], run)
  }

  lemma {:induction false} RunKeepsHold(s: State, deps: Deps, steps: seq<Step>, run: RunId, task: string)
    requires Holds(s, run, task) && NeverStopped(s, deps, steps, run)
    ensures Holds(Run(s, deps, steps), run, task) && Run(s, deps, steps).log == s.log
  {
    if steps != [] {
      var before := steps[..|steps| - 1];
      RunKeepsHold(s, deps, before, run, task);
      StepKeepsHold(Run(s, deps, before), deps, steps[|steps| - 1], run, task);
    }
  }

  /** Over every run of steps, restarts and direct dispatches included: once a step
      has entered a started row, and until a step stops that run's process, no row at
      all enters the log - no other start, and no failed row of the run - and every
      dispatch, of whatever task, returns an error. */
  lemma AgentKeepsOthersOut(deps: Deps, first: seq<Step>, step: Step, more: seq<Step>, i: nat)
    requires var s := Run(INITIAL, deps, first);
             && |s.log| <= i < |Next(s, deps, step).log| && Next(s, deps, step).log[i].kind == Started
             && NeverStopped(Next(s, deps, step), deps, more, Next(s, deps, step).log[i].run)
    ensures var after := Next(Run(INITIAL, deps, first), deps, step);
            var now := Run(after, deps, more);
            && i + 1 == |after.log| && now.log == after.log
            && (forall j :: 0 <= j < i ==> after.log[j].run != after.log[i].run)
            && forall task, startable :: Dispatch(now, task, startable).1.Some?
  {
    var s := Run(INITIAL, deps, first);
    var after := Next(s, deps, step);
    EveryRunIsSingleFlight(INITIAL, deps, first);
    StepStartsHold(s, deps, step, i);
    var e := after.log[i];
    RunKeepsHold(after, deps, more, e.run, e.entity);
    forall task, startable ensures Dispatch(Run(after, deps, more), task, startable).1.Some? {
      HeldDispatchRefuses(Run(after, deps, more), e.run, e.entity, task, startable);
    }
  }

  /** And no longer than that: the crash of the run lets the next dispatch of a
      startable task in, which first records the crashed run as failed. */
  lemma CrashLetsNextIn(s: State, deps: Deps, run: RunId, task: string, next: string, startable: set<string>)
    requires Inv(s) && Holds(s, run, task) && next in startable
    ensures var (after, err) := Dispatch(Next(s, deps, CrashStep(run)), next, startable);
            err.None? && after.log == s.log + [Event(Failed, run, task), Event(Started, s.next, next)]
  {
    var gone := Next(s, deps, CrashStep(run));
    assert gone.registry == map[];
    var open := InFlight(gone.log);
    assert open == [Event(Started, run, task)] && open[..1] == open;
    assert DeadPrefix(open, gone.alive) == 1;
    assert Bury(s.log, open) == s.log + [Event(Failed, run, task)];
  }

  /** So does the recorded end of the run, which leaves nothing to close. */
  lemma EndLetsNextIn(s: State, deps: Deps, run: RunId, task: string, next: string, startable: set<string>)
    requires Inv(s) && Holds(s, run, task) && s.registry == map[task := run] && next in startable
    ensures var (after, err) := Dispatch(Next(s, deps, CompleteStep(task)), next, startable);
            err.None? && after.log == s.log + [Event(Completed, run, task), Event(Started, s.next, next)]
    ensures var (after, err) := Dispatch(Next(s, deps, FailStep(task)), next, startable);
            err.None? && after.log == s.log + [Event(Failed, run, task), Event(Started, s.next, next)]
  {
    EndLetsIn(s, run, task, Completed, next, startable);
    EndLetsIn(s, run, task, Failed, next, startable);
  }

  lemma EndLetsIn(s: State, run: RunId, task: string, kind: EventKind, next: string, startable: set<string>)
    requires Inv(s) && Holds(s, run, task) && s.registry == map[task := run] && next in startable
    requires kind == Completed || kind == Failed
    ensures var (after, err) := Dispatch(Ends(s, task, kind), next, startable);
            err.None? && after.log == s.log + [Event(kind, run, task), Event(Started, s.next, next)]
  {
    EndsKeepsInv(s, task, kind);
    var ended := Ends(s, task, kind);
    assert task in s.registry && InFlight(ended.log) == [] && ended.registry == map[];
    assert Bury(ended.log, InFlight(ended.log)[..0]) == ended.log;
  }
}
