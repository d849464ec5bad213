/** Schedules of kind task: a direct dispatch goes past the dependency gate. What
    that costs, exactly: an order-breaking start, and a completion that a rerun of
    the completed task can undo. */
module DirectDispatch {
  import opened Common
  import opened Sequences
  import opened ExecutionLog
  import opened Dispatcher
  import opened DependencyOrder

  ghost predicate KeepsCompleted(before: seq<Event>, after: seq<Event>) {
    forall t :: HasCompleted(before, t) ==> HasCompleted(after, t)
  }

  // ---- One direct dispatch --------------------------------------------------

  /** After a started dispatch the log shows the same completions as before it, and
      the started run alone is in flight. */
  lemma StartShowsSameCompletions(s: State, task: string, startable: set<string>)
    requires Inv(s) && DoneIsQuiet(s.log) && Dispatch(s, task, startable).1.None?
    ensures var after := Dispatch(s, task, startable).0;
            && Inv(after) && after.registry == map[task := s.next]
            && InFlight(after.log) == [Event(Started, s.next, task)]
            && forall t :: HasCompleted(after.log, t) <==> HasCompleted(s.log, t)
  {
    DispatchKeepsInv(s, task, startable);
    StartedRunIsAlone(s, task, startable);
    BuryKeepsAllCompleted(s.log);
    forall t ensures HasCompleted(Dispatch(s, task, startable).0.log, t) <==> HasCompleted(s.log, t) {
      CompletedSnoc(Bury(s.log, InFlight(s.log)), Event(Started, s.next, task), t);
    }
  }

  /** The run of a task ends as failed in the log: that task alone is not completed. */
  lemma FailedRowUndoes(log: seq<Event>, run: RunId, task: string)
    ensures forall t :: HasCompleted(log + [Event(Failed, run, task)], t) <==> t != task && HasCompleted(log, t)
  {
    forall t ensures HasCompleted(log + [Event(Failed, run, task)], t) <==> t != task && HasCompleted(log, t) {
      CompletedSnoc(log, Event(Failed, run, task), t);
    }
  }

  lemma {:induction false} BuryUndoes(log: seq<Event>, open: seq<Event>, e: Event)
    requires e in open
    ensures !HasCompleted(Bury(log, open), e.entity)
  {
    var before, last := open[..|open| - 1], open[|open| - 1];
    assert open == before + [last];
    BurySnoc(log, before, last);
    CompletedSnoc(Bury(log, before), FailedOf(last), e.entity);
    if last.entity != e.entity {
      BuryUndoes(log, before, e);
    }
  }

  /** What a dispatch that starts its task closes first: every run in flight. */
  lemma StartedLog(s: State, started: State, task: string, startable: set<string>)
    requires Dispatch(s, task, startable) == (started, None)
    ensures started.log == Bury(s.log, InFlight(s.log)) + [Event(Started, s.next, task)]
    ensures started.registry == map[task := s.next]
  {
    var open := InFlight(s.log);
    assert open[..|open|] == open;
  }

  /** The started row and a failed row of the task, after the zombies were closed. */
  lemma FailedRerunKeepsIff(log: seq<Event>, run: RunId, task: string)
    ensures var closed := Bury(log, InFlight(log));
            KeepsCompleted(log, closed + [Event(Started, run, task)] + [Event(Failed, run, task)])
            <==> DoneIsQuiet(log) && !HasCompleted(log, task)
  {
    var closed := Bury(log, InFlight(log));
    var one := closed + [Event(Started, run, task)];
    forall t ensures HasCompleted(one + [Event(Failed, run, task)], t) <==> t != task && HasCompleted(closed, t) {
      CompletedSnoc(closed, Event(Started, run, task), t);
      CompletedSnoc(one, Event(Failed, run, task), t);
    }
    if DoneIsQuiet(log) {
      BuryKeepsAllCompleted(log);
    } else {
      var e :| e in InFlight(log) && HasCompleted(log, e.entity);
      BuryUndoes(log, InFlight(log), e);
    }
  }

  /** A task started past the gate, from any state whatever, whose run then fails:
      every completion stands exactly when the task was not itself completed and no
      run of a completed task was in flight. */
  lemma DirectRunKeepsCompletionsIff(s: State, started: State, task: string, startable: set<string>)
    requires Dispatch(s, task, startable) == (started, None)
    ensures KeepsCompleted(s.log, Ends(started, task, Failed).log) <==> DoneIsQuiet(s.log) && !HasCompleted(s.log, task)
  {
    StartedLog(s, started, task, startable);
    FailedRerunKeepsIff(s.log, s.next, task);
  }

  /** The state once the only registered run has crashed. */
  predicate Crashed(started: State, crashed: State, run: RunId) {
    && crashed.log == started.log && crashed.registry == map[]
    && run !in crashed.alive && crashed.next == started.next
  }

  lemma CrashStepCrashes(started: State, deps: Deps, task: string, run: RunId)
    requires started.registry == map[task := run]
    ensures Crashed(started, Next(started, deps, CrashStep(run)), run)
  {
  }

  /** The same for a run that crashes unrecorded: the next dispatch, of whatever
      task, closes it as a zombie, and that undoes the completion just as well. Run
      ids are fresh. */
  lemma CrashedRunKeepsCompletionsIff(s: State, started: State, deps: Deps, task: string, startable: set<string>,
                                      crashed: State, other: string, startable': set<string>)
    requires Dispatch(s, task, startable) == (started, None) && forall i :: 0 <= i < |s.log| ==> s.log[i].run < s.next
    requires crashed == Next(started, deps, CrashStep(s.next))
    ensures DoneIsQuiet(s.log) ==> KeepsCompleted(s.log, crashed.log)
    ensures KeepsCompleted(s.log, Dispatch(crashed, other, startable').0.log)
            <==> DoneIsQuiet(s.log) && !HasCompleted(s.log, task)
  {
    StartedLog(s, started, task, startable);
    StartedRunIsAlone(s, task, startable);
    FailedRerunKeepsIff(s.log, s.next, task);
    CrashStepCrashes(started, deps, task, s.next);
    if DoneIsQuiet(s.log) {
      BuryKeepsAllCompleted(s.log);
      forall t ensures HasCompleted(started.log, t) <==> HasCompleted(s.log, t) {
        CompletedSnoc(Bury(s.log, InFlight(s.log)), Event(Started, s.next, task), t);
      }
    }
    ZombieIsClosed(crashed, Event(Started, s.next, task), other, startable');
  }

  lemma ZombieIsClosed(s: State, e: Event, other: string, startable: set<string>)
    requires s.registry == map[] && InFlight(s.log) == [e] && e.run !in s.alive
    ensures forall t :: HasCompleted(Dispatch(s, other, startable).0.log, t) <==> HasCompleted(s.log + [FailedOf(e)], t)
  {
    var closed := s.log + [FailedOf(e)];
    assert DeadPrefix([e], s.alive) == 1 && [e][..1] == [e];
    assert Bury(s.log, [e]) == closed;
    forall t ensures HasCompleted(Dispatch(s, other, startable).0.log, t) <==> HasCompleted(closed, t) {
      CompletedSnoc(closed, Event(Started, s.next, other), t);
    }
  }

  // ---- Whole runs -----------------------------------------------------------

  /** A direct dispatch is refused, or starts a task that is not completed. */
  ghost predicate Spares(s: State, step: Step) {
    step.DirectStep? ==> Dispatch(s, step.task, step.startable).1.Some? || !HasCompleted(s.log, step.task)
  }

  ghost predicate SparingRun(s: State, deps: Deps, steps: seq<Step>) {
    steps == [] ||
    var before := steps[..|steps| - 1];
    SparingRun(s, deps, before) && Spares(Run(s, deps, before), steps[|steps| - 1])
  }

  lemma SparingStepKeepsCompletions(s: State, deps: Deps, step: Step)
    requires Inv(s) && DoneIsQuiet(s.log) && Spares(s, step)
    ensures var after := Next(s, deps, step);
            Inv(after) && DoneIsQuiet(after.log) && KeepsCompleted(s.log, after.log)
  {
    if step.DirectStep? && Dispatch(s, step.task, step.startable).1.None? {
      StartShowsSameCompletions(s, step.task, step.startable);
    } else {
      StepAdvances(s, deps, step);
    }
  }

  /** Over any run in which no direct dispatch starts a completed task, completions
      stand: failures, crashes and the closing of zombies included. */
  lemma {:induction false} EveryRunKeepsCompletions(s: State, deps: Deps, steps: seq<Step>)
    requires Inv(s) && DoneIsQuiet(s.log) && SparingRun(s, deps, steps)
    ensures var after := Run(s, deps, steps);
            Inv(after) && DoneIsQuiet(after.log) && KeepsCompleted(s.log, after.log)
  {
    if steps != [] {
      var before := steps[..|steps| - 1];
      EveryRunKeepsCompletions(s, deps, before);
      SparingStepKeepsCompletions(Run(s, deps, before), deps, steps[|steps| - 1]);
    }
  }

  /** Whatever gated steps follow, everything now completed stays so. */
  ghost predicate CompletionsStand(s: State, deps: Deps) {
    forall more :: Gated(more) ==> KeepsCompleted(s.log, Run(s, deps, more).log)
  }

  lemma QuietStands(s: State, deps: Deps)
    requires Inv(s) && DoneIsQuiet(s.log)
    ensures CompletionsStand(s, deps)
  {
    forall more | Gated(more)
      ensures KeepsCompleted(s.log, Run(s, deps, more).log)
    {
      GatedIsAdmitted(s, deps, more);
      EveryRunIsSafe(s, deps, more);
    }
  }

  lemma RunOne(s: State, deps: Deps, step: Step)
    ensures Run(s, deps, [step]) == Next(s, deps, step)
  {
    assert [step][..0] == [] && Run(s, deps, []) == s;
  }

  lemma RegisteredCompletedFalls(s: State, deps: Deps, task: string)
    requires task in s.registry && HasCompleted(s.log, task)
    ensures !CompletionsStand(s, deps)
  {
    var more := [FailStep(task)];
    RunOne(s, deps, more[0]);
    FailedRowUndoes(s.log, s.registry[task], task);
    assert Gated(more) && !KeepsCompleted(s.log, Run(s, deps, more).log);
  }

  lemma UnsparingStepFalls(s: State, deps: Deps, step: Step)
    requires Inv(s) && DoneIsQuiet(s.log) && !Spares(s, step)
    ensures !CompletionsStand(Next(s, deps, step), deps)
  {
    StartShowsSameCompletions(s, step.task, step.startable);
    RegisteredCompletedFalls(Next(s, deps, step), deps, step.task);
  }

  /** At every point of a run what is completed stands through all gated steps to
      come, exactly when no direct dispatch of the run starts a completed task. */
  lemma {:induction false} CompletionsStandIff(s: State, deps: Deps, steps: seq<Step>)
    requires Inv(s) && DoneIsQuiet(s.log)
    ensures SparingRun(s, deps, steps)
            <==> forall k :: 0 <= k <= |steps| ==> CompletionsStand(Run(s, deps, steps[..k]), deps)
  {
    assert steps[..|steps|] == steps;
    if steps == [] {
      QuietStands(s, deps);
    } else {
      var before, step := steps[..|steps| - 1], steps[|steps| - 1];
      CompletionsStandIff(s, deps, before);
      assert forall k :: 0 <= k < |steps| ==> before[..k] == steps[..k];
      if SparingRun(s, deps, before) {
        EveryRunKeepsCompletions(s, deps, before);
        if Spares(Run(s, deps, before), step) {
          EveryRunKeepsCompletions(s, deps, steps);
          QuietStands(Run(s, deps, steps), deps);
        } else {
          UnsparingStepFalls(Run(s, deps, before), deps, step);
        }
      }
    }
  }

  // ---- Concrete runs --------------------------------------------------------

  lemma StartOnEmptyLog(deps: Deps, task: string)
    ensures Next(INITIAL, deps, DirectStep(task, {task})) == Start(INITIAL, task)
  {
    assert MapSeq([], FailedOf) == [];
  }

  /** A run that breaks the order: a task started directly before its target d. */
  lemma DirectDispatchBreaksOrder(task: string, d: string)
    ensures var deps := map[task := [d]];
            var after := Run(INITIAL, deps, [DirectStep(task, {task})]);
            && after.log == [Event(Started, 0, task)] && d in DepsOf(deps, task) && !HasCompleted([], d)
            && !GatedFrom(after.log, deps, 0) && !OrderedFrom(after.log, deps, 0)
  {
    var deps := map[task := [d]];
    RunOne(INITIAL, deps, DirectStep(task, {task}));
    StartOnEmptyLog(deps, task);
    var log := [Event(Started, 0, task)];
    assert d in DepsOf(deps, task) && !Ready(log[..0], deps, log[0].entity) && !HasCompletedRow(log[..0], d);
    assert !TargetsRan(log[..0], deps, log[0].entity);
  }

  lemma RunSnoc(s: State, before: State, deps: Deps, steps: seq<Step>, step: Step)
    requires before == Run(s, deps, steps)
    ensures Run(s, deps, steps + [step]) == Next(before, deps, step)
  {
    assert (steps + [step])[..|steps|] == steps;
  }

  /** Nothing runs and nothing is left to close. */
  ghost predicate Idle(s: State) {
    Inv(s) && s.registry == map[] && InFlight(s.log) == []
  }

  /** A direct dispatch of the one startable task, then the end of its run. */
  lemma DirectThenEnds(s: State, task: string, kind: EventKind)
    requires Idle(s) && (kind == Completed || kind == Failed)
    ensures var after := Ends(Dispatch(s, task, {task}).0, task, kind);
            Idle(after) && (HasCompleted(after.log, task) <==> kind == Completed)
  {
    var started := Dispatch(s, task, {task}).0;
    StartedRunIsAlone(s, task, {task});
    DispatchKeepsInv(s, task, {task});
    EndsKeepsInv(started, task, kind);
    CompletedSnoc(started.log, Event(kind, started.registry[task], task), task);
  }

  /** A run that undoes a completion: the completed task, run again, fails. */
  lemma DirectDispatchUndoesCompletion(deps: Deps, task: string)
    ensures var start := DirectStep(task, {task});
            var once := [] + [start] + [CompleteStep(task)];
            var again := once + [start] + [FailStep(task)];
            HasCompleted(Run(INITIAL, deps, once).log, task) && !HasCompleted(Run(INITIAL, deps, again).log, task)
  {
    var start := DirectStep(task, {task});
    var s1 := Next(INITIAL, deps, start);
    var s2 := Next(s1, deps, CompleteStep(task));
    var s3 := Next(s2, deps, start);
    RunSnoc(INITIAL, INITIAL, deps, [], start);
    RunSnoc(INITIAL, s1, deps, [] + [start], CompleteStep(task));
    RunSnoc(INITIAL, s2, deps, [] + [start] + [CompleteStep(task)], start);
    RunSnoc(INITIAL, s3, deps, [] + [start] + [CompleteStep(task)] + [start], FailStep(task));
    DirectThenEnds(INITIAL, task, Completed);
    DirectThenEnds(s2, task, Failed);
  }
}
