/** The DAG dispatcher: one agent at a time, tasks gated on their depends_on
    targets, over the append-only execution log. A state is the log, the
    runner's in-memory registry (task id to run), and the set of runs whose
    process is alive. */
module Dispatcher {
  import opened Common
  import opened Sequences
  import opened ExecutionLog

  datatype State = State(log: seq<Event>, registry: map<string, RunId>, alive: set<RunId>, next: RunId)

  datatype DispatchError = AlreadyRunning | AgentAlive | NotStarted

  /** The current depends_on targets of every task that has some. */
  type Deps = map<string, seq<string>>

  function DepsOf(deps: Deps, task: string): seq<string> {
    if task in deps then deps[task] else []
  }

  // ---- dispatch -----------------------------------------------------------

  function FailedOf(e: Event): Event {
    Event(Failed, e.run, e.entity)
  }

  /** How many runs the concurrency guard closes before it meets a live one. */
  function DeadPrefix(open: seq<Event>, alive: set<RunId>): (k: nat)
    ensures k <= |open|
    ensures forall i :: 0 <= i < k ==> open[i].run !in alive
    ensures k < |open| ==> open[k].run in alive
  {
    if open == [] || open[0].run in alive then 0 else 1 + DeadPrefix(open[1..], alive)
  }

  function Start(s: State, entity: string): State {
    State(s.log + [Event(Started, s.next, entity)], s.registry[entity := s.next], s.alive + {s.next}, s.next + 1)
  }

  /** One call of dispatch. startable holds the entities that exist and whose
      agent the runner manages to start. */
  function Dispatch(s: State, entity: string, startable: set<string>): (State, Option<DispatchError>) {
    if s.registry != map[] then (s, Some(AlreadyRunning)) else
      var open := InFlight(s.log);
      var k := DeadPrefix(open, s.alive);
      var closed := s.(log := Bury(s.log, open[..k]));
      if k < |open| then (closed, Some(AgentAlive))
      else if entity !in startable then (closed, Some(NotStarted))
      else (Start(closed, entity), None)
  }

  /** The gate: not completed yet, and every depends_on target is. */
  predicate Ready(log: seq<Event>, deps: Deps, task: string) {
    !HasCompleted(log, task) && forall d :: d in DepsOf(deps, task) ==> HasCompleted(log, d)
  }

  /** One sweep over a parent's tasks, in order; each gate reads the log as the
      earlier dispatches left it. */
  function Sweep(s: State, tasks: seq<string>, deps: Deps, startable: set<string>): (State, Option<DispatchError>) {
    if tasks == [] then (s, None) else
      var (before, err) := Sweep(s, tasks[..|tasks| - 1], deps, startable);
      var task := tasks[|tasks| - 1];
      if !Ready(before.log, deps, task) then (before, err) else
        var (after, e) := Dispatch(before, task, startable);
        (after, if e.Some? then e else err)
  }

  /** The error of the dispatch of task i of the list, if the gate lets it come to one. */
  function ErrorAt(s: State, tasks: seq<string>, deps: Deps, startable: set<string>, i: nat): Option<DispatchError>
    requires i < |tasks|
  {
    var before := Sweep(s, tasks[..i], deps, startable).0;
    if Ready(before.log, deps, tasks[i]) then Dispatch(before, tasks[i], startable).1 else None
  }

  function Errors(s: State, tasks: seq<string>, deps: Deps, startable: set<string>): seq<Option<DispatchError>> {
    seq(|tasks|, i requires 0 <= i < |tasks| => ErrorAt(s, tasks, deps, startable, i))
  }

  /** x is the last value in the list. */
  ghost predicate LastIs<T>(xs: seq<Option<T>>, i: nat, x: T) {
    i < |xs| && xs[i] == Some(x) && forall j :: i < j < |xs| ==> xs[j].None?
  }

  lemma LastIsSnoc<T>(xs: seq<Option<T>>, last: Option<T>, x: T)
    ensures (exists i: nat :: LastIs(xs + [last], i, x))
            <==> if last.Some? then last == Some(x) else exists i: nat :: LastIs(xs, i, x)
  {
    if last.Some? {
      assert LastIs(xs + [last], |xs|, last.value);
      assert forall i: nat :: LastIs(xs + [last], i, x) ==> (xs + [last])[|xs|] == last;
    } else {
      forall i: nat ensures LastIs(xs + [last], i, x) <==> LastIs(xs, i, x) {
        assert (xs + [last])[|xs|] == last && forall j :: 0 <= j < |xs| ==> (xs + [last])[j] == xs[j];
      }
    }
  }

  lemma ErrorsSnoc(s: State, tasks: seq<string>, deps: Deps, startable: set<string>)
    requires tasks != []
    ensures var rest, e := tasks[..|tasks| - 1], ErrorAt(s, tasks, deps, startable, |tasks| - 1);
            && Errors(s, tasks, deps, startable) == Errors(s, rest, deps, startable) + [e]
            && Sweep(s, tasks, deps, startable).1 == if e.Some? then e else Sweep(s, rest, deps, startable).1
  {
    var rest := tasks[..|tasks| - 1];
    assert forall i :: 0 <= i < |rest| ==> rest[..i] == tasks[..i];
  }

  /** A sweep returns the error of the last of its dispatches that failed. */
  lemma {:induction false} SweepErrorIsLast(s: State, tasks: seq<string>, deps: Deps, startable: set<string>,
                                            e: DispatchError)
    ensures Sweep(s, tasks, deps, startable).1 == Some(e)
            <==> exists i: nat :: LastIs(Errors(s, tasks, deps, startable), i, e)
  {
    if tasks != [] {
      var rest := tasks[..|tasks| - 1];
      ErrorsSnoc(s, tasks, deps, startable);
      SweepErrorIsLast(s, rest, deps, startable, e);
      LastIsSnoc(Errors(s, rest, deps, startable), ErrorAt(s, tasks, deps, startable, |tasks| - 1), e);
    }
  }

  // ---- Steps --------------------------------------------------------------

  datatype Step =
    | SweepStep(tasks: seq<string>, startable: set<string>)
    | DirectStep(task: string, startable: set<string>)  // a schedule of kind task skips the gate
    | CompleteStep(task: string)
    | FailStep(task: string)
    | CrashStep(run: RunId)                             // the process dies, nothing is recorded
    | RestartStep                                       // the server restarts, agents may survive

  function Ends(s: State, task: string, kind: EventKind): State {
    if task !in s.registry then s else
      var run := s.registry[task];
      State(s.log + [Event(kind, run, task)], s.registry - {task}, s.alive - {run}, s.next)
  }

  function Next(s: State, deps: Deps, step: Step): State {
    match step
    case SweepStep(tasks, startable) => Sweep(s, tasks, deps, startable).0
    case DirectStep(task, startable) => Dispatch(s, task, startable).0
    case CompleteStep(task) => Ends(s, task, Completed)
    case FailStep(task) => Ends(s, task, Failed)
    case CrashStep(run) => s.(registry := map t | t in s.registry && s.registry[t] != run :: s.registry[t],
                              alive := s.alive - {run})
    case RestartStep => s.(registry := map[])
  }

  function Run(s: State, deps: Deps, steps: seq<Step>): State {
    if steps == [] then s else Next(Run(s, deps, steps[..|steps| - 1]), deps, steps[|steps| - 1])
  }

  predicate Gated(steps: seq<Step>) {
    forall i :: 0 <= i < |steps| ==> !steps[i].DirectStep?
  }

  const INITIAL := State([], map[], {}, 0)

  // ---- Invariant ----------------------------------------------------------

  /** At most one run is in flight, run ids are fresh, and a registered run is
      the one in flight. */
  ghost predicate Inv(s: State) {
    && |InFlight(s.log)| <= 1
    && (forall i :: 0 <= i < |s.log| ==> s.log[i].run < s.next)
    && (forall task :: task in s.registry ==> InFlight(s.log) == [Event(Started, s.registry[task], task)])
  }

  /** No run of a completed task is in flight. */
  ghost predicate DoneIsQuiet(log: seq<Event>) {
    forall e :: e in InFlight(log) ==> !HasCompleted(log, e.entity)
  }

  /** Every started row from index n on was gated: its task was not completed
      and all its depends_on targets were, in the log before it. */
  ghost predicate GatedFrom(log: seq<Event>, deps: Deps, n: nat) {
    forall i :: n <= i < |log| && log[i].kind == Started ==> Ready(log[..i], deps, log[i].entity)
  }

  /** after only appends to before, keeps every completed task completed, and
      starts nothing the gate did not admit. */
  ghost predicate Advances(before: seq<Event>, after: seq<Event>, deps: Deps) {
    && before <= after
    && (forall t :: HasCompleted(before, t) ==> HasCompleted(after, t))
    && GatedFrom(after, deps, |before|)
  }

  lemma AdvancesTransitive(a: seq<Event>, b: seq<Event>, c: seq<Event>, deps: Deps)
    requires Advances(a, b, deps) && Advances(b, c, deps)
    ensures Advances(a, c, deps)
  {
    forall i | |a| <= i < |c| && c[i].kind == Started
      ensures Ready(c[..i], deps, c[i].entity)
    {
      if i < |b| {
        assert c[i] == b[i] && c[..i] == b[..i];
      }
    }
  }

  // ---- One dispatch -------------------------------------------------------

  predicate Among(open: seq<Event>, run: RunId) {
    exists i :: 0 <= i < |open| && open[i].run == run
  }

  function NotAmong(open: seq<Event>): Event -> bool {
    (e: Event) => !Among(open, e.run)
  }

  lemma AmongSnoc(open: seq<Event>, e: Event, run: RunId)
    ensures Among(open + [e], run) <==> Among(open, run) || e.run == run
  {
    assert (open + [e])[|open|] == e;
    if Among(open, run) {
      var i :| 0 <= i < |open| && open[i].run == run;
      assert (open + [e])[i] == open[i];
    }
  }

  /** The log once every run of the list has been marked failed. */
  function Bury(log: seq<Event>, open: seq<Event>): seq<Event> {
    log + MapSeq(open, FailedOf)
  }

  lemma BurySnoc(log: seq<Event>, open: seq<Event>, e: Event)
    ensures Bury(log, open + [e]) == Bury(log, open) + [FailedOf(e)]
  {
  }

  /** Failing every run of a list takes exactly those runs out of flight. */
  lemma {:induction false} BuryList(log: seq<Event>, open: seq<Event>)
    ensures InFlight(Bury(log, open)) == Select(InFlight(log), NotAmong(open))
  {
    if open == [] {
      SelectAll(InFlight(log), NotAmong(open));
      assert Bury(log, open) == log;
    } else {
      var before, e := open[..|open| - 1], open[|open| - 1];
      assert open == before + [e];
      BuryList(log, before);
      BurySnoc(log, before, e);
      TerminalClosesRun(Bury(log, before), FailedOf(e));
      forall x: Event ensures NotAmong(open)(x) <==> NotAmong(before)(x) && NotRun(e.run)(x) {
        AmongSnoc(before, e, x.run);
      }
      SelectTwice(InFlight(log), NotAmong(before), NotRun(e.run), NotAmong(open));
    }
  }

  lemma BuryAll(log: seq<Event>)
    ensures InFlight(Bury(log, InFlight(log))) == []
  {
    BuryList(log, InFlight(log));
    SelectNone(InFlight(log), NotAmong(InFlight(log)));
  }

  /** Whatever was in flight before - an older crash may have left any number -
      after a dispatch that starts a run, that run alone is in flight. */
  lemma StartedRunIsAlone(s: State, entity: string, startable: set<string>)
    requires forall i :: 0 <= i < |s.log| ==> s.log[i].run < s.next
    requires Dispatch(s, entity, startable).1.None?
    ensures var after := Dispatch(s, entity, startable).0;
            && InFlight(after.log) == [Event(Started, s.next, entity)]
            && after.registry == map[entity := s.next]
            && after.log == Bury(s.log, InFlight(s.log)) + [Event(Started, s.next, entity)]
  {
    var open := InFlight(s.log);
    assert open[..|open|] == open;
    var closed := Bury(s.log, open);
    BuryAll(s.log);
    forall i | 0 <= i < |closed|
      ensures closed[i].run != s.next
    {
      if i >= |s.log| {
        SelectIn(s.log, OpenIn(s.log), open[i - |s.log|]);
      }
    }
    StartOpensRun(closed, Event(Started, s.next, entity));
  }

  /** Closing the zombies keeps every completed task completed, unless a zombie
      is a run of that task. */
  lemma {:induction false} BuryKeepsCompleted(log: seq<Event>, open: seq<Event>, task: string)
    requires forall i :: 0 <= i < |open| ==> open[i].entity != task
    ensures HasCompleted(Bury(log, open), task) == HasCompleted(log, task)
  {
    if open == [] {
      assert Bury(log, open) == log;
    } else {
      var before, e := open[..|open| - 1], open[|open| - 1];
      assert open == before + [e];
      BuryKeepsCompleted(log, before, task);
      BurySnoc(log, before, e);
      CompletedSnoc(Bury(log, before), FailedOf(e), task);
    }
  }

  lemma DispatchKeepsInv(s: State, entity: string, startable: set<string>)
    requires Inv(s)
    ensures Inv(Dispatch(s, entity, startable).0)
  {
    var (after, err) := Dispatch(s, entity, startable);
    if err.None? {
      StartedRunIsAlone(s, entity, startable);
      BuriedRunsAreOld(s);
    } else if s.registry == map[] {
      var open := InFlight(s.log);
      var k := DeadPrefix(open, s.alive);
      if k == 0 {
        assert Bury(s.log, open[..k]) == s.log;
      } else {
        assert open[..k] == open;
        BuryAll(s.log);
        BuriedRunsAreOld(s);
      }
    }
  }

  lemma BuriedRunsAreOld(s: State)
    requires forall i :: 0 <= i < |s.log| ==> s.log[i].run < s.next
    ensures var closed := Bury(s.log, InFlight(s.log));
            forall i :: 0 <= i < |closed| ==> closed[i].run < s.next
  {
    var open := InFlight(s.log);
    forall i | 0 <= i < |open|
      ensures open[i].run < s.next
    {
      SelectIn(s.log, OpenIn(s.log), open[i]);
    }
  }

  // ---- Whole runs ---------------------------------------------------------

  /** Marking runs failed completes nothing. */
  lemma {:induction false} BuryCompletesNothing(log: seq<Event>, open: seq<Event>, task: string)
    requires !HasCompleted(log, task)
    ensures !HasCompleted(Bury(log, open), task)
  {
    if open == [] {
      assert Bury(log, open) == log;
    } else {
      var before, e := open[..|open| - 1], open[|open| - 1];
      assert open == before + [e];
      BuryCompletesNothing(log, before, task);
      BurySnoc(log, before, e);
      CompletedSnoc(Bury(log, before), FailedOf(e), task);
    }
  }

  lemma BuryKeepsAllCompleted(log: seq<Event>)
    requires DoneIsQuiet(log)
    ensures forall t :: HasCompleted(log, t) <==> HasCompleted(Bury(log, InFlight(log)), t)
  {
    var open := InFlight(log);
    forall t ensures HasCompleted(log, t) <==> HasCompleted(Bury(log, open), t) {
      if HasCompleted(log, t) {
        assert forall i :: 0 <= i < |open| ==> open[i] in InFlight(log);
        BuryKeepsCompleted(log, open, t);
      } else {
        BuryCompletesNothing(log, open, t);
      }
    }
  }

  lemma BuryAdvances(log: seq<Event>, deps: Deps)
    requires DoneIsQuiet(log)
    ensures Advances(log, Bury(log, InFlight(log)), deps) && DoneIsQuiet(Bury(log, InFlight(log)))
  {
    BuryKeepsAllCompleted(log);
    BuryAll(log);
  }

  lemma StartAdvances(log: seq<Event>, e: Event, deps: Deps)
    requires e.kind == Started && Ready(log, deps, e.entity)
    ensures Advances(log, log + [e], deps) && !HasCompleted(log + [e], e.entity)
  {
  }

  /** What a dispatch leaves in the log when at most one run was in flight. */
  lemma DispatchShape(s: State, task: string, startable: set<string>)
    requires Inv(s)
    ensures var (after, err) := Dispatch(s, task, startable);
            var closed := Bury(s.log, InFlight(s.log));
            if err.None? then after.log == closed + [Event(Started, s.next, task)]
            else after.log == s.log || after.log == closed
  {
  }

  /** The dispatch is refused, or its task passes the gate. */
  predicate Admits(s: State, deps: Deps, task: string, startable: set<string>) {
    Dispatch(s, task, startable).1.Some? || Ready(s.log, deps, task)
  }

  lemma AdmittedDispatchAdvances(s: State, task: string, deps: Deps, startable: set<string>)
    requires Inv(s) && DoneIsQuiet(s.log) && Admits(s, deps, task, startable)
    ensures var after := Dispatch(s, task, startable).0;
            Inv(after) && DoneIsQuiet(after.log) && Advances(s.log, after.log, deps)
  {
    DispatchKeepsInv(s, task, startable);
    DispatchShape(s, task, startable);
    BuryAdvances(s.log, deps);
    var closed := Bury(s.log, InFlight(s.log));
    if Dispatch(s, task, startable).1.None? {
      StartedRunIsAlone(s, task, startable);
      BuryKeepsAllCompleted(s.log);
      StartAdvances(closed, Event(Started, s.next, task), deps);
      AdvancesTransitive(s.log, closed, closed + [Event(Started, s.next, task)], deps);
    }
  }

  /** A dispatch that starts a task past the gate breaks the order for good. */
  lemma UngatedDispatchBreaksOrder(s: State, task: string, deps: Deps, startable: set<string>)
    requires Inv(s) && DoneIsQuiet(s.log) && !Admits(s, deps, task, startable)
    ensures !GatedFrom(Dispatch(s, task, startable).0.log, deps, |s.log|)
  {
    var after := Dispatch(s, task, startable).0.log;
    StartedRunIsAlone(s, task, startable);
    BuryKeepsAllCompleted(s.log);
    var closed := Bury(s.log, InFlight(s.log));
    assert after == closed + [Event(Started, s.next, task)] && after[..|closed|] == closed;
    assert after[|closed|].kind == Started && !Ready(after[..|closed|], deps, task);
  }

  lemma {:induction false} SweepAdvances(s: State, tasks: seq<string>, deps: Deps, startable: set<string>)
    requires Inv(s) && DoneIsQuiet(s.log)
    ensures var after := Sweep(s, tasks, deps, startable).0;
            Inv(after) && DoneIsQuiet(after.log) && Advances(s.log, after.log, deps)
  {
    if tasks != [] {
      var rest, task := tasks[..|tasks| - 1], tasks[|tasks| - 1];
      SweepAdvances(s, rest, deps, startable);
      var before := Sweep(s, rest, deps, startable).0;
      if Ready(before.log, deps, task) {
        AdmittedDispatchAdvances(before, task, deps, startable);
        AdvancesTransitive(s.log, before.log, Dispatch(before, task, startable).0.log, deps);
      }
    }
  }

  lemma EndsKeepsInv(s: State, task: string, kind: EventKind)
    requires Inv(s) && (kind == Completed || kind == Failed)
    ensures Inv(Ends(s, task, kind))
    ensures task in s.registry ==> InFlight(Ends(s, task, kind).log) == []
  {
    if task in s.registry {
      var run := s.registry[task];
      var last := Event(kind, run, task);
      TerminalClosesRun(s.log, last);
      SelectNone(InFlight(s.log), NotRun(run));
      forall t | t in s.registry
        ensures t == task
      {
        assert [Event(Started, s.registry[t], t)] == [Event(Started, run, task)];
      }
      SelectIn(s.log, OpenIn(s.log), InFlight(s.log)[0]);
    }
  }

  lemma EndsAdvances(s: State, task: string, kind: EventKind, deps: Deps)
    requires Inv(s) && DoneIsQuiet(s.log) && (kind == Completed || kind == Failed)
    ensures var after := Ends(s, task, kind);
            && Inv(after) && DoneIsQuiet(after.log) && Advances(s.log, after.log, deps)
            && (task in s.registry && kind == Completed ==> HasCompleted(after.log, task))
  {
    EndsKeepsInv(s, task, kind);
    if task in s.registry {
      var last := Event(kind, s.registry[task], task);
      assert InFlight(s.log)[0].entity == task && InFlight(s.log)[0] in InFlight(s.log);
      forall t ensures HasCompleted(s.log + [last], t)
                       <==> if t == task then kind == Completed else HasCompleted(s.log, t) {
        CompletedSnoc(s.log, last, t);
      }
    }
  }

  lemma {:induction false} SweepKeepsInv(s: State, tasks: seq<string>, deps: Deps, startable: set<string>)
    requires Inv(s)
    ensures Inv(Sweep(s, tasks, deps, startable).0)
  {
    if tasks != [] {
      var rest, task := tasks[..|tasks| - 1], tasks[|tasks| - 1];
      SweepKeepsInv(s, rest, deps, startable);
      DispatchKeepsInv(Sweep(s, rest, deps, startable).0, task, startable);
    }
  }

  /** One run in flight is kept by every step, ungated dispatches included. */
  lemma {:induction false} EveryRunIsSingleFlight(s: State, deps: Deps, steps: seq<Step>)
    requires Inv(s)
    ensures Inv(Run(s, deps, steps))
  {
    if steps != [] {
      var before := Run(s, deps, steps[..|steps| - 1]);
      EveryRunIsSingleFlight(s, deps, steps[..|steps| - 1]);
      match steps[|steps| - 1]
      case SweepStep(tasks, startable) => SweepKeepsInv(before, tasks, deps, startable);
      case DirectStep(task, startable) => DispatchKeepsInv(before, task, startable);
      case CompleteStep(task) => EndsKeepsInv(before, task, Completed);
      case FailStep(task) => EndsKeepsInv(before, task, Failed);
      case CrashStep(_) =>
      case RestartStep =>
    }
  }

  /** Whatever the log, what a sweep starts comes after a completed row of each of
      its depends_on targets. */
  lemma {:induction false} SweepStartsAfterCompletions(s: State, tasks: seq<string>, deps: Deps, startable: set<string>,
                                                       i: nat, d: string)
    requires var after := Sweep(s, tasks, deps, startable).0;
             |s.log| <= i < |after.log| && after.log[i].kind == Started && d in DepsOf(deps, after.log[i].entity)
    ensures s.log <= Sweep(s, tasks, deps, startable).0.log
    ensures var log := Sweep(s, tasks, deps, startable).0.log;
            exists j :: 0 <= j < i && log[j].kind == Completed && log[j].entity == d
  {
    SweepAppends(s, tasks, deps, startable);
    var rest, task := tasks[..|tasks| - 1], tasks[|tasks| - 1];
    var before, after := Sweep(s, rest, deps, startable).0, Sweep(s, tasks, deps, startable).0;
    SweepAppends(s, rest, deps, startable);
    if i < |before.log| {
      assert before.log[i] == after.log[i];
      SweepStartsAfterCompletions(s, rest, deps, startable, i, d);
      var j :| 0 <= j < i && before.log[j].kind == Completed && before.log[j].entity == d;
      assert after.log[j] == before.log[j];
    } else {
      assert Ready(before.log, deps, task) && after.log[i].entity == task;
      CompletedHasRow(before.log, d);
      var j :| 0 <= j < |before.log| && before.log[j].kind == Completed && before.log[j].entity == d;
      assert after.log[j] == before.log[j];
    }
  }

  lemma {:induction false} SweepAppends(s: State, tasks: seq<string>, deps: Deps, startable: set<string>)
    ensures s.log <= Sweep(s, tasks, deps, startable).0.log
    ensures tasks != [] ==>
              Sweep(s, tasks[..|tasks| - 1], deps, startable).0.log <= Sweep(s, tasks, deps, startable).0.log
  {
    if tasks != [] {
      SweepAppends(s, tasks[..|tasks| - 1], deps, startable);
    }
  }

  /** A direct dispatch is refused, or starts a task the gate would admit. */
  ghost predicate Admitted(s: State, deps: Deps, step: Step) {
    step.DirectStep? ==> Admits(s, deps, step.task, step.startable)
  }

  ghost predicate AdmittedRun(s: State, deps: Deps, steps: seq<Step>) {
    steps == [] ||
    var before := steps[..|steps| - 1];
    AdmittedRun(s, deps, before) && Admitted(Run(s, deps, before), deps, steps[|steps| - 1])
  }

  /** A run without direct dispatches is admitted. */
  lemma {:induction false} GatedIsAdmitted(s: State, deps: Deps, steps: seq<Step>)
    requires Gated(steps)
    ensures AdmittedRun(s, deps, steps)
  {
    if steps != [] {
      GatedIsAdmitted(s, deps, steps[..|steps| - 1]);
    }
  }

  lemma StepAdvances(s: State, deps: Deps, step: Step)
    requires Inv(s) && DoneIsQuiet(s.log) && Admitted(s, deps, step)
    ensures var after := Next(s, deps, step);
            Inv(after) && DoneIsQuiet(after.log) && Advances(s.log, after.log, deps)
  {
    match step
    case SweepStep(tasks, startable) => SweepAdvances(s, tasks, deps, startable);
    case DirectStep(task, startable) => AdmittedDispatchAdvances(s, task, deps, startable);
    case CompleteStep(task) => EndsAdvances(s, task, Completed, deps);
    case FailStep(task) => EndsAdvances(s, task, Failed, deps);
    case CrashStep(_) =>
    case RestartStep =>
  }

  lemma StepAppends(s: State, deps: Deps, step: Step)
    ensures s.log <= Next(s, deps, step).log
  {
    match step
    case SweepStep(tasks, startable) => SweepAppends(s, tasks, deps, startable);
    case DirectStep(_, _) =>
    case CompleteStep(_) =>
    case FailStep(_) =>
    case CrashStep(_) =>
    case RestartStep =>
  }

  lemma OrderOfPrefix(a: seq<Event>, b: seq<Event>, deps: Deps, n: nat)
    requires a <= b && GatedFrom(b, deps, n)
    ensures GatedFrom(a, deps, n)
  {
    forall i | n <= i < |a| && a[i].kind == Started
      ensures Ready(a[..i], deps, a[i].entity)
    {
      assert b[i] == a[i] && b[..i] == a[..i];
    }
  }

  /** One more step, after a run that advanced from a log or broke its order. */
  lemma SafeSnoc(log: seq<Event>, s: State, deps: Deps, step: Step)
    requires log <= s.log
    ensures log <= Next(s, deps, step).log
    ensures !GatedFrom(s.log, deps, |log|) ==> !GatedFrom(Next(s, deps, step).log, deps, |log|)
    ensures Inv(s) && DoneIsQuiet(s.log) && Advances(log, s.log, deps) ==>
              var after := Next(s, deps, step);
              && (GatedFrom(after.log, deps, |log|) <==> Admitted(s, deps, step))
              && (Admitted(s, deps, step) ==> Inv(after) && DoneIsQuiet(after.log) && Advances(log, after.log, deps))
  {
    var after := Next(s, deps, step);
    StepAppends(s, deps, step);
    if GatedFrom(after.log, deps, |log|) {
      OrderOfPrefix(s.log, after.log, deps, |log|);
    }
    if Inv(s) && DoneIsQuiet(s.log) && Advances(log, s.log, deps) {
      if Admitted(s, deps, step) {
        StepAdvances(s, deps, step);
        AdvancesTransitive(log, s.log, after.log, deps);
      } else {
        UngatedDispatchBreaksOrder(s, step.task, deps, step.startable);
      }
    }
  }

  /** Over every run of sweeps, direct dispatches, completions, failures, crashes
      and restarts, about the whole gate: every started row finds all the depends_on
      targets of its task still completed and the task itself not completed, exactly
      when every direct dispatch is refused or starts a task that is ready just then.
      Such a run has at most one run in flight throughout, and a task once completed
      stays completed. */
  lemma {:induction false} EveryRunIsSafe(s: State, deps: Deps, steps: seq<Step>)
    requires Inv(s) && DoneIsQuiet(s.log)
    ensures s.log <= Run(s, deps, steps).log
    ensures GatedFrom(Run(s, deps, steps).log, deps, |s.log|) <==> AdmittedRun(s, deps, steps)
    ensures AdmittedRun(s, deps, steps) ==>
              var after := Run(s, deps, steps);
              Inv(after) && DoneIsQuiet(after.log) && Advances(s.log, after.log, deps)
  {
    if steps != [] {
      var before := steps[..|steps| - 1];
      EveryRunIsSafe(s, deps, before);
      SafeSnoc(s.log, Run(s, deps, before), deps, steps[|steps| - 1]);
    }
  }

  /** From an empty log: one run in flight whatever the steps, and every started row
      of the whole log was gated exactly when every direct dispatch was admitted. */
  lemma FreshRunIsOrdered(deps: Deps, steps: seq<Step>)
    ensures GatedFrom(Run(INITIAL, deps, steps).log, deps, 0) <==> AdmittedRun(INITIAL, deps, steps)
    ensures |InFlight(Run(INITIAL, deps, steps).log)| <= 1
  {
    EveryRunIsSafe(INITIAL, deps, steps);
    EveryRunIsSingleFlight(INITIAL, deps, steps);
  }
}
