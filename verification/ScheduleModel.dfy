/** Schedules: the table as a value, the runner's registered set, and the steps
    that interleave over both. */
module ScheduleModel {
  import opened Common

  type Stamp = nat
  type ScheduleId = int

  datatype Schedule = Schedule(kind: string, entity: string, runAt: Option<Stamp>, cronExpr: string,
                               maxRuns: int, runsSoFar: int, enabled: bool, validTo: Option<Stamp>)

  type Table = map<ScheduleId, Schedule>

  predicate Current(s: Schedule) {
    s.validTo.None?
  }

  /** The rows ListAllCurrent returns. */
  predicate Due(s: Schedule) {
    Current(s) && s.enabled && (s.maxRuns == 0 || s.runsSoFar < s.maxRuns)
  }

  function DueIds(rows: Table): set<ScheduleId> {
    set id | id in rows && Due(rows[id])
  }

  predicate OneShot(s: Schedule) {
    s.cronExpr == "" || s.cronExpr == "once"
  }

  predicate Stale(s: Schedule, now: Stamp) {
    OneShot(s) && s.runAt.Some? && s.runAt.value < now
  }

  function CloseRow(s: Schedule, now: Stamp): Schedule {
    if Current(s) then s.(validTo := Some(now)) else s
  }

  function CloseId(rows: Table, id: ScheduleId, now: Stamp): Table {
    if id in rows then rows[id := CloseRow(rows[id], now)] else rows
  }

  function CloseStale(rows: Table, now: Stamp): Table {
    map id | id in rows :: if Stale(rows[id], now) then CloseRow(rows[id], now) else rows[id]
  }

  function FiredRow(s: Schedule): Schedule {
    if !Current(s) then s else
      s.(runsSoFar := s.runsSoFar + 1, enabled := s.enabled && !(s.maxRuns > 0 && s.runsSoFar + 1 >= s.maxRuns))
  }

  function MarkFired(rows: Table, id: ScheduleId): Table {
    if id in rows then rows[id := FiredRow(rows[id])] else rows
  }

  // ---- The registered set ---------------------------------------------------

  /** What Reload makes of the registered ids, given the ids it listed: the rest
      is dropped, what parses is added, and what is there is left alone. */
  function Reloaded(registered: set<ScheduleId>, want: set<ScheduleId>, parses: ScheduleId -> bool): set<ScheduleId> {
    (registered * want) + set id | id in want && parses(id)
  }

  /** Reloading again on the same rows changes nothing. */
  lemma ReloadIdempotent(registered: set<ScheduleId>, want: set<ScheduleId>, parses: ScheduleId -> bool)
    ensures var once := Reloaded(registered, want, parses);
            Reloaded(once, want, parses) == once && once <= want
  {
  }

  // ---- Steps --------------------------------------------------------------

  /** fires counts the successful dispatches of a row and initial is the
      runs_so_far it was created with. */
  datatype World = World(rows: Table, registered: set<ScheduleId>, fires: map<ScheduleId, nat>,
                         initial: map<ScheduleId, int>)

  datatype Step =
    | CreateStep(id: ScheduleId, row: Schedule)
    | CloseStep(id: ScheduleId, now: Stamp)
    | CloseStaleStep(now: Stamp)
    | ReloadStep(parses: ScheduleId -> bool)
    | LateReload(want: set<ScheduleId>, parses: ScheduleId -> bool)  // listed before the lock, applied now
    | FireStep(id: ScheduleId, dispatched: bool)                     // cron runs a registered job

  function Next(w: World, step: Step): World {
    match step
    case CreateStep(id, row) =>
      if id in w.rows then w
      else World(w.rows[id := row.(validTo := None)], w.registered, w.fires[id := 0], w.initial[id := row.runsSoFar])
    case CloseStep(id, now) => w.(rows := CloseId(w.rows, id, now))
    case CloseStaleStep(now) => w.(rows := CloseStale(w.rows, now))
    case ReloadStep(parses) => w.(registered := Reloaded(w.registered, DueIds(w.rows), parses))
    case LateReload(want, parses) => w.(registered := Reloaded(w.registered, want, parses))
    case FireStep(id, dispatched) =>
      if id !in w.registered || !dispatched || id !in w.fires then w
      else World(MarkFired(w.rows, id), w.registered - {id}, w.fires[id := w.fires[id] + 1], w.initial)
  }

  function Run(w: World, steps: seq<Step>): World {
    if steps == [] then w else Next(Run(w, steps[..|steps| - 1]), steps[|steps| - 1])
  }

  const EMPTY := World(map[], {}, map[], map[])

  predicate Atomic(steps: seq<Step>) {
    forall i :: 0 <= i < |steps| ==> !steps[i].LateReload?
  }

  /** A row's fires are its counted runs, plus at most one fire that a close left
      uncounted; a registered row still has a run to spend. */
  ghost predicate Accounted(s: Schedule, registered: bool, fires: nat, initial: int) {
    && (fires == s.runsSoFar - initial || (!Current(s) && !registered && fires == s.runsSoFar - initial + 1))
    && (registered ==> fires == s.runsSoFar - initial && (s.maxRuns > 0 ==> s.runsSoFar < s.maxRuns))
    && (s.maxRuns > 0 && fires > 0 ==> initial + fires <= s.maxRuns)
  }

  ghost predicate Inv(w: World) {
    && w.fires.Keys == w.initial.Keys == w.rows.Keys && w.registered <= w.rows.Keys
    && forall id :: id in w.rows ==> Accounted(w.rows[id], id in w.registered, w.fires[id], w.initial[id])
  }

  lemma StepKeepsInv(w: World, step: Step)
    requires Inv(w) && !step.LateReload?
    ensures Inv(Next(w, step))
  {
  }

  /** With Reload and fire atomic, a schedule with max_runs m never fires more
      than m minus its initial runs_so_far times, closed or not. */
  lemma {:induction false} FiresAreBounded(steps: seq<Step>)
    requires Atomic(steps)
    ensures var w := Run(EMPTY, steps);
            && Inv(w)
            && forall id :: id in w.rows && w.rows[id].maxRuns > 0 && w.fires[id] > 0
                            ==> w.fires[id] <= w.rows[id].maxRuns - w.initial[id]
  {
    if steps != [] {
      FiresAreBounded(steps[..|steps| - 1]);
      StepKeepsInv(Run(EMPTY, steps[..|steps| - 1]), steps[|steps| - 1]);
    }
  }

  function FiresOf(w: World, id: ScheduleId): nat {
    if id in w.fires then w.fires[id] else 0
  }

  /** A step of the run created the schedule, disabled. */
  ghost predicate CreatedDisabled(steps: seq<Step>, id: ScheduleId) {
    exists k :: 0 <= k < |steps| && steps[k].CreateStep? && steps[k].id == id && !steps[k].row.enabled
                && id !in Run(EMPTY, steps[..k]).rows
  }

  ghost predicate NeverListedLate(steps: seq<Step>, id: ScheduleId) {
    forall i :: 0 <= i < |steps| && steps[i].LateReload? ==> id !in steps[i].want
  }

  /** Switched off, not registered, never fired. */
  ghost predicate Off(w: World, id: ScheduleId) {
    id in w.rows && id in w.fires && !w.rows[id].enabled && id !in w.registered && w.fires[id] == 0
  }

  lemma StepKeepsOff(w: World, step: Step, id: ScheduleId)
    requires Off(w, id) && (step.LateReload? ==> id !in step.want)
    ensures Off(Next(w, step), id)
  {
  }

  lemma {:induction false} StaysOff(w: World, steps: seq<Step>, id: ScheduleId)
    requires Off(w, id) && NeverListedLate(steps, id)
    ensures Off(Run(w, steps), id)
  {
    if steps != [] {
      var before := steps[..|steps| - 1];
      StaysOff(w, before, id);
      StepKeepsOff(Run(w, before), steps[|steps| - 1], id);
    }
  }

  /** The id names no row, or names one whose fires are counted. */
  ghost predicate Known(w: World, id: ScheduleId) {
    (id in w.fires <==> id in w.rows) && (id in w.registered ==> id in w.rows)
  }

  lemma StepKeepsKnown(w: World, step: Step, id: ScheduleId)
    requires Known(w, id) && (step.LateReload? ==> id !in step.want)
    ensures Known(Next(w, step), id)
  {
  }

  lemma {:induction false} RunKeepsKnown(steps: seq<Step>, id: ScheduleId)
    requires NeverListedLate(steps, id)
    ensures Known(Run(EMPTY, steps), id)
  {
    if steps != [] {
      var before := steps[..|steps| - 1];
      RunKeepsKnown(before, id);
      StepKeepsKnown(Run(EMPTY, before), steps[|steps| - 1], id);
    }
  }

  lemma CreateTurnsOff(w: World, row: Schedule, id: ScheduleId)
    requires Known(w, id) && id !in w.rows && !row.enabled
    ensures Off(Next(w, CreateStep(id, row)), id)
  {
  }

  lemma {:induction false} RunConcat(w: World, a: seq<Step>, b: seq<Step>)
    ensures Run(w, a + b) == Run(Run(w, a), b)
  {
    if b == [] {
      assert a + b == a;
    } else {
      RunConcat(w, a, b[..|b| - 1]);
      assert (a + b)[..|a + b| - 1] == a + b[..|b| - 1];
    }
  }

  lemma CreatedThenOff(before: seq<Step>, row: Schedule, more: seq<Step>, id: ScheduleId)
    requires NeverListedLate(before, id) && NeverListedLate(more, id)
    requires id !in Run(EMPTY, before).rows && !row.enabled
    ensures Off(Run(EMPTY, before + [CreateStep(id, row)] + more), id)
  {
    var w := Run(EMPTY, before);
    RunKeepsKnown(before, id);
    CreateTurnsOff(w, row, id);
    StaysOff(Next(w, CreateStep(id, row)), more, id);
    RunSnoc(EMPTY, before, CreateStep(id, row));
    RunConcat(EMPTY, before + [CreateStep(id, row)], more);
  }

  /** A schedule created disabled is never registered and never fires, unless a list
      read before the lock names it; with atomic reloads, never. */
  lemma DisabledNeverFires(steps: seq<Step>, id: ScheduleId)
    requires CreatedDisabled(steps, id) && (Atomic(steps) || NeverListedLate(steps, id))
    ensures FiresOf(Run(EMPTY, steps), id) == 0 && id !in Run(EMPTY, steps).registered
  {
    var k :| 0 <= k < |steps| && steps[k].CreateStep? && steps[k].id == id && !steps[k].row.enabled
             && id !in Run(EMPTY, steps[..k]).rows;
    assert steps == steps[..k] + [CreateStep(id, steps[k].row)] + steps[k + 1..];
    CreatedThenOff(steps[..k], steps[k].row, steps[k + 1..], id);
  }

  /** The job takes its own entry out of cron after every successful fire, so
      between two reloads a schedule fires at most once - a recurring one too. */
  lemma {:induction false} OneFireBetweenReloads(w: World, id: ScheduleId, steps: seq<Step>)
    requires id in w.fires && id in w.rows
    requires forall i :: 0 <= i < |steps| ==> !steps[i].ReloadStep? && !steps[i].LateReload?
    ensures var after := Run(w, steps);
            && id in after.fires && id in after.rows
            && FiresOf(after, id) <= FiresOf(w, id) + 1
            && (id in after.registered ==> id in w.registered && FiresOf(after, id) == FiresOf(w, id))
            && (id !in w.registered ==> FiresOf(after, id) == FiresOf(w, id))
  {
    if steps != [] {
      OneFireBetweenReloads(w, id, steps[..|steps| - 1]);
    }
  }

  lemma RunSnoc(w: World, steps: seq<Step>, step: Step)
    ensures Run(w, steps + [step]) == Next(Run(w, steps), step)
  {
  }

  /** The step is a reload, atomic or late, that lists the id. */
  predicate Lists(w: World, step: Step, id: ScheduleId) {
    match step
    case ReloadStep(_) => id in DueIds(w.rows)
    case LateReload(want, _) => id in want
    case _ => false
  }

  predicate Registers(w: World, step: Step, id: ScheduleId) {
    match step
    case ReloadStep(parses) => Lists(w, step, id) && parses(id)
    case LateReload(want, parses) => Lists(w, step, id) && parses(id)
    case _ => false
  }

  /** The step drops the id: a reload that does not list it, or a successful fire. */
  predicate Drops(w: World, step: Step, id: ScheduleId) {
    match step
    case ReloadStep(_) => !Lists(w, step, id)
    case LateReload(_, _) => !Lists(w, step, id)
    case FireStep(fired, dispatched) => fired == id && dispatched
    case _ => false
  }

  lemma StepRegistersIff(w: World, step: Step, id: ScheduleId)
    requires id in w.fires
    ensures id in Next(w, step).registered
            <==> Registers(w, step, id) || (id in w.registered && !Drops(w, step, id))
    ensures id in Next(w, step).fires
  {
  }

  /** Some reload of the run listed the id and it parsed, and no later step dropped it. */
  ghost predicate Relisted(w: World, steps: seq<Step>, id: ScheduleId) {
    steps != [] &&
    var before, step := steps[..|steps| - 1], steps[|steps| - 1];
    Registers(Run(w, before), step, id) || (Relisted(w, before, id) && !Drops(Run(w, before), step, id))
  }

  lemma {:induction false} RegisteredIffRelisted(w: World, steps: seq<Step>, id: ScheduleId)
    requires id in w.fires && id !in w.registered
    ensures id in Run(w, steps).fires
    ensures id in Run(w, steps).registered <==> Relisted(w, steps, id)
  {
    if steps != [] {
      var before := steps[..|steps| - 1];
      RegisteredIffRelisted(w, before, id);
      StepRegistersIff(Run(w, before), steps[|steps| - 1], id);
    }
  }

  /** After a successful fire - recurring or not - the next tick of the schedule fires
      it again if and only if a reload since then listed it, it parsed, and nothing
      has dropped it after that. */
  lemma FiresAgainIff(w: World, id: ScheduleId, steps: seq<Step>)
    requires id in w.registered && id in w.fires
    ensures var fired := Next(w, FireStep(id, true));
            var now := Run(fired, steps);
            && FiresOf(fired, id) == FiresOf(w, id) + 1
            && (FiresOf(Next(now, FireStep(id, true)), id) == FiresOf(now, id) + 1 <==> Relisted(fired, steps, id))
            && (!Relisted(fired, steps, id) ==> Next(now, FireStep(id, true)) == now)
  {
    RegisteredIffRelisted(Next(w, FireStep(id, true)), steps, id);
  }

  /** A recurring schedule without a limit loses its second tick when no reload comes
      between. */
  lemma RecurringLosesSecondTick(row: Schedule) returns (steps: seq<Step>)
    requires row.maxRuns == 0 && row.cronExpr != "" && row.cronExpr != "once" && row.enabled
    ensures |steps| == 4 && steps[0] == CreateStep(1, row) && steps[2] == steps[3] == FireStep(1, true)
    ensures var w := Run(EMPTY, steps);
            1 in w.rows && Due(w.rows[1]) && FiresOf(w, 1) == 1
  {
    var all := (id: ScheduleId) => true;
    var create, reload, fire := CreateStep(1, row), ReloadStep(all), FireStep(1, true);
    steps := [] + [create] + [reload] + [fire] + [fire];
    RunSnoc(EMPTY, [], create);
    RunSnoc(EMPTY, [] + [create], reload);
    assert 1 in DueIds(Run(EMPTY, [] + [create]).rows);
    RunSnoc(EMPTY, [] + [create] + [reload], fire);
    RunSnoc(EMPTY, [] + [create] + [reload] + [fire], fire);
  }

  // ---- Reloads that list their rows before the lock ---------------------------

  /** The schedule has a limit and has used it up. */
  predicate Spent(w: World, id: ScheduleId) {
    && id in w.rows && id in w.fires && id in w.initial
    && w.rows[id].maxRuns > 0 && w.initial[id] + w.fires[id] >= w.rows[id].maxRuns
  }

  /** It has fired, and more often than its limit allows. */
  predicate Overspent(w: World, id: ScheduleId) {
    Spent(w, id) && w.fires[id] > 0 && w.initial[id] + w.fires[id] > w.rows[id].maxRuns
  }

  /** One late reload and one fire, from any state in which the schedule is not
      overspent: the fire is one too many exactly when the schedule was spent, and
      still registered or registered again by the list. */
  lemma LateReloadOverspendsIff(w: World, want: set<ScheduleId>, parses: ScheduleId -> bool, id: ScheduleId)
    requires id in w.rows && id in w.fires && id in w.initial && w.rows[id].maxRuns > 0 && !Overspent(w, id)
    ensures Overspent(Next(Next(w, LateReload(want, parses)), FireStep(id, true)), id)
            <==> id in want && (id in w.registered || parses(id)) && Spent(w, id)
    ensures Inv(w) && id in w.registered ==> !Spent(w, id)
  {
    assert Inv(w) ==> Accounted(w.rows[id], id in w.registered, w.fires[id], w.initial[id]);
    var mid := Next(w, LateReload(want, parses));
    assert mid.rows == w.rows && mid.fires == w.fires && mid.initial == w.initial;
    assert id in mid.registered <==> id in want && (id in w.registered || parses(id));
  }

  /** A late reload lists rows it read earlier, and rows are never deleted. */
  ghost predicate Grounded(w: World, steps: seq<Step>) {
    steps == [] ||
    var before, step := steps[..|steps| - 1], steps[|steps| - 1];
    Grounded(w, before) && (step.LateReload? ==> step.want <= Run(w, before).rows.Keys)
  }

  /** A late reload does not list, and parse, a schedule spent by then. */
  predicate RelistsNoneSpent(w: World, step: Step) {
    step.LateReload? ==> forall id :: id in step.want && step.parses(id) ==> !Spent(w, id)
  }

  ghost predicate NoneSpentRelisted(w: World, steps: seq<Step>) {
    steps == [] ||
    var before := steps[..|steps| - 1];
    NoneSpentRelisted(w, before) && RelistsNoneSpent(Run(w, before), steps[|steps| - 1])
  }

  predicate NoneSpentRegistered(w: World) {
    forall id :: id in w.registered ==> !Spent(w, id)
  }

  /** A current row has counted every one of its fires. */
  ghost predicate Counted(w: World) {
    && w.fires.Keys == w.initial.Keys == w.rows.Keys && w.registered <= w.rows.Keys
    && forall id :: id in w.rows && Current(w.rows[id]) ==> w.fires[id] == w.rows[id].runsSoFar - w.initial[id]
  }

  ghost predicate NoneOverspent(w: World) {
    forall id :: id in w.rows ==> !Overspent(w, id)
  }

  lemma StepStaysCounted(w: World, step: Step)
    requires Counted(w) && (step.LateReload? ==> step.want <= w.rows.Keys)
    ensures Counted(Next(w, step))
  {
  }

  lemma StepRegistersSpentIff(w: World, step: Step)
    requires Counted(w) && NoneSpentRegistered(w) && (step.LateReload? ==> step.want <= w.rows.Keys)
    ensures NoneSpentRegistered(Next(w, step)) <==> RelistsNoneSpent(w, step)
  {
    var after := Next(w, step);
    match step
    case LateReload(want, parses) =>
      forall id ensures Spent(after, id) <==> Spent(w, id) {
      }
      assert forall id :: id in want && parses(id) ==> id in after.registered;
    case ReloadStep(parses) =>
      forall id | id in after.registered
        ensures !Spent(after, id)
      {
        assert id in DueIds(w.rows) || id in w.registered;
      }
    case CreateStep(_, _) =>
    case CloseStep(_, _) =>
    case CloseStaleStep(_) =>
    case FireStep(_, _) =>
  }

  lemma StepOverspendsNone(w: World, step: Step)
    requires Counted(w) && NoneSpentRegistered(w) && NoneOverspent(w)
    ensures NoneOverspent(Next(w, step))
  {
  }

  /** Over every run with split reloads: no registered schedule is ever spent exactly
      when no late reload lists, and parses, a schedule spent at that moment. And
      then no schedule ever fires more often than its limit allows. */
  lemma {:induction false} NoneSpentRegisteredIff(steps: seq<Step>)
    requires Grounded(EMPTY, steps)
    ensures NoneSpentRelisted(EMPTY, steps)
            <==> forall k :: 0 <= k <= |steps| ==> NoneSpentRegistered(Run(EMPTY, steps[..k]))
    ensures Counted(Run(EMPTY, steps))
    ensures NoneSpentRelisted(EMPTY, steps) ==> NoneOverspent(Run(EMPTY, steps))
  {
    assert steps[..|steps|] == steps;
    if steps != [] {
      var before, step := steps[..|steps| - 1], steps[|steps| - 1];
      NoneSpentRegisteredIff(before);
      var w := Run(EMPTY, before);
      StepStaysCounted(w, step);
      assert forall k :: 0 <= k <= |before| ==> before[..k] == steps[..k];
      if NoneSpentRelisted(EMPTY, before) {
        assert before[..|before|] == before;
        StepRegistersSpentIff(w, step);
        StepOverspendsNone(w, step);
      }
    }
  }

  /** The fire bound with split reloads: max_runs minus the initial count, over every
      run in which no late reload lists and parses a spent schedule. */
  lemma FiresAreBoundedIfNoneSpentRelisted(steps: seq<Step>)
    requires Grounded(EMPTY, steps) && NoneSpentRelisted(EMPTY, steps)
    ensures var w := Run(EMPTY, steps);
            && w.fires.Keys == w.initial.Keys == w.rows.Keys
            && forall id :: id in w.rows && w.rows[id].maxRuns > 0 && w.fires[id] > 0
                            ==> w.fires[id] <= w.rows[id].maxRuns - w.initial[id]
  {
    NoneSpentRegisteredIff(steps);
    var w := Run(EMPTY, steps);
    assert forall id :: id in w.rows ==> !Overspent(w, id);
  }

  /** And a spent schedule that is registered overspends with its next fire. */
  lemma SpentRegisteredOverspends(w: World, id: ScheduleId)
    requires Spent(w, id) && id in w.registered
    ensures Overspent(Next(w, FireStep(id, true)), id)
  {
  }

  /** Why Reload must be atomic: rows listed before the lock can register a
      schedule again after its last run, and it fires once too often. */
  lemma LateReloadOverfires(row: Schedule) returns (steps: seq<Step>)
    requires row.maxRuns == 1 && row.runsSoFar == 0 && row.enabled
    ensures var w := Run(EMPTY, steps);
            1 in w.rows && w.rows[1].maxRuns == 1 && 1 in w.initial && w.initial[1] == 0 && FiresOf(w, 1) == 2
  {
    var all := (id: ScheduleId) => true;
    var s := [CreateStep(1, row), ReloadStep(all), FireStep(1, true), LateReload({1}, all), FireStep(1, true)];
    steps := [] + [s[0]] + [s[1]] + [s[2]] + [s[3]] + [s[4]];
    RunSnoc(EMPTY, [], s[0]);
    RunSnoc(EMPTY, [] + [s[0]], s[1]);
    assert 1 in DueIds(Run(EMPTY, [] + [s[0]]).rows);
    RunSnoc(EMPTY, [] + [s[0]] + [s[1]], s[2]);
    RunSnoc(EMPTY, [] + [s[0]] + [s[1]] + [s[2]], s[3]);
    RunSnoc(EMPTY, [] + [s[0]] + [s[1]] + [s[2]] + [s[3]], s[4]);
  }
}
