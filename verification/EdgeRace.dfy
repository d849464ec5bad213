/** Writers in any interleaving. Create reads its clock under createMu and commits
    its transaction later, with any ValidFrom; Remove takes no lock, reads its clock
    first and issues its UPDATE later, also between the two halves of a Create. */
module EdgeRace {
  import opened Common
  import opened Sequences
  import opened EdgeModel
  import EdgeHistory

  /** A Remove that has read the clock and not yet updated the table. */
  datatype PendingRemove = PendingRemove(key: Tuple, actor: string, reason: string, now: Stamp)

  /** The Create that holds createMu and has read the clock. */
  datatype PendingCreate = PendingCreate(draft: Draft, now: Stamp)

  datatype World = World(rows: seq<Edge>, clock: Stamp, pending: seq<PendingRemove>, creating: Option<PendingCreate>)

  datatype Step =
    | Tick(delta: nat)
    | CreateReads(draft: Draft)
    | CreateWrites
    | RemoveReads(key: Tuple, actor: string, reason: string)
    | RemoveWrites(index: nat)

  function Next(w: World, step: Step): World {
    match step
    case Tick(n) => w.(clock := w.clock + n)
    case CreateReads(d) =>  // rejected input never gets the lock, and a held lock blocks
      if DraftError(d).Some? || w.creating.Some? then w else w.(creating := Some(PendingCreate(d, w.clock)))
    case CreateWrites =>
      if w.creating.None? then w else
        var r := CreateRows(w.rows, w.creating.value.draft, w.creating.value.now);
        w.(rows := if r.Ok? then r.value else w.rows, creating := None)
    case RemoveReads(key, actor, reason) =>
      w.(pending := w.pending + [PendingRemove(key, actor, reason, w.clock)])
    case RemoveWrites(i) =>
      if i < |w.pending| then
        var p := w.pending[i];
        w.(rows := RemoveRows(w.rows, p.key, p.actor, p.reason, p.now), pending := w.pending[..i] + w.pending[i + 1..])
      else w
  }

  function Run(w: World, steps: seq<Step>): World {
    if steps == [] then w else Next(Run(w, steps[..|steps| - 1]), steps[|steps| - 1])
  }

  lemma StepKeepsTable(w: World, step: Step)
    requires UniqueKeys(w.rows) && OneCurrent(w.rows)
    ensures var after := Next(w, step);
            && UniqueKeys(after.rows) && OneCurrent(after.rows)
            && Preserves(w.rows, after.rows) && w.clock <= after.clock
  {
    match step
    case CreateWrites =>
      if w.creating.Some? && CreateRows(w.rows, w.creating.value.draft, w.creating.value.now).Ok? {
        CreateKeepsTable(w.rows, w.creating.value.draft, w.creating.value.now);
      }
    case RemoveWrites(i) =>
      if i < |w.pending| {
        RemoveKeepsTable(w.rows, w.pending[i].key, w.pending[i].actor, w.pending[i].reason, w.pending[i].now);
      }
    case _ =>
  }

  /** In every interleaving at most one row per tuple is current, primary keys
      stay unique, no row is deleted and no closed row changes again. */
  lemma {:induction false} EveryInterleavingKeepsTable(w: World, steps: seq<Step>)
    requires UniqueKeys(w.rows) && OneCurrent(w.rows)
    ensures var after := Run(w, steps);
            && UniqueKeys(after.rows) && OneCurrent(after.rows) && Preserves(w.rows, after.rows)
  {
    if steps != [] {
      var before := steps[..|steps| - 1];
      EveryInterleavingKeepsTable(w, before);
      StepKeepsTable(Run(w, before), steps[|steps| - 1]);
      PreservesTransitive(w.rows, Run(w, before).rows, Run(w, steps).rows);
    }
  }

  /** A Create that fails leaves the whole table as it was: exactly when its input is
      rejected or its (tuple, valid_from) is already a key when it commits. */
  lemma FailedCreateChangesNothing(w: World, p: PendingCreate)
    requires w.creating == Some(p)
    ensures var validFrom := if p.draft.validFrom.Some? then p.draft.validFrom.value else p.now;
            && (CreateRows(w.rows, p.draft, p.now).Err?
                <==> DraftError(p.draft).Some? || HasKey(w.rows, DraftTuple(p.draft), validFrom))
            && (CreateRows(w.rows, p.draft, p.now).Err? ==> Next(w, CreateWrites) == w.(creating := None))
    ensures forall d :: Next(w, CreateReads(d)).rows == w.rows
  {
  }

  // ---- What createMu gives --------------------------------------------------

  /** Until it commits, the Create that holds the lock keeps it, with the stamp it read. */
  lemma {:induction false} HolderKeepsLock(w: World, steps: seq<Step>)
    requires w.creating.Some? && forall i :: 0 <= i < |steps| ==> !steps[i].CreateWrites?
    ensures Run(w, steps).creating == w.creating
  {
    if steps != [] {
      HolderKeepsLock(w, steps[..|steps| - 1]);
    }
  }

  /** Creates with the default ValidFrom, and no Remove. */
  predicate CreatesOnly(steps: seq<Step>) {
    forall i :: 0 <= i < |steps| ==>
      !steps[i].RemoveReads? && (steps[i].CreateReads? ==> steps[i].draft.validFrom.None?)
  }

  /** The table is that of the operations, and none of them is later than the stamp of
      the Create under way. */
  ghost predicate Replays(w: World, ops: seq<EdgeHistory.Op>) {
    && w.rows == EdgeHistory.Replay(ops) && EdgeHistory.NonDecreasing(ops) && w.pending == []
    && (forall i :: 0 <= i < |ops| ==> ops[i].now <= w.clock)
    && (w.creating.Some? ==>
          && w.creating.value.now <= w.clock && w.creating.value.draft.validFrom.None?
          && forall i :: 0 <= i < |ops| ==> ops[i].now <= w.creating.value.now)
  }

  lemma CommitReplays(w: World, ops: seq<EdgeHistory.Op>)
    requires Replays(w, ops) && w.creating.Some?
    ensures Replays(Next(w, CreateWrites),
                    ops + [EdgeHistory.CreateOp(w.creating.value.draft, w.creating.value.now)])
  {
    var p := w.creating.value;
    var more := ops + [EdgeHistory.CreateOp(p.draft, p.now)];
    assert more[..|more| - 1] == ops && p.draft.(validFrom := None) == p.draft;
  }

  /** Under the lock interleaved Creates happen one after another in the order of their
      stamps: the table is one a run of whole operations builds. */
  lemma {:induction false} CreatesAreSerial(w: World, steps: seq<Step>) returns (ops: seq<EdgeHistory.Op>)
    requires w.rows == [] && w.pending == [] && w.creating.None? && CreatesOnly(steps)
    ensures Replays(Run(w, steps), ops)
  {
    if steps == [] {
      ops := [];
    } else {
      var before, step := steps[..|steps| - 1], steps[|steps| - 1];
      ops := CreatesAreSerial(w, before);
      var mid := Run(w, before);
      if step.CreateWrites? && mid.creating.Some? {
        CommitReplays(mid, ops);
        ops := ops + [EdgeHistory.CreateOp(mid.creating.value.draft, mid.creating.value.now)];
      }
    }
  }

  // ---- When intervals stay ordered ----------------------------------------

  /** Every closed row ends no earlier than it starts. */
  ghost predicate Ordered(rows: seq<Edge>) {
    forall i :: 0 <= i < |rows| && rows[i].validTo.Some? ==> rows[i].validFrom <= rows[i].validTo.value
  }

  /** Every current row of the tuple began by the stamp. */
  ghost predicate BegunBy(rows: seq<Edge>, key: Tuple, stamp: Stamp) {
    forall i :: 0 <= i < |rows| && TupleOf(rows[i]) == key && Current(rows[i]) ==> rows[i].validFrom <= stamp
  }

  /** The late UPDATE of a Remove keeps every interval well ordered exactly when no
      current row of its tuple began after the clock reading it carries. */
  lemma LateRemoveKeepsOrderIff(rows: seq<Edge>, p: PendingRemove)
    requires Ordered(rows)
    ensures Ordered(RemoveRows(rows, p.key, p.actor, p.reason, p.now)) <==> BegunBy(rows, p.key, p.now)
  {
    var after := RemoveRows(rows, p.key, p.actor, p.reason, p.now);
    assert forall i :: 0 <= i < |rows| && TupleOf(rows[i]) == p.key && Current(rows[i])
                       ==> after[i].validTo == Some(p.now);
  }

  /** So does the UPDATE inside a Create, exactly when no current row of its tuple
      begins after its clock reading: an explicit ValidFrom may lie in the future. */
  lemma CreateKeepsOrderIff(rows: seq<Edge>, d: Draft, now: Stamp)
    requires Ordered(rows) && CreateRows(rows, d, now).Ok?
    ensures Ordered(CreateRows(rows, d, now).value) <==> BegunBy(rows, DraftTuple(d), now)
  {
    var after := CreateRows(rows, d, now).value;
    assert forall i :: 0 <= i < |rows| && TupleOf(rows[i]) == DraftTuple(d) && Current(rows[i])
                       ==> after[i].validTo == Some(now);
  }

  /** The step closes no row that began after the stamp it writes. */
  ghost predicate ClosesInOrder(w: World, step: Step) {
    match step
    case CreateWrites =>
      w.creating.Some? ==>
        var p := w.creating.value;
        CreateRows(w.rows, p.draft, p.now).Ok? ==> BegunBy(w.rows, DraftTuple(p.draft), p.now)
    case RemoveWrites(i) => i < |w.pending| ==> BegunBy(w.rows, w.pending[i].key, w.pending[i].now)
    case _ => true
  }

  lemma StepKeepsOrderIff(w: World, step: Step)
    ensures Ordered(w.rows) ==> (Ordered(Next(w, step).rows) <==> ClosesInOrder(w, step))
    ensures !Ordered(w.rows) ==> !Ordered(Next(w, step).rows)
  {
    var after := Next(w, step).rows;
    if !Ordered(w.rows) {
      var k :| 0 <= k < |w.rows| && w.rows[k].validTo.Some? && w.rows[k].validTo.value < w.rows[k].validFrom;
      assert after[k] == w.rows[k];
    } else {
      match step
      case CreateWrites =>
        if w.creating.Some? && CreateRows(w.rows, w.creating.value.draft, w.creating.value.now).Ok? {
          CreateKeepsOrderIff(w.rows, w.creating.value.draft, w.creating.value.now);
        }
      case RemoveWrites(i) =>
        if i < |w.pending| {
          LateRemoveKeepsOrderIff(w.rows, w.pending[i]);
        }
      case _ =>
    }
  }

  /** No step of the run closes a row that began after the stamp it writes. */
  ghost predicate RunClosesInOrder(w: World, steps: seq<Step>) {
    steps == [] ||
    var before := steps[..|steps| - 1];
    RunClosesInOrder(w, before) && ClosesInOrder(Run(w, before), steps[|steps| - 1])
  }

  /** A whole run keeps every interval ordered exactly when none of its steps closes
      a current row that began after the stamp the step writes; an interval once
      inverted stays so. */
  lemma {:induction false} RunKeepsOrderIff(w: World, steps: seq<Step>)
    requires Ordered(w.rows)
    ensures Ordered(Run(w, steps).rows) <==> RunClosesInOrder(w, steps)
  {
    if steps != [] {
      var before := steps[..|steps| - 1];
      RunKeepsOrderIff(w, before);
      StepKeepsOrderIff(Run(w, before), steps[|steps| - 1]);
    }
  }

  // ---- When versions stay disjoint ------------------------------------------

  predicate Empty(e: Edge) {
    e.validTo.Some? && e.validTo.value <= e.validFrom
  }

  /** The row is over when the stamp comes, or never was valid. */
  predicate EndsBy(e: Edge, stamp: Stamp) {
    Empty(e) || (e.validTo.Some? && e.validTo.value <= stamp)
  }

  predicate Apart(e: Edge, f: Edge) {
    Empty(f) || EndsBy(e, f.validFrom) || EndsBy(f, e.validFrom)
  }

  /** At no time are both rows valid. */
  lemma ApartIff(e: Edge, f: Edge)
    ensures Apart(e, f) <==> forall t: Stamp :: !(ValidAt(e, t) && ValidAt(f, t))
  {
    var later := if e.validFrom < f.validFrom then f.validFrom else e.validFrom;
    assert !Apart(e, f) ==> ValidAt(e, later) && ValidAt(f, later);
  }

  /** No two versions of a tuple are valid at one time. */
  ghost predicate DisjointRows(rows: seq<Edge>) {
    forall i, j :: 0 <= i < j < |rows| && TupleOf(rows[i]) == TupleOf(rows[j]) ==> Apart(rows[i], rows[j])
  }

  /** Every version of the tuple, once the current one is closed, is over by then. */
  ghost predicate AllEndBy(rows: seq<Edge>, key: Tuple, now: Stamp, stamp: Stamp) {
    forall i :: 0 <= i < |rows| && TupleOf(rows[i]) == key ==> EndsBy(CloseRow(rows[i], key, now), stamp)
  }

  function Start(d: Draft, now: Stamp): Stamp {
    if d.validFrom.Some? then d.validFrom.value else now
  }

  lemma CreateKeepsDisjointIff(rows: seq<Edge>, d: Draft, now: Stamp)
    requires DisjointRows(rows) && CreateRows(rows, d, now).Ok?
    ensures DisjointRows(CreateRows(rows, d, now).value) <==> AllEndBy(rows, DraftTuple(d), now, Start(d, now))
  {
    var after, n := CreateRows(rows, d, now).value, |rows|;
    assert after[n] == NewRow(d, Start(d, now), None, now);
    forall i | 0 <= i < n
      ensures after[i] == CloseRow(rows[i], DraftTuple(d), now)
      ensures TupleOf(rows[i]) == DraftTuple(d) ==> (Apart(after[i], after[n]) <==> EndsBy(after[i], Start(d, now)))
    {
    }
    forall i, j | 0 <= i < j < n && TupleOf(rows[i]) == TupleOf(rows[j])
      ensures Apart(after[i], after[j])
    {
      assert Apart(rows[i], rows[j]);
    }
  }

  lemma RemoveKeepsDisjoint(rows: seq<Edge>, p: PendingRemove)
    requires DisjointRows(rows)
    ensures DisjointRows(RemoveRows(rows, p.key, p.actor, p.reason, p.now))
  {
  }

  /** The step commits no Create whose row begins before a version of it is over. */
  ghost predicate InsertsApart(w: World, step: Step) {
    step.CreateWrites? && w.creating.Some? ==>
      var p := w.creating.value;
      CreateRows(w.rows, p.draft, p.now).Ok? ==> AllEndBy(w.rows, DraftTuple(p.draft), p.now, Start(p.draft, p.now))
  }

  lemma StepKeepsDisjointIff(w: World, step: Step)
    requires DisjointRows(w.rows)
    ensures DisjointRows(Next(w, step).rows) <==> InsertsApart(w, step)
  {
    match step
    case CreateWrites =>
      if w.creating.Some? && CreateRows(w.rows, w.creating.value.draft, w.creating.value.now).Ok? {
        CreateKeepsDisjointIff(w.rows, w.creating.value.draft, w.creating.value.now);
      }
    case RemoveWrites(i) =>
      if i < |w.pending| {
        RemoveKeepsDisjoint(w.rows, w.pending[i]);
      }
    case _ =>
  }

  ghost predicate RunInsertsApart(w: World, steps: seq<Step>) {
    steps == [] ||
    var before := steps[..|steps| - 1];
    RunInsertsApart(w, before) && InsertsApart(Run(w, before), steps[|steps| - 1])
  }

  /** The versions of every tuple are disjoint at every point of a run exactly when no
      Create of it commits a row that begins before an earlier version is over. */
  lemma {:induction false} RunKeepsDisjointIff(w: World, steps: seq<Step>)
    requires DisjointRows(w.rows)
    ensures (forall k :: 0 <= k <= |steps| ==> DisjointRows(Run(w, steps[..k]).rows)) <==> RunInsertsApart(w, steps)
  {
    assert steps[..|steps|] == steps;
    if steps != [] {
      var before := steps[..|steps| - 1];
      RunKeepsDisjointIff(w, before);
      assert forall k :: 0 <= k <= |before| ==> before[..k] == steps[..k];
      assert before[..|before|] == before;
      if DisjointRows(Run(w, before).rows) {
        StepKeepsDisjointIff(Run(w, before), steps[|steps| - 1]);
      }
    }
  }

  lemma RunSnoc(w: World, steps: seq<Step>, step: Step)
    ensures Run(w, steps + [step]) == Next(Run(w, steps), step)
  {
  }

  /** Both halves of a Create that meets no other writer. */
  lemma WholeCreate(w: World, before: World, steps: seq<Step>, d: Draft)
    requires before == Run(w, steps) && before.creating.None? && DraftError(d).None?
    ensures Run(w, steps + [CreateReads(d)] + [CreateWrites])
         == before.(rows := var r := CreateRows(before.rows, d, before.clock); if r.Ok? then r.value else before.rows)
  {
    RunSnoc(w, steps, CreateReads(d));
    RunSnoc(w, steps + [CreateReads(d)], CreateWrites);
  }

  lemma CreateThenLateRemove(d: Draft, now: Stamp)
    requires DraftError(d).None? && d.validFrom.None?
    ensures CreateRows([], d, now + 1) == Ok([NewRow(d, now + 1, None, now + 1)])
    ensures RemoveRows([NewRow(d, now + 1, None, now + 1)], DraftTuple(d), "", "", now)[0].validTo == Some(now)
  {
    assert CloseRows([], DraftTuple(d), now + 1) == [];
    assert [] + [NewRow(d, now + 1, None, now + 1)] == [NewRow(d, now + 1, None, now + 1)];
  }

  /** A run that inverts an interval, for any edge: a Remove reads the clock, a Create
      opens the edge one tick later, and the Remove then closes that new row. */
  lemma SplitRemoveInvertsInterval(d: Draft, now: Stamp) returns (steps: seq<Step>)
    requires DraftError(d).None? && d.validFrom.None?
    ensures steps == [RemoveReads(DraftTuple(d), "", ""), Tick(1), CreateReads(d), CreateWrites, RemoveWrites(0)]
    ensures var after := Run(World([], now, [], None), steps);
            && |after.rows| == 1 && after.rows[0].validFrom == now + 1 && after.rows[0].validTo == Some(now)
            && after.pending == [] && after.creating == None
  {
    var w, read := World([], now, [], None), RemoveReads(DraftTuple(d), "", "");
    var late := PendingRemove(DraftTuple(d), "", "", now);
    var before := World([], now + 1, [late], None);
    var created := before.(rows := [NewRow(d, now + 1, None, now + 1)]);
    CreateThenLateRemove(d, now);
    RunSnoc(w, [], read);
    RunSnoc(w, [] + [read], Tick(1));
    assert Run(w, [] + [read] + [Tick(1)]) == before;
    var made := [] + [read] + [Tick(1)] + [CreateReads(d)] + [CreateWrites];
    WholeCreate(w, before, [] + [read] + [Tick(1)], d);
    RemoveLate(w, created, made, late);
    steps := made + [RemoveWrites(0)];
  }

  lemma RemoveLate(w: World, before: World, steps: seq<Step>, p: PendingRemove)
    requires before == Run(w, steps) && before.pending == [p]
    ensures Run(w, steps + [RemoveWrites(0)]).rows == RemoveRows(before.rows, p.key, p.actor, p.reason, p.now)
    ensures Run(w, steps + [RemoveWrites(0)]).creating == before.creating
    ensures Run(w, steps + [RemoveWrites(0)]).pending == []
  {
    RunSnoc(w, steps, RemoveWrites(0));
  }

  lemma CreateOnEmpty(d: Draft, now: Stamp)
    requires DraftError(d).None? && d.validFrom.Some? && now != d.validFrom.value
    ensures var first := NewRow(d, d.validFrom.value, None, now);
            && CreateRows([], d, now) == Ok([first])
            && CreateRows([first], d.(validFrom := None), now)
               == Ok([first.(validTo := Some(now)), NewRow(d.(validFrom := None), now, None, now)])
  {
    var first := NewRow(d, d.validFrom.value, None, now);
    assert CloseRows([], DraftTuple(d), now) == [] && [] + [first] == [first];
    var closed := first.(validTo := Some(now));
    assert CloseRows([first], DraftTuple(d), now) == [closed];
    var second := NewRow(d.(validFrom := None), now, None, now);
    assert [closed] + [second] == [closed, second];
  }

  /** A run that inverts one without any Remove: a Create dates its row in the
      future, and the next Create of the tuple closes it now. */
  lemma FutureCreateInvertsInterval(d: Draft, now: Stamp) returns (steps: seq<Step>)
    requires DraftError(d).None? && d.validFrom.Some? && now < d.validFrom.value
    ensures steps == [CreateReads(d), CreateWrites, CreateReads(d.(validFrom := None)), CreateWrites]
    ensures var after := Run(World([], now, [], None), steps);
            |after.rows| == 2 && after.rows[0].validTo == Some(now) && now < after.rows[0].validFrom
  {
    var w, again := World([], now, [], None), d.(validFrom := None);
    var once := [] + [CreateReads(d)] + [CreateWrites];
    CreateOnEmpty(d, now);
    WholeCreate(w, w, [], d);
    WholeCreate(w, w.(rows := [NewRow(d, d.validFrom.value, None, now)]), once, again);
    steps := once + [CreateReads(again)] + [CreateWrites];
  }

  /** A run that makes two versions overlap: a Create reads the clock, and before it
      commits, a Remove closes the current row one tick later. */
  lemma RemoveInsideCreateOverlaps(d: Draft, first: Edge, now: Stamp) returns (steps: seq<Step>)
    requires DraftError(d).None? && d.validFrom.None?
    requires TupleOf(first) == DraftTuple(d) && Current(first) && first.validFrom < now
    ensures steps == [CreateReads(d), Tick(1), RemoveReads(DraftTuple(d), "", ""), RemoveWrites(0), CreateWrites]
    ensures var after := Run(World([first], now, [], None), steps).rows;
            |after| == 2 && TupleOf(after[0]) == TupleOf(after[1]) && ValidAt(after[0], now) && ValidAt(after[1], now)
  {
    var w, remove := World([first], now, [], None), RemoveReads(DraftTuple(d), "", "");
    var held := w.(clock := now + 1, creating := Some(PendingCreate(d, now)));
    var late := PendingRemove(DraftTuple(d), "", "", now + 1);
    var begun := [] + [CreateReads(d)] + [Tick(1)];
    RunSnoc(w, [], CreateReads(d));
    RunSnoc(w, [] + [CreateReads(d)], Tick(1));
    assert Run(w, begun) == held;
    RunSnoc(w, begun, remove);
    var closed := RemoveRows([first], DraftTuple(d), "", "", now + 1);
    RemoveLate(w, held.(pending := [late]), begun + [remove], late);
    var removed := begun + [remove] + [RemoveWrites(0)];
    assert Run(w, removed).rows == closed && Run(w, removed).creating == held.creating;
    RunSnoc(w, removed, CreateWrites);
    assert CloseRows(closed, DraftTuple(d), now) == closed && !HasKey(closed, DraftTuple(d), now);
    steps := removed + [CreateWrites];
  }
}
