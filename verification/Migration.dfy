/** The boot-time migration of the legacy dependency and ownership tables. */
module Migration {
  import opened Common
  import opened Sequences
  import opened EdgeModel
  import EdgeStore

  // ---- The legacy tables; a missing table is an empty one -------------------

  /** product_dependencies and manifest_dependencies: depender, dependee. */
  datatype LegacyDep = LegacyDep(src: string, dst: string, createdAt: Stamp, createdBy: string)

  /** task_dependency carries closed revisions as well. */
  datatype LegacyTaskDep = LegacyTaskDep(src: string, dst: string, validFrom: Option<Stamp>, validTo: Option<Stamp>,
                                         changedBy: string, reason: string)

  /** manifests.project_id of the rows not deleted. */
  datatype LegacyOwner = LegacyOwner(manifestId: string, productId: string, createdAt: Option<Stamp>)

  datatype Legacy = Legacy(products: seq<LegacyDep>, manifests: seq<LegacyDep>, tasks: seq<LegacyTaskDep>,
                           owners: seq<LegacyOwner>)

  /** One row to copy: skipped outright, or inserted unless its probe finds it -
      the current edge of its tuple, or for task rows its exact primary key. */
  datatype Pending = Pending(draft: Draft, skip: bool, byKey: bool)

  function DepPending(kind: string, reason: string): LegacyDep -> Pending {
    (l: LegacyDep) => Pending(
      Draft(kind, l.src, kind, l.dst, DEPENDS_ON, "", Some(l.createdAt), None, l.createdBy, reason),
      l.src == "" || l.dst == "" || l.src == l.dst, false)
  }

  function TaskPending(l: LegacyTaskDep): Pending {
    Pending(
      Draft("task", l.src, "task", l.dst, DEPENDS_ON, "", l.validFrom, l.validTo, l.changedBy,
            if l.reason != "" then l.reason else "backfill from legacy task_dependency table"),
      l.src == "" || l.dst == "" || l.src == l.dst, true)
  }

  function OwnerPending(now: Stamp): LegacyOwner -> Pending {
    (l: LegacyOwner) => Pending(
      Draft("product", l.productId, "manifest", l.manifestId, OWNS, "",
            Some(if l.createdAt.Some? then l.createdAt.value else now), None, "system",
            "backfill from manifests.project_id"),
      l.manifestId == "" || l.productId == "", false)
  }

  function Deps(l: Legacy): seq<Pending> {
    MapSeq(l.products, DepPending("product", "backfill from legacy product_dependencies table")) +
    MapSeq(l.manifests, DepPending("manifest", "backfill from legacy manifest_dependencies table"))
  }

  function Tasks(l: Legacy): seq<Pending> {
    MapSeq(l.tasks, TaskPending)
  }

  function Owners(l: Legacy, now: Stamp): seq<Pending> {
    MapSeq(l.owners, OwnerPending(now))
  }

  function AllPending(l: Legacy, now: Stamp): seq<Pending> {
    Deps(l) + Tasks(l) + Owners(l, now)
  }

  // ---- The copying loop -----------------------------------------------------

  datatype Outcome = Outcome(rows: seq<Edge>, inserted: nat, error: Option<EdgeError>)

  predicate Probe(rows: seq<Edge>, p: Pending) {
    if p.byKey then p.draft.validFrom.Some? && HasKey(rows, DraftTuple(p.draft), p.draft.validFrom.value)
    else HasCurrent(rows, DraftTuple(p.draft))
  }

  function CopyOne(o: Outcome, p: Pending, now: Stamp): Outcome {
    if o.error.Some? || p.skip || Probe(o.rows, p) then o else
      match BackfillRows(o.rows, p.draft, now)
      case Err(e) => o.(error := Some(e))
      case Ok(rows) => Outcome(rows, o.inserted + 1, None)
  }

  /** The first error stops the copying; what was inserted before it stays. */
  function Copy(o: Outcome, ps: seq<Pending>, now: Stamp): Outcome {
    if ps == [] then o else CopyOne(Copy(o, ps[..|ps| - 1], now), ps[|ps| - 1], now)
  }

  function Migrate(rows: seq<Edge>, l: Legacy, now: Stamp): Outcome {
    Copy(Copy(Copy(Outcome(rows, 0, None), Deps(l), now), Tasks(l), now), Owners(l, now), now)
  }

  // ---- What copying keeps ---------------------------------------------------

  /** after is before with rows appended, each the image of a pending row. */
  ghost predicate Extends(before: seq<Edge>, after: seq<Edge>, ps: seq<Pending>, now: Stamp) {
    && before <= after
    && forall i :: |before| <= i < |after| ==> IsImageOfSome(after[i], ps, now)
  }

  ghost predicate IsImageOfSome(e: Edge, ps: seq<Pending>, now: Stamp) {
    exists k :: 0 <= k < |ps| && IsImage(e, ps[k], now)
  }

  ghost predicate IsImage(e: Edge, p: Pending, now: Stamp) {
    !p.skip && p.draft.validFrom.Some? && e == NewRow(p.draft, p.draft.validFrom.value, p.draft.validTo, now)
  }

  /** A probe that found its row finds it in every longer table. */
  lemma ProbeMonotone(before: seq<Edge>, after: seq<Edge>, p: Pending)
    requires before <= after && Probe(before, p)
    ensures Probe(after, p)
  {
  }

  lemma CopyOneExtends(o: Outcome, p: Pending, now: Stamp)
    requires p.byKey || p.draft.validTo.None?
    ensures var after := CopyOne(o, p, now);
            && Extends(o.rows, after.rows, [p], now)
            && (UniqueKeys(o.rows) ==> UniqueKeys(after.rows))
            && (after.error.None? ==> o.error.None? && (p.skip || Probe(after.rows, p)))
            && after.inserted - o.inserted == |after.rows| - |o.rows|
  {
    var after := CopyOne(o, p, now);
    if o.error.None? && !p.skip && !Probe(o.rows, p) && BackfillRows(o.rows, p.draft, now).Ok? {
      var row := NewRow(p.draft, p.draft.validFrom.value, p.draft.validTo, now);
      assert after.rows == o.rows + [row];
      assert after.rows[|o.rows|] == row;
      assert [p][0] == p && IsImage(row, p, now);
      assert TupleOf(row) == DraftTuple(p.draft);
    } else {
      assert after.rows == o.rows;
    }
  }

  ghost predicate WellTyped(ps: seq<Pending>) {
    forall i :: 0 <= i < |ps| ==> ps[i].byKey || ps[i].draft.validTo.None?
  }

  ghost predicate AllProbed(rows: seq<Edge>, ps: seq<Pending>) {
    forall i :: 0 <= i < |ps| ==> ps[i].skip || Probe(rows, ps[i])
  }

  /** Copying only appends images of pending rows, keeps primary keys unique, and
      when it succeeds every pending row was skipped or is found. */
  lemma {:induction false} CopyExtends(o: Outcome, ps: seq<Pending>, now: Stamp)
    requires WellTyped(ps)
    ensures var after := Copy(o, ps, now);
            && Extends(o.rows, after.rows, ps, now)
            && (UniqueKeys(o.rows) ==> UniqueKeys(after.rows))
            && (after.error.None? ==> o.error.None? && AllProbed(after.rows, ps))
            && after.inserted - o.inserted == |after.rows| - |o.rows|
  {
    if ps != [] {
      var before, p := ps[..|ps| - 1], ps[|ps| - 1];
      CopyExtends(o, before, now);
      var mid, after := Copy(o, before, now), Copy(o, ps, now);
      CopyOneExtends(mid, p, now);
      forall i | |o.rows| <= i < |after.rows|
        ensures IsImageOfSome(after.rows[i], ps, now)
      {
        if i < |mid.rows| {
          var k :| 0 <= k < |before| && IsImage(mid.rows[i], before[k], now);
          assert ps[k] == before[k];
        } else {
          assert IsImage(after.rows[i], ps[|ps| - 1], now);
        }
      }
      assert ps == before + [p];
      if after.error.None? {
        forall i | 0 <= i < |before| && !before[i].skip
          ensures Probe(after.rows, before[i])
        {
          ProbeMonotone(mid.rows, after.rows, before[i]);
        }
      }
    }
  }

  /** Copying rows that are all skipped or found does nothing. */
  lemma {:induction false} CopyOfProbed(o: Outcome, ps: seq<Pending>, now: Stamp)
    requires AllProbed(o.rows, ps)
    ensures Copy(o, ps, now) == o
  {
    if ps != [] {
      CopyOfProbed(o, ps[..|ps| - 1], now);
    }
  }

  lemma AllProbedMonotone(before: seq<Edge>, after: seq<Edge>, ps: seq<Pending>)
    requires before <= after && AllProbed(before, ps)
    ensures AllProbed(after, ps)
  {
  }

  // ---- The whole migration --------------------------------------------------

  lemma MigrateProbesAll(rows: seq<Edge>, l: Legacy, now: Stamp)
    ensures var after := Migrate(rows, l, now);
            && rows <= after.rows && (UniqueKeys(rows) ==> UniqueKeys(after.rows))
            && after.inserted == |after.rows| - |rows|
            && (after.error.None? ==>
                  && AllProbed(after.rows, Deps(l)) && AllProbed(after.rows, Tasks(l))
                  && AllProbed(after.rows, Owners(l, now)))
  {
    var start := Outcome(rows, 0, None);
    var a := Copy(start, Deps(l), now);
    var b := Copy(a, Tasks(l), now);
    var c := Copy(b, Owners(l, now), now);
    CopyExtends(start, Deps(l), now);
    CopyExtends(a, Tasks(l), now);
    CopyExtends(b, Owners(l, now), now);
    if c.error.None? {
      AllProbedMonotone(a.rows, c.rows, Deps(l));
      AllProbedMonotone(b.rows, c.rows, Tasks(l));
    }
  }

  /** Every legacy dependency with non-empty, distinct ends has a row of the same
      direction: a current one for products and manifests, one with its own
      valid_from for tasks. */
  lemma MigrationKeepsDirections(rows: seq<Edge>, l: Legacy, now: Stamp)
    requires Migrate(rows, l, now).error.None?
    ensures var after := Migrate(rows, l, now).rows;
            && (forall d :: (d in l.products || d in l.manifests) && d.src != "" && d.dst != "" && d.src != d.dst
                            ==> HasCurrent(after, Tuple(d.src, d.dst, DEPENDS_ON)))
            && (forall t :: t in l.tasks && t.src != "" && t.dst != "" && t.src != t.dst
                            ==> t.validFrom.Some? && HasKey(after, Tuple(t.src, t.dst, DEPENDS_ON), t.validFrom.value))
            && (forall o :: o in l.owners && o.manifestId != "" && o.productId != ""
                            ==> HasCurrent(after, Tuple(o.productId, o.manifestId, OWNS)))
  {
    MigrateProbesAll(rows, l, now);
    var after := Migrate(rows, l, now).rows;
    forall d | (d in l.products || d in l.manifests) && d.src != "" && d.dst != "" && d.src != d.dst
      ensures HasCurrent(after, Tuple(d.src, d.dst, DEPENDS_ON))
    {
      if d in l.products {
        var i :| 0 <= i < |l.products| && l.products[i] == d;
        assert !Deps(l)[i].skip && Probe(after, Deps(l)[i]);
      } else {
        var i :| 0 <= i < |l.manifests| && l.manifests[i] == d;
        assert !Deps(l)[|l.products| + i].skip && Probe(after, Deps(l)[|l.products| + i]);
      }
    }
    forall t | t in l.tasks && t.src != "" && t.dst != "" && t.src != t.dst
      ensures t.validFrom.Some? && HasKey(after, Tuple(t.src, t.dst, DEPENDS_ON), t.validFrom.value)
    {
      var i :| 0 <= i < |l.tasks| && l.tasks[i] == t;
      assert !Tasks(l)[i].skip && Probe(after, Tasks(l)[i]);
    }
    forall o | o in l.owners && o.manifestId != "" && o.productId != ""
      ensures HasCurrent(after, Tuple(o.productId, o.manifestId, OWNS))
    {
      var i :| 0 <= i < |l.owners| && l.owners[i] == o;
      assert !Owners(l, now)[i].skip && Probe(after, Owners(l, now)[i]);
    }
  }

  /** An immediate second run inserts nothing and cannot fail, at any later time. */
  lemma SecondRunInsertsNothing(rows: seq<Edge>, l: Legacy, now: Stamp, later: Stamp)
    requires Migrate(rows, l, now).error.None?
    ensures var after := Migrate(rows, l, now).rows;
            Migrate(after, l, later) == Outcome(after, 0, None)
  {
    MigrateProbesAll(rows, l, now);
    var after := Outcome(Migrate(rows, l, now).rows, 0, None);
    CopyOfProbed(after, Deps(l), later);
    CopyOfProbed(after, Tasks(l), later);
    forall i | 0 <= i < |l.owners| && !Owners(l, later)[i].skip
      ensures Probe(after.rows, Owners(l, later)[i])
    {
      assert !Owners(l, now)[i].skip && Probe(after.rows, Owners(l, now)[i]);
      assert DraftTuple(Owners(l, later)[i].draft) == DraftTuple(Owners(l, now)[i].draft);
    }
    CopyOfProbed(after, Owners(l, later), later);
  }

  // ---- When it succeeds -----------------------------------------------------

  ghost predicate OpenKind(rows: seq<Edge>, kind: string) {
    forall i :: 0 <= i < |rows| && rows[i].kind == kind ==> Current(rows[i])
  }

  /** Rows probed by their current edge, over a table whose rows of that kind are
      all open. */
  ghost predicate Phase(rows: seq<Edge>, ps: seq<Pending>, kind: string) {
    && OpenKind(rows, kind)
    && forall i :: 0 <= i < |ps| ==> !ps[i].byKey && ps[i].draft.kind == kind && ps[i].draft.validTo.None?
  }

  ghost predicate ByKey(ps: seq<Pending>) {
    forall i :: 0 <= i < |ps| ==> ps[i].byKey
  }

  ghost predicate Sound(ps: seq<Pending>) {
    forall i :: 0 <= i < |ps| ==> ps[i].skip || BackfillError(ps[i].draft).None?
  }

  /** Starting clean, a phase fails only on a row the backfill checks reject: the
      probe rules primary-key collisions out. */
  lemma {:induction false} CopyOfSoundSucceeds(o: Outcome, ps: seq<Pending>, kind: string, now: Stamp)
    requires o.error.None? && Sound(ps) && (ByKey(ps) || Phase(o.rows, ps, kind))
    ensures Copy(o, ps, now).error.None?
    ensures Phase(o.rows, ps, kind) ==> OpenKind(Copy(o, ps, now).rows, kind)
  {
    if ps != [] {
      var before, p := ps[..|ps| - 1], ps[|ps| - 1];
      CopyOfSoundSucceeds(o, before, kind, now);
      var mid := Copy(o, before, now);
      if !p.skip && !Probe(mid.rows, p) {
        assert BackfillError(p.draft).None?;
        assert !HasKey(mid.rows, DraftTuple(p.draft), p.draft.validFrom.value);
      }
    }
  }

  /** From an empty edge table the migration succeeds if every task dependency
      with distinct, non-empty ends has a valid_from and no manifest names itself
      as its product. */
  ghost predicate Migratable(l: Legacy) {
    && (forall t :: t in l.tasks && t.src != "" && t.dst != "" && t.src != t.dst ==> t.validFrom.Some?)
    && (forall o :: o in l.owners && o.manifestId != "" ==> o.manifestId != o.productId)
  }

  lemma PhasesAreSound(l: Legacy, now: Stamp)
    requires Migratable(l)
    ensures Sound(Deps(l)) && Sound(Tasks(l)) && Sound(Owners(l, now))
  {
  }

  /** An owner row is written only after its checks. */
  lemma RowsAreChecked(rows: seq<Edge>, l: Legacy, now: Stamp)
    requires (forall i :: 0 <= i < |rows| ==> rows[i].srcId != rows[i].dstId) && Migrate(rows, l, now).error.None?
    ensures forall i :: 0 <= i < |Migrate(rows, l, now).rows| ==>
              Migrate(rows, l, now).rows[i].srcId != Migrate(rows, l, now).rows[i].dstId
  {
    var start := Outcome(rows, 0, None);
    CopyChecks(start, Deps(l), now);
    CopyChecks(Copy(start, Deps(l), now), Tasks(l), now);
    CopyChecks(Copy(Copy(start, Deps(l), now), Tasks(l), now), Owners(l, now), now);
  }

  lemma {:induction false} CopyChecks(o: Outcome, ps: seq<Pending>, now: Stamp)
    requires forall i :: 0 <= i < |o.rows| ==> o.rows[i].srcId != o.rows[i].dstId
    ensures forall i :: 0 <= i < |Copy(o, ps, now).rows| ==>
              Copy(o, ps, now).rows[i].srcId != Copy(o, ps, now).rows[i].dstId
  {
    if ps != [] {
      CopyChecks(o, ps[..|ps| - 1], now);
    }
  }

  /** From an empty edge table the migration succeeds exactly on such tables. */
  lemma MigrateSucceedsIff(l: Legacy, now: Stamp)
    ensures Migrate([], l, now).error.None? <==> Migratable(l)
  {
    if Migratable(l) {
      PhasesAreSound(l, now);
      var start := Outcome([], 0, None);
      CopyOfSoundSucceeds(start, Deps(l), DEPENDS_ON, now);
      var a := Copy(start, Deps(l), now);
      CopyOfSoundSucceeds(a, Tasks(l), OWNS, now);
      var b := Copy(a, Tasks(l), now);
      NoOwnsRows(l, now);
      CopyOfSoundSucceeds(b, Owners(l, now), OWNS, now);
    }
    if Migrate([], l, now).error.None? {
      MigrationKeepsDirections([], l, now);
      RowsAreChecked([], l, now);
    }
  }

  lemma NoOwnsRows(l: Legacy, now: Stamp)
    ensures var b := Copy(Copy(Outcome([], 0, None), Deps(l), now), Tasks(l), now);
            forall i :: 0 <= i < |b.rows| ==> b.rows[i].kind == DEPENDS_ON
  {
    var a := Copy(Outcome([], 0, None), Deps(l), now);
    CopyExtends(Outcome([], 0, None), Deps(l), now);
    CopyExtends(a, Tasks(l), now);
  }

  // ---- One current row per tuple --------------------------------------------

  ghost predicate Opens(p: Pending) {
    !p.skip && p.draft.validTo.None?
  }

  /** No task row opens a tuple that an earlier pending row opens. */
  ghost predicate OpensApart(ps: seq<Pending>) {
    forall i, j :: 0 <= i < j < |ps| && Opens(ps[i]) && Opens(ps[j]) && ps[j].byKey
                   ==> DraftTuple(ps[i].draft) != DraftTuple(ps[j].draft)
  }

  lemma {:induction false} CopyKeepsOneCurrent(ps: seq<Pending>, now: Stamp)
    requires WellTyped(ps) && OpensApart(ps)
    ensures OneCurrent(Copy(Outcome([], 0, None), ps, now).rows)
  {
    if ps != [] {
      var before, p := ps[..|ps| - 1], ps[|ps| - 1];
      CopyKeepsOneCurrent(before, now);
      var start := Outcome([], 0, None);
      var mid := Copy(start, before, now).rows;
      CopyExtends(start, before, now);
      if Opens(p) {
        forall i | 0 <= i < |mid| && TupleOf(mid[i]) == DraftTuple(p.draft) && Current(mid[i])
          ensures Probe(mid, p)
        {
          var k :| 0 <= k < |before| && IsImage(mid[i], before[k], now);
          assert ps[k] == before[k] && ps[|ps| - 1] == p;
        }
      }
    }
  }

  lemma {:induction false} CopyConcat(o: Outcome, ps: seq<Pending>, qs: seq<Pending>, now: Stamp)
    ensures Copy(Copy(o, ps, now), qs, now) == Copy(o, ps + qs, now)
  {
    if qs == [] {
      assert ps + qs == ps;
    } else {
      CopyConcat(o, ps, qs[..|qs| - 1], now);
      assert (ps + qs)[..|ps + qs| - 1] == ps + qs[..|qs| - 1];
    }
  }

  /** The four phases are one copy of all pending rows in order. */
  lemma MigrateIsOneCopy(rows: seq<Edge>, l: Legacy, now: Stamp)
    ensures Migrate(rows, l, now) == Copy(Outcome(rows, 0, None), AllPending(l, now), now)
  {
    CopyConcat(Outcome(rows, 0, None), Deps(l), Tasks(l), now);
    CopyConcat(Outcome(rows, 0, None), Deps(l) + Tasks(l), Owners(l, now), now);
  }

  /** Well-formed legacy tables: at most one open revision per task pair, and no
      task pair that is also a product or manifest pair. */
  ghost predicate WellFormed(l: Legacy) {
    && (forall i, j :: 0 <= i < j < |l.tasks| && l.tasks[i].validTo.None? && l.tasks[j].validTo.None?
                       ==> l.tasks[i].src != l.tasks[j].src || l.tasks[i].dst != l.tasks[j].dst)
    && (forall t, d :: t in l.tasks && t.validTo.None? && (d in l.products || d in l.manifests)
                       ==> t.src != d.src || t.dst != d.dst)
  }

  lemma WellFormedOpensApart(l: Legacy, now: Stamp)
    requires WellFormed(l)
    ensures OpensApart(AllPending(l, now))
  {
  }

  /** From an empty table, well-formed legacy tables migrate to at most one
      current row per tuple, under unique primary keys. */
  lemma MigrationKeepsOneCurrent(l: Legacy, now: Stamp)
    requires WellFormed(l)
    ensures OneCurrent(Migrate([], l, now).rows) && UniqueKeys(Migrate([], l, now).rows)
  {
    WellFormedOpensApart(l, now);
    MigrateIsOneCopy([], l, now);
    CopyKeepsOneCurrent(AllPending(l, now), now);
    MigrateProbesAll([], l, now);
  }

  // ---- What the copied rows say ---------------------------------------------

  /** A depends_on row between two entities of one kind, stamped as given. */
  ghost predicate DependencyRow(e: Edge, kind: string, src: string, dst: string, validFrom: Stamp,
                                validTo: Option<Stamp>) {
    && e.kind == "depends_on" && e.srcKind == kind && e.dstKind == kind && e.srcId == src && e.dstId == dst
    && e.validFrom == validFrom && e.validTo == validTo
  }

  ghost predicate FromProducts(e: Edge, l: Legacy) {
    exists d :: d in l.products && DependencyRow(e, "product", d.src, d.dst, d.createdAt, None)
                && e.createdBy == d.createdBy && e.reason == "backfill from legacy product_dependencies table"
  }

  ghost predicate FromManifests(e: Edge, l: Legacy) {
    exists d :: d in l.manifests && DependencyRow(e, "manifest", d.src, d.dst, d.createdAt, None)
                && e.createdBy == d.createdBy && e.reason == "backfill from legacy manifest_dependencies table"
  }

  ghost predicate FromTasks(e: Edge, l: Legacy) {
    exists d :: d in l.tasks && d.validFrom.Some?
                && DependencyRow(e, "task", d.src, d.dst, d.validFrom.value, d.validTo) && e.createdBy == d.changedBy
                && e.reason == if d.reason == "" then "backfill from legacy task_dependency table" else d.reason
  }

  ghost predicate FromOwners(e: Edge, l: Legacy, now: Stamp) {
    exists d :: d in l.owners && e.kind == "owns" && e.srcKind == "product" && e.srcId == d.productId
                && e.dstKind == "manifest" && e.dstId == d.manifestId && e.validTo.None?
                && e.validFrom == (if d.createdAt.None? then now else d.createdAt.value)
                && e.createdBy == "system" && e.reason == "backfill from manifests.project_id"
  }

  lemma TaskImage(e: Edge, d: LegacyTaskDep, l: Legacy, now: Stamp)
    requires d in l.tasks && IsImage(e, TaskPending(d), now)
    ensures FromTasks(e, l) && e.createdAt == now && e.metadata == "" && e.srcId != "" && e.dstId != ""
  {
  }

  lemma OwnerImage(e: Edge, d: LegacyOwner, l: Legacy, now: Stamp)
    requires d in l.owners && IsImage(e, OwnerPending(now)(d), now)
    ensures FromOwners(e, l, now) && e.createdAt == now && e.metadata == "" && e.srcId != "" && e.dstId != ""
  {
  }

  lemma DepImage(e: Edge, k: nat, l: Legacy, now: Stamp)
    requires k < |Deps(l)| && IsImage(e, Deps(l)[k], now)
    ensures FromProducts(e, l) || FromManifests(e, l)
    ensures e.createdAt == now && e.metadata == "" && e.srcId != "" && e.dstId != ""
  {
    if k < |l.products| {
      assert l.products[k] in l.products;
    } else {
      assert l.manifests[k - |l.products|] in l.manifests;
    }
  }

  lemma AddedIsImage(rows: seq<Edge>, l: Legacy, now: Stamp, i: nat) returns (k: nat)
    requires |rows| <= i < |Migrate(rows, l, now).rows|
    ensures k < |AllPending(l, now)| && IsImage(Migrate(rows, l, now).rows[i], AllPending(l, now)[k], now)
  {
    var e, ps := Migrate(rows, l, now).rows[i], AllPending(l, now);
    MigrateIsOneCopy(rows, l, now);
    PendingShape(l, now);
    CopyExtends(Outcome(rows, 0, None), ps, now);
    assert IsImageOfSome(e, ps, now);
    k :| 0 <= k < |ps| && IsImage(e, ps[k], now);
  }

  /** Every row the migration adds is one of the legacy tables', field by field. */
  lemma MigratedRowsInFields(rows: seq<Edge>, l: Legacy, now: Stamp, i: nat)
    requires |rows| <= i < |Migrate(rows, l, now).rows|
    ensures var e := Migrate(rows, l, now).rows[i];
            && e.createdAt == now && e.metadata == "" && e.srcId != "" && e.dstId != ""
            && (FromProducts(e, l) || FromManifests(e, l) || FromTasks(e, l) || FromOwners(e, l, now))
  {
    var e, ps := Migrate(rows, l, now).rows[i], AllPending(l, now);
    var k := AddedIsImage(rows, l, now, i);
    var m, n := |Deps(l)|, |Tasks(l)|;
    if k < m {
      assert ps[k] == Deps(l)[k];
      DepImage(e, k, l, now);
    } else if k < m + n {
      assert ps[k] == Tasks(l)[k - m] && l.tasks[k - m] in l.tasks;
      TaskImage(e, l.tasks[k - m], l, now);
    } else {
      assert ps[k] == Owners(l, now)[k - m - n] && l.owners[k - m - n] in l.owners;
      OwnerImage(e, l.owners[k - m - n], l, now);
    }
  }

  // ---- Exactly when ---------------------------------------------------------

  predicate SameTuple(p: Pending, q: Pending) {
    !p.skip && !q.skip && DraftTuple(p.draft) == DraftTuple(q.draft)
  }

  /** The first row of its tuple. */
  predicate First(ps: seq<Pending>, k: nat)
    requires k < |ps|
  {
    !ps[k].skip && forall i :: 0 <= i < k ==> !SameTuple(ps[i], ps[k])
  }

  /** A task row is new unless an earlier one has its valid_from too, an earlier
      task row or the first row of the pair; any other row if it is the first. */
  predicate Fresh(ps: seq<Pending>, k: nat)
    requires k < |ps|
  {
    if !ps[k].byKey then First(ps, k)
    else !ps[k].skip && forall i :: 0 <= i < k && SameTuple(ps[i], ps[k])
                                    && ps[i].draft.validFrom == ps[k].draft.validFrom
                                    ==> !ps[i].byKey && !First(ps, i)
  }

  /** Only task rows repeat a tuple of task rows. */
  ghost predicate KeyedLast(ps: seq<Pending>) {
    forall i, j :: 0 <= i < j < |ps| && SameTuple(ps[i], ps[j]) && ps[i].byKey ==> ps[j].byKey
  }

  ghost predicate HasImage(rows: seq<Edge>, p: Pending, now: Stamp) {
    exists i :: 0 <= i < |rows| && IsImage(rows[i], p, now)
  }

  ghost predicate FreshImage(e: Edge, ps: seq<Pending>, now: Stamp) {
    exists k :: 0 <= k < |ps| && Fresh(ps, k) && IsImage(e, ps[k], now)
  }

  /** rows holds the images of the fresh rows and nothing else. */
  ghost predicate FreshOnly(rows: seq<Edge>, ps: seq<Pending>, now: Stamp) {
    && (forall i :: 0 <= i < |rows| ==> FreshImage(rows[i], ps, now))
    && (forall k :: 0 <= k < |ps| && Fresh(ps, k) ==> HasImage(rows, ps[k], now))
  }

  /** Only earlier rows decide whether a row is new. */
  lemma FreshOfPrefix(ps: seq<Pending>, n: nat, k: nat)
    requires k < n <= |ps|
    ensures Fresh(ps[..n], k) == Fresh(ps, k) && First(ps[..n], k) == First(ps, k)
  {
  }

  lemma ProbedIsNotFresh(mid: seq<Edge>, ps: seq<Pending>, now: Stamp)
    requires ps != [] && FreshOnly(mid, ps[..|ps| - 1], now) && Probe(mid, ps[|ps| - 1]) && !ps[|ps| - 1].skip
    ensures !Fresh(ps, |ps| - 1)
  {
  }

  lemma NotFreshIsProbed(mid: seq<Edge>, ps: seq<Pending>, now: Stamp)
    requires ps != [] && KeyedLast(ps) && FreshOnly(mid, ps[..|ps| - 1], now) && AllProbed(mid, ps[..|ps| - 1])
    requires !Fresh(ps, |ps| - 1) && !ps[|ps| - 1].skip
    ensures Probe(mid, ps[|ps| - 1])
  {
  }

  lemma FreshOnlySnoc(mid: seq<Edge>, added: seq<Edge>, ps: seq<Pending>, now: Stamp)
    requires ps != [] && FreshOnly(mid, ps[..|ps| - 1], now)
    requires if Fresh(ps, |ps| - 1) then |added| == 1 && IsImage(added[0], ps[|ps| - 1], now) else added == []
    ensures FreshOnly(mid + added, ps, now)
  {
    var last := |ps| - 1;
    var before, after := ps[..last], mid + added;
    forall i | 0 <= i < |after| ensures FreshImage(after[i], ps, now) {
      if i < |mid| {
        assert after[i] == mid[i] && FreshImage(mid[i], before, now);
        var k :| 0 <= k < |before| && Fresh(before, k) && IsImage(mid[i], before[k], now);
        FreshOfPrefix(ps, last, k);
        assert ps[k] == before[k];
      }
    }
    forall k | 0 <= k < |ps| && Fresh(ps, k) ensures HasImage(after, ps[k], now) {
      if k < last {
        FreshOfPrefix(ps, last, k);
        assert ps[k] == before[k] && HasImage(mid, before[k], now);
        var i :| 0 <= i < |mid| && IsImage(mid[i], before[k], now);
        assert after[i] == mid[i];
      } else {
        assert after[|mid|] == added[0];
      }
    }
  }

  lemma {:induction false} CopyLandsFresh(ps: seq<Pending>, now: Stamp)
    requires WellTyped(ps) && KeyedLast(ps) && Copy(Outcome([], 0, None), ps, now).error.None?
    ensures FreshOnly(Copy(Outcome([], 0, None), ps, now).rows, ps, now)
  {
    if ps != [] {
      var start, before, p := Outcome([], 0, None), ps[..|ps| - 1], ps[|ps| - 1];
      var mid := Copy(start, before, now);
      var after := CopyOne(mid, p, now);
      CopyLandsFresh(before, now);
      CopyExtends(start, before, now);
      if !p.skip {
        if Probe(mid.rows, p) {
          ProbedIsNotFresh(mid.rows, ps, now);
        } else if !Fresh(ps, |ps| - 1) {
          NotFreshIsProbed(mid.rows, ps, now);
        }
      }
      FreshOnlySnoc(mid.rows, after.rows[|mid.rows|..], ps, now);
      assert after.rows == mid.rows + after.rows[|mid.rows|..];
    }
  }

  /** Two fresh rows that open one tuple. */
  ghost predicate Clash(ps: seq<Pending>, i: nat, j: nat)
    requires i < j < |ps|
  {
    Fresh(ps, i) && Fresh(ps, j) && Opens(ps[i]) && Opens(ps[j]) && SameTuple(ps[i], ps[j])
  }

  ghost predicate NoClash(ps: seq<Pending>) {
    forall i, j :: 0 <= i < j < |ps| ==> !Clash(ps, i, j)
  }

  lemma TwoCurrentClash(rows: seq<Edge>, ps: seq<Pending>, now: Stamp)
    requires FreshOnly(rows, ps, now) && UniqueKeys(rows) && NoClash(ps)
    ensures OneCurrent(rows)
  {
    forall a, b | 0 <= a < b < |rows| && TupleOf(rows[a]) == TupleOf(rows[b])
      ensures !(Current(rows[a]) && Current(rows[b]))
    {
      assert FreshImage(rows[a], ps, now) && FreshImage(rows[b], ps, now);
      var i :| 0 <= i < |ps| && Fresh(ps, i) && IsImage(rows[a], ps[i], now);
      var j :| 0 <= j < |ps| && Fresh(ps, j) && IsImage(rows[b], ps[j], now);
      assert i != j;
      assert SameTuple(ps[i], ps[j]) && SameTuple(ps[j], ps[i]);
      if Current(rows[a]) && Current(rows[b]) {
        assert Clash(ps, if i < j then i else j, if i < j then j else i);
      }
    }
  }

  lemma ClashLeavesTwoCurrent(rows: seq<Edge>, ps: seq<Pending>, now: Stamp, i: nat, j: nat)
    requires FreshOnly(rows, ps, now) && i < j < |ps| && Clash(ps, i, j)
    ensures !OneCurrent(rows)
  {
  }

  lemma PendingShape(l: Legacy, now: Stamp)
    ensures WellTyped(AllPending(l, now)) && KeyedLast(AllPending(l, now))
  {
  }

  /** A migration that succeeds on an empty table leaves one current row per tuple
      exactly when no two fresh legacy rows open the same tuple. */
  lemma OneCurrentIffNoClash(l: Legacy, now: Stamp)
    requires Migratable(l)
    ensures OneCurrent(Migrate([], l, now).rows) <==> NoClash(AllPending(l, now))
  {
    var ps := AllPending(l, now);
    var rows := Migrate([], l, now).rows;
    MigrateIsOneCopy([], l, now);
    MigrateSucceedsIff(l, now);
    MigrateProbesAll([], l, now);
    PendingShape(l, now);
    CopyLandsFresh(ps, now);
    if NoClash(ps) {
      TwoCurrentClash(rows, ps, now);
    } else {
      var i, j :| 0 <= i < j < |ps| && Clash(ps, i, j);
      ClashLeavesTwoCurrent(rows, ps, now, i, j);
    }
  }

  lemma CopySingle(o: Outcome, p: Pending, now: Stamp)
    ensures Copy(o, [p], now) == CopyOne(o, p, now)
  {
  }

  /** An open pair copied without its key probed by key next: both rows are current. */
  lemma KeyProbeMissesPair(first: Pending, second: Pending, now: Stamp)
    requires SameTuple(first, second) && !first.byKey && second.byKey && Opens(first) && Opens(second)
    requires BackfillError(first.draft).None? && BackfillError(second.draft).None?
    requires first.draft.validFrom != second.draft.validFrom
    ensures !OneCurrent(CopyOne(CopyOne(Outcome([], 0, None), first, now), second, now).rows)
  {
    var row := NewRow(first.draft, first.draft.validFrom.value, None, now);
    var a := CopyOne(Outcome([], 0, None), first, now);
    assert !HasKey([], DraftTuple(first.draft), row.validFrom) && a == Outcome([row], 1, None);
    assert !HasKey(a.rows, DraftTuple(second.draft), second.draft.validFrom.value);
    var b := CopyOne(a, second, now).rows;
    assert b == [row] + [NewRow(second.draft, second.draft.validFrom.value, None, now)];
    assert TupleOf(b[0]) == TupleOf(b[1]) && Current(b[0]) && Current(b[1]);
  }

  /** Why task pairs must be apart from the others: the task phase probes by exact
      valid_from, so an open pair present in two tables ends with two current rows. */
  lemma SharedPairBreaksOneCurrent(now: Stamp) returns (l: Legacy)
    ensures l.tasks == [LegacyTaskDep("a", "b", Some(2), None, "", "")] && Migratable(l)
    ensures !OneCurrent(Migrate([], l, now).rows)
  {
    l := Legacy([LegacyDep("a", "b", 1, "")], [], [LegacyTaskDep("a", "b", Some(2), None, "", "")], []);
    var start, first, second := Outcome([], 0, None), Deps(l)[0], TaskPending(l.tasks[0]);
    assert Deps(l) == [first] && Tasks(l) == [second] && Owners(l, now) == [];
    CopySingle(start, first, now);
    CopySingle(CopyOne(start, first, now), second, now);
    KeyProbeMissesPair(first, second, now);
  }

  // ---- The migration in place -----------------------------------------------

  lemma {:induction false} CopyStopsAtError(o: Outcome, ps: seq<Pending>, n: nat, now: Stamp)
    requires n <= |ps| && Copy(o, ps[..n], now).error.Some?
    ensures Copy(o, ps, now) == Copy(o, ps[..n], now)
  {
    if n == |ps| {
      assert ps[..n] == ps;
    } else {
      assert ps[..|ps| - 1][..n] == ps[..n];
      CopyStopsAtError(o, ps[..|ps| - 1], n, now);
    }
  }

  /** The counter only adds up. */
  lemma {:induction false} CopyShift(rows: seq<Edge>, n: nat, ps: seq<Pending>, now: Stamp)
    ensures var a, b := Copy(Outcome(rows, 0, None), ps, now), Copy(Outcome(rows, n, None), ps, now);
            b == Outcome(a.rows, n + a.inserted, a.error)
  {
    if ps != [] {
      CopyShift(rows, n, ps[..|ps| - 1], now);
    }
  }

  ghost predicate Probeable(ps: seq<Pending>) {
    forall i :: 0 <= i < |ps| && !ps[i].skip ==>
                  ps[i].draft.srcId != "" && ps[i].draft.dstId != "" && ValidEdgeKind(ps[i].draft.kind)
  }

  /** Skip, probe, insert, count; the first failing insert ends the loop. */
  method CopyInto(store: EdgeStore.Store, ps: seq<Pending>, now: Stamp)
      returns (inserted: nat, error: Option<EdgeError>)
    requires store.Valid() && Probeable(ps)
    modifies store
    ensures store.Valid()
    ensures Outcome(store.rows, inserted, error) == Copy(Outcome(old(store.rows), 0, None), ps, now)
  {
    inserted, error := 0, None;
    ghost var start := Outcome(store.rows, 0, None);
    for i := 0 to |ps|
      invariant store.Valid() && error.None?
      invariant Outcome(store.rows, inserted, error) == Copy(start, ps[..i], now)
    {
      var p := ps[i];
      assert ps[..i + 1][..i] == ps[..i];
      if !p.skip {
        var found := false;
        if p.byKey {
          found := p.draft.validFrom.Some? && HasKey(store.rows, DraftTuple(p.draft), p.draft.validFrom.value);
        } else {
          var current := store.Get(p.draft.srcId, p.draft.dstId, p.draft.kind);
          found := current.Ok? && current.value.Some?;
          if found {
            var k :| 0 <= k < |store.rows| && store.rows[k] == current.value.value;
            assert TupleOf(store.rows[k]) == DraftTuple(p.draft) && Current(store.rows[k]);
          }
        }
        if !found {
          var r := store.BackfillRow(p.draft, now);
          if r.Err? {
            error := Some(r.error);
            CopyStopsAtError(start, ps, i + 1, now);
            return;
          }
          inserted := inserted + 1;
        }
      }
    }
    assert ps[..|ps|] == ps;
  }

  /** Each phase counts from zero; a failed phase is the last. */
  lemma MigratePhases(rows: seq<Edge>, l: Legacy, now: Stamp)
    ensures var a := Copy(Outcome(rows, 0, None), Deps(l), now);
            var b := Copy(Outcome(a.rows, 0, None), Tasks(l), now);
            var c := Copy(Outcome(b.rows, 0, None), Owners(l, now), now);
            Migrate(rows, l, now)
            == if a.error.Some? then a
               else if b.error.Some? then Outcome(b.rows, a.inserted + b.inserted, b.error)
               else Outcome(c.rows, a.inserted + b.inserted + c.inserted, c.error)
  {
    var a := Copy(Outcome(rows, 0, None), Deps(l), now);
    var ab := Copy(a, Tasks(l), now);
    if a.error.Some? {
      CopyStopsAtError(a, Tasks(l), 0, now);
      CopyStopsAtError(ab, Owners(l, now), 0, now);
    } else {
      CopyShift(a.rows, a.inserted, Tasks(l), now);
      if ab.error.Some? {
        CopyStopsAtError(ab, Owners(l, now), 0, now);
      } else {
        CopyShift(ab.rows, ab.inserted, Owners(l, now), now);
      }
    }
  }

  /** The four tables in their order. A failure reports 0 and leaves what was
      copied before it. */
  method MigrateLegacyDeps(store: EdgeStore.Store, l: Legacy, now: Stamp) returns (r: Result<nat, EdgeError>)
    requires store.Valid()
    modifies store
    ensures store.Valid() && old(store.rows) <= store.rows
    ensures var m := Migrate(old(store.rows), l, now);
            && store.rows == m.rows
            && r == if m.error.Some? then Err(m.error.value) else Ok(m.inserted)
    ensures r.Ok? ==> r.value == |store.rows| - |old(store.rows)|
  {
    MigrateProbesAll(store.rows, l, now);
    MigratePhases(store.rows, l, now);
    var n, error := CopyInto(store, Deps(l), now);
    if error.Some? {
      return Err(error.value);
    }
    var m, taskError := CopyInto(store, Tasks(l), now);
    if taskError.Some? {
      return Err(taskError.value);
    }
    var k, ownerError := CopyInto(store, Owners(l, now), now);
    if ownerError.Some? {
      return Err(ownerError.value);
    }
    return Ok(n + m + k);
  }
}
