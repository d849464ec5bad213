/** The edge store itself: the methods that update the table in place and the
    readers over it, each tied to the functions of EdgeModel and EdgeWalk. */
module EdgeStore {
  import opened Common
  import opened Sequences
  import opened EdgeModel
  import opened EdgeWalk
  import opened WalkOverRows
  import EdgeHistory

  /** The rows a bulk backfill adds. */
  function BackfillRowsOf(drafts: seq<Draft>, now: Stamp): seq<Edge>
    requires forall i :: 0 <= i < |drafts| ==> drafts[i].validFrom.Some?
  {
    seq(|drafts|, i requires 0 <= i < |drafts| => NewRow(drafts[i], drafts[i].validFrom.value, drafts[i].validTo, now))
  }

  ghost predicate AllValid(drafts: seq<Draft>) {
    forall i :: 0 <= i < |drafts| ==> BackfillError(drafts[i]).None?
  }

  lemma RepeatedKey(tx: seq<Edge>, all: seq<Edge>, row: Edge)
    requires tx + [row] <= all && HasKey(tx, TupleOf(row), row.validFrom)
    ensures !UniqueKeys(all)
  {
    var k :| 0 <= k < |tx| && TupleOf(tx[k]) == TupleOf(row) && tx[k].validFrom == row.validFrom;
    assert (tx + [row])[k] == tx[k] && (tx + [row])[|tx|] == row;
    assert all[k] == tx[k] && all[|tx|] == row;
  }

  /** The error is that of the first draft the checks reject. */
  ghost predicate FirstInvalid(drafts: seq<Draft>, error: EdgeError) {
    exists i :: 0 <= i < |drafts| && BackfillError(drafts[i]) == Some(error)
                && forall k :: 0 <= k < i ==> BackfillError(drafts[k]).None?
  }

  /** The loop with the set of seen ids: keeps the first row of each id. */
  method KeepFirst(sorted: seq<WalkRow>) returns (out: seq<WalkRow>)
    requires SortedBy(sorted, DepthKey)
    ensures out == FirstRows(sorted) && FirstPerId(sorted, out)
  {
    var seen: set<string> := {};
    out := [];
    for i := 0 to |sorted|
      invariant out == FirstRows(sorted[..i])
      invariant forall id :: id in seen <==> HasId(out, id)
    {
      var w := sorted[i];
      assert sorted[..i + 1][..i] == sorted[..i];
      if w.id !in seen {
        HasIdSnoc(out, w);
        seen := seen + {w.id};
        out := out + [w];
      }
    }
    assert sorted[..|sorted|] == sorted;
    FirstRowsArePerId(sorted);
  }

  /** What a successful Create leaves behind. */
  lemma CreateSucceeds(rows: seq<Edge>, d: Draft, now: Stamp)
    requires UniqueKeys(rows) && CreateRows(rows, d, now).Ok?
    ensures var after := CreateRows(rows, d, now).value;
            && UniqueKeys(after) && Preserves(rows, after) && |after| == |rows| + 1
            && Records(after[|rows|], d, if d.validFrom.Some? then d.validFrom.value else now, None, now)
            && (OneCurrent(rows) ==> OneCurrent(after) && HasCurrent(after, DraftTuple(d)))
  {
    CreateInFields(rows, d, now);
    if OneCurrent(rows) {
      CreateKeepsTable(rows, d, now);
    }
  }

  class Store {
    var rows: seq<Edge>

    ghost predicate Valid()
      reads this
    {
      UniqueKeys(rows)
    }

    constructor ()
      ensures Valid() && rows == []
    {
      rows := [];
    }

    /** Opens or replaces the current edge; one transaction, under createMu. */
    method Create(d: Draft, now: Stamp) returns (r: Result<(), EdgeError>)
      requires Valid()
      modifies this
      ensures Valid() && Preserves(old(rows), rows)
      ensures r.Err? <==> CreateRows(old(rows), d, now).Err?
      ensures r.Err? ==> rows == old(rows) && r.error == CreateRows(old(rows), d, now).error
      ensures r.Ok? ==> rows == CreateRows(old(rows), d, now).value
      ensures d.validFrom.None? ==> rows == EdgeHistory.Apply(old(rows), EdgeHistory.CreateOp(d, now))
      ensures r.Ok? ==> |rows| == |old(rows)| + 1
      ensures r.Ok? ==>
                Records(rows[|old(rows)|], d, if d.validFrom.Some? then d.validFrom.value else now, None, now)
      ensures r.Ok? && OneCurrent(old(rows)) ==> OneCurrent(rows) && HasCurrent(rows, DraftTuple(d))
    {
      if d.srcId == "" || d.dstId == "" {
        return Err(EmptyId);
      }
      if d.srcKind == "" || d.dstKind == "" || !ValidEdgeKind(d.kind) {
        return Err(InvalidKind);
      }
      if d.srcId == d.dstId {
        return Err(SelfLoop);
      }
      var validFrom := now;
      if d.validFrom.Some? {
        validFrom := d.validFrom.value;
      }
      var tx := CloseRows(rows, DraftTuple(d), now);
      var fresh_ := NewRow(d, validFrom, None, now);
      if HasKey(tx, DraftTuple(d), validFrom) {
        return Err(DuplicateKey);
      }
      rows := tx + [fresh_];
      CreateSucceeds(old(rows), d, now);
      return Ok(());
    }

    /** Closes the current edge, if there is one. */
    method Remove(src: string, dst: string, kind: string, actor: string, reason: string, now: Stamp)
        returns (r: Result<(), EdgeError>)
      requires Valid()
      modifies this
      ensures Valid() && |rows| == |old(rows)| && Preserves(old(rows), rows)
      ensures rows == EdgeHistory.Apply(old(rows), EdgeHistory.RemoveOp(src, dst, kind, actor, reason, now))
      ensures r.Err? <==> src == "" || dst == "" || !ValidEdgeKind(kind)
      ensures r.Err? ==> Some(r.error) == EdgeHistory.RemoveError(src, dst, kind)
      ensures r.Ok? && OneCurrent(old(rows)) ==> OneCurrent(rows)
      ensures r.Ok? ==> !HasCurrent(rows, Tuple(src, dst, kind))
    {
      if src == "" || dst == "" {
        return Err(EmptyId);
      }
      if !ValidEdgeKind(kind) {
        return Err(InvalidKind);
      }
      rows := RemoveRows(rows, Tuple(src, dst, kind), actor, reason, now);
      if OneCurrent(old(rows)) {
        RemoveKeepsTable(old(rows), Tuple(src, dst, kind), actor, reason, now);
      }
      return Ok(());
    }

    method BackfillRow(d: Draft, now: Stamp) returns (r: Result<(), EdgeError>)
      requires Valid()
      modifies this
      ensures Valid()
      ensures r.Err? <==> BackfillRows(old(rows), d, now).Err?
      ensures r.Err? ==> r.error == BackfillRows(old(rows), d, now).error
      ensures rows == if r.Ok? then BackfillRows(old(rows), d, now).value else old(rows)
      ensures r.Ok? ==> d.validFrom.Some? && |rows| == |old(rows)| + 1 && rows[..|old(rows)|] == old(rows)
                        && Records(rows[|old(rows)|], d, d.validFrom.value, d.validTo, now)
    {
      if BackfillError(d).Some? {
        return Err(BackfillError(d).value);
      }
      var row := NewRow(d, d.validFrom.value, d.validTo, now);
      if HasKey(rows, DraftTuple(d), row.validFrom) {
        return Err(DuplicateKey);
      }
      rows := rows + [row];
      return Ok(());
    }

    /** All rows land or none does: they land exactly when every draft is valid
        and no primary key would repeat. */
    method BackfillBulk(drafts: seq<Draft>, now: Stamp) returns (r: Result<(), EdgeError>)
      requires Valid()
      modifies this
      ensures Valid()
      ensures r.Ok? <==> AllValid(drafts) && UniqueKeys(old(rows) + BackfillRowsOf(drafts, now))
      ensures r.Err? && AllValid(drafts) ==> r.error == DuplicateKey
      ensures r.Err? && !AllValid(drafts) ==> FirstInvalid(drafts, r.error)
      ensures rows == if r.Ok? then old(rows) + BackfillRowsOf(drafts, now) else old(rows)
      ensures r.Ok? ==> |rows| == |old(rows)| + |drafts|
      ensures r.Ok? ==> forall i :: 0 <= i < |drafts| ==>
                && drafts[i].validFrom.Some?
                && Records(rows[|old(rows)| + i], drafts[i], drafts[i].validFrom.value, drafts[i].validTo, now)
    {
      for i := 0 to |drafts|
        invariant forall k :: 0 <= k < i ==> BackfillError(drafts[k]).None?
        invariant rows == old(rows)
      {
        if BackfillError(drafts[i]).Some? {
          return Err(BackfillError(drafts[i]).value);
        }
      }
      var tx := rows;
      ghost var added := BackfillRowsOf(drafts, now);
      for i := 0 to |drafts|
        invariant rows == old(rows)
        invariant tx == old(rows) + added[..i] && UniqueKeys(tx)
      {
        var row := NewRow(drafts[i], drafts[i].validFrom.value, drafts[i].validTo, now);
        if HasKey(tx, TupleOf(row), row.validFrom) {
          RepeatedKey(tx, old(rows) + added, row);
          return Err(DuplicateKey);
        }
        tx := tx + [row];
      }
      assert added[..|drafts|] == added;
      rows := tx;
      return Ok(());
    }

    /** The loop over a result set: every row of the table that satisfies p. */
    method Fetch(p: Edge -> bool) returns (out: seq<Edge>)
      ensures out == Select(rows, p)
      ensures forall e :: e in out <==> e in rows && p(e)
    {
      out := [];
      for i := 0 to |rows|
        invariant out == Select(rows[..i], p)
      {
        if p(rows[i]) {
          out := out + [rows[i]];
        }
        SelectSnoc(rows[..i], rows[i], p);
        assert rows[..i + 1] == rows[..i] + [rows[i]];
      }
      assert rows[..|rows|] == rows;
      forall e ensures e in out <==> e in rows && p(e) {
        SelectIn(rows, p, e);
      }
    }

    method ListOutgoing(src: string, kind: string) returns (r: Result<seq<Edge>, EdgeError>)
      ensures r.Err? <==> src == "" || (kind != "" && !ValidEdgeKind(kind))
      ensures r.Err? ==> r.error == if src == "" then EmptyId else InvalidKind
      ensures r.Ok? ==> r.value == Select(rows, OutgoingNow(src, kind))
      ensures r.Ok? ==> forall e :: e in r.value <==>
                e in rows && e.srcId == src && e.validTo == None && (kind == "" || e.kind == kind)
    {
      if src == "" {
        return Err(EmptyId);
      }
      if kind != "" && !ValidEdgeKind(kind) {
        return Err(InvalidKind);
      }
      var out := Fetch(OutgoingNow(src, kind));
      return Ok(out);
    }

    method ListIncoming(dst: string, kind: string) returns (r: Result<seq<Edge>, EdgeError>)
      ensures r.Err? <==> dst == "" || (kind != "" && !ValidEdgeKind(kind))
      ensures r.Err? ==> r.error == if dst == "" then EmptyId else InvalidKind
      ensures r.Ok? ==> r.value == Select(rows, IncomingNow(dst, kind))
      ensures r.Ok? ==> forall e :: e in r.value <==>
                e in rows && e.dstId == dst && e.validTo == None && (kind == "" || e.kind == kind)
    {
      if dst == "" {
        return Err(EmptyId);
      }
      if kind != "" && !ValidEdgeKind(kind) {
        return Err(InvalidKind);
      }
      var out := Fetch(IncomingNow(dst, kind));
      return Ok(out);
    }

    /** An absent asOf means the current state. */
    method ListOutgoingAt(src: string, kind: string, asOf: Option<Stamp>) returns (r: Result<seq<Edge>, EdgeError>)
      ensures r.Err? <==> src == "" || (kind != "" && !ValidEdgeKind(kind))
      ensures r.Err? ==> r.error == if src == "" then EmptyId else InvalidKind
      ensures r.Ok? && asOf.None? ==> r.value == Select(rows, OutgoingNow(src, kind))
      ensures r.Ok? && asOf.Some? ==> r.value == Select(rows, OutgoingThen(src, kind, asOf.value))
      ensures r.Ok? ==> forall e :: e in r.value <==>
                && e in rows && e.srcId == src && (kind == "" || e.kind == kind)
                && (asOf.None? ==> e.validTo.None?)
                && (asOf.Some? ==> e.validFrom <= asOf.value && (e.validTo.None? || asOf.value < e.validTo.value))
    {
      if src == "" {
        return Err(EmptyId);
      }
      if kind != "" && !ValidEdgeKind(kind) {
        return Err(InvalidKind);
      }
      if asOf.None? {
        r := ListOutgoing(src, kind);
        return;
      }
      var out := Fetch(OutgoingThen(src, kind, asOf.value));
      return Ok(out);
    }

    method ListIncomingAt(dst: string, kind: string, asOf: Option<Stamp>) returns (r: Result<seq<Edge>, EdgeError>)
      ensures r.Err? <==> dst == "" || (kind != "" && !ValidEdgeKind(kind))
      ensures r.Err? ==> r.error == if dst == "" then EmptyId else InvalidKind
      ensures r.Ok? && asOf.None? ==> r.value == Select(rows, IncomingNow(dst, kind))
      ensures r.Ok? && asOf.Some? ==> r.value == Select(rows, IncomingThen(dst, kind, asOf.value))
      ensures r.Ok? ==> forall e :: e in r.value <==>
                && e in rows && e.dstId == dst && (kind == "" || e.kind == kind)
                && (asOf.None? ==> e.validTo.None?)
                && (asOf.Some? ==> e.validFrom <= asOf.value && (e.validTo.None? || asOf.value < e.validTo.value))
    {
      if dst == "" {
        return Err(EmptyId);
      }
      if kind != "" && !ValidEdgeKind(kind) {
        return Err(InvalidKind);
      }
      if asOf.None? {
        r := ListIncoming(dst, kind);
        return;
      }
      var out := Fetch(IncomingThen(dst, kind, asOf.value));
      return Ok(out);
    }

    /** Every version of one tuple, oldest first. */
    method History(src: string, dst: string, kind: string) returns (r: Result<seq<Edge>, EdgeError>)
      ensures r.Err? <==> src == "" || dst == "" || !ValidEdgeKind(kind)
      ensures r.Err? ==> r.error == if src == "" || dst == "" then EmptyId else InvalidKind
      ensures r.Ok? ==> r.value == HistoryOf(rows, Tuple(src, dst, kind))
      ensures r.Ok? ==> forall e :: e in r.value <==> e in rows && e.srcId == src && e.dstId == dst && e.kind == kind
      ensures r.Ok? ==> forall i, j :: 0 <= i < j < |r.value| ==> r.value[i].validFrom <= r.value[j].validFrom
      ensures r.Ok? ==> multiset(r.value) == multiset(Select(rows, OfTuple(Tuple(src, dst, kind))))
    {
      if src == "" || dst == "" {
        return Err(EmptyId);
      }
      if !ValidEdgeKind(kind) {
        return Err(InvalidKind);
      }
      var out := Fetch(OfTuple(Tuple(src, dst, kind)));
      HistoryInFields(rows, Tuple(src, dst, kind));
      return Ok(StableSort(out, FromKey));
    }

    /** The current edge of a tuple: the only one when the table keeps OneCurrent. */
    method Get(src: string, dst: string, kind: string) returns (r: Result<Option<Edge>, EdgeError>)
      ensures r.Err? <==> src == "" || dst == "" || !ValidEdgeKind(kind)
      ensures r.Err? ==> r.error == if src == "" || dst == "" then EmptyId else InvalidKind
      ensures r.Ok? && r.value.None? ==> !HasCurrent(rows, Tuple(src, dst, kind))
      ensures r.Ok? && r.value.Some? ==>
                r.value.value in rows && TupleOf(r.value.value) == Tuple(src, dst, kind) && Current(r.value.value)
      ensures r.Ok? && r.value.Some? && OneCurrent(rows) ==>
                forall e :: e in rows && TupleOf(e) == Tuple(src, dst, kind) && Current(e) ==> e == r.value.value
    {
      if src == "" || dst == "" {
        return Err(EmptyId);
      }
      if !ValidEdgeKind(kind) {
        return Err(InvalidKind);
      }
      for i := 0 to |rows|
        invariant forall k :: 0 <= k < i ==> !(TupleOf(rows[k]) == Tuple(src, dst, kind) && Current(rows[k]))
      {
        if TupleOf(rows[i]) == Tuple(src, dst, kind) && Current(rows[i]) {
          return Ok(Some(rows[i]));
        }
      }
      return Ok(None);
    }

    /** The recursive query. SQL fixes its rows but not their order, and callers
        may rely on no more than that. */
    method QueryPaths(ghost hops: seq<Hop>, follow: Edge -> bool, root: WalkRow, depth: nat) returns (raw: seq<WalkRow>)
      requires hops == MapSeq(Select(rows, follow), HopOf)
      ensures multiset(raw) == multiset(PathRows(hops, root, depth))
    {
      raw := PathRows(MapSeq(Select(rows, follow), HopOf), root, depth);
    }

    method Walk(rootId: string, rootKind: string, kinds: seq<string>, maxDepth: int)
        returns (r: Result<seq<WalkRow>, EdgeError>)
      ensures r.Err? <==> rootId == "" || rootKind == "" || exists k :: k in kinds && !ValidEdgeKind(k)
      ensures r.Err? ==> r.error == if rootId == "" then EmptyId else InvalidKind
      ensures r.Ok? ==> ShortestPathTree(HopsNow(rows, kinds), Root(rootId, rootKind), ClampDepth(maxDepth), r.value)
      ensures r.Ok? ==> Answers(rows, kinds, None, rootId, rootKind, if 0 <= maxDepth <= 100 then maxDepth else 100,
                                r.value)
    {
      if rootId == "" {
        return Err(EmptyId);
      }
      if rootKind == "" || exists k :: k in kinds && !ValidEdgeKind(k) {
        return Err(InvalidKind);
      }
      var root, depth := Root(rootId, rootKind), ClampDepth(maxDepth);
      var raw := QueryPaths(HopsNow(rows, kinds), FollowNow(kinds), root, depth);
      StableSortCorrect(raw, DepthKey);
      var out := KeepFirst(StableSort(raw, DepthKey));
      DedupIsShortestPathTree(HopsNow(rows, kinds), root, depth, raw, out);
      HopsNowAreLive(rows, kinds);
      TreeAnswers(HopsNow(rows, kinds), rows, kinds, None, rootId, rootKind, depth, out);
      return Ok(out);
    }

    method WalkAt(rootId: string, rootKind: string, kinds: seq<string>, maxDepth: int, asOf: Option<Stamp>)
        returns (r: Result<seq<WalkRow>, EdgeError>)
      ensures r.Err? <==> rootId == "" || rootKind == "" || exists k :: k in kinds && !ValidEdgeKind(k)
      ensures r.Err? ==> r.error == if rootId == "" then EmptyId else InvalidKind
      ensures r.Ok? && asOf.None? ==>
                ShortestPathTree(HopsNow(rows, kinds), Root(rootId, rootKind), ClampDepth(maxDepth), r.value)
      ensures r.Ok? && asOf.Some? ==>
                ShortestPathTree(HopsNow(Snapshot(rows, asOf.value), kinds), Root(rootId, rootKind),
                                 ClampDepth(maxDepth), r.value)
      ensures r.Ok? ==> Answers(rows, kinds, asOf, rootId, rootKind, if 0 <= maxDepth <= 100 then maxDepth else 100,
                                r.value)
    {
      if rootId == "" {
        return Err(EmptyId);
      }
      if rootKind == "" {
        return Err(InvalidKind);
      }
      if asOf.None? {
        r := Walk(rootId, rootKind, kinds, maxDepth);
        return;
      }
      if exists k :: k in kinds && !ValidEdgeKind(k) {
        return Err(InvalidKind);
      }
      var root, depth, t := Root(rootId, rootKind), ClampDepth(maxDepth), asOf.value;
      var raw := QueryPaths(HopsThen(rows, kinds, t), FollowThen(kinds, t), root, depth);
      StableSortCorrect(raw, DepthKey);
      var out := KeepFirst(StableSort(raw, DepthKey));
      DedupIsShortestPathTree(HopsThen(rows, kinds, t), root, depth, raw, out);
      HopsThenAreLive(rows, kinds, t);
      TreeAnswers(HopsThen(rows, kinds, t), rows, kinds, Some(t), rootId, rootKind, depth, out);
      WalkAtIsWalkOnSnapshot(rows, kinds, t);
      return Ok(out);
    }
  }
}
