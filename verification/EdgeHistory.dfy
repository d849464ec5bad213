/** Time travel. A run is a sequence of atomic Create (default ValidFrom) and
    Remove calls stamped by a non-decreasing clock; equal stamps are allowed,
    and so are calls that fail. */
module EdgeHistory {
  import opened Common
  import opened Sequences
  import opened EdgeModel

  datatype Op =
    | CreateOp(draft: Draft, now: Stamp)
    | RemoveOp(src: string, dst: string, kind: string, actor: string, reason: string, now: Stamp)

  function RemoveError(src: string, dst: string, kind: string): Option<EdgeError> {
    if src == "" || dst == "" then Some(EmptyId)
    else if !ValidEdgeKind(kind) then Some(InvalidKind)
    else None
  }

  /** One call on the table; a failing call changes nothing. */
  function Apply(rows: seq<Edge>, op: Op): seq<Edge> {
    match op
    case CreateOp(d, now) =>
      var r := CreateRows(rows, d.(validFrom := None), now);
      if r.Ok? then r.value else rows
    case RemoveOp(src, dst, kind, actor, reason, now) =>
      if RemoveError(src, dst, kind).Some? then rows
      else RemoveRows(rows, Tuple(src, dst, kind), actor, reason, now)
  }

  /** The table after replaying ops on an empty one. */
  function Replay(ops: seq<Op>): seq<Edge> {
    if ops == [] then [] else Apply(Replay(ops[..|ops| - 1]), ops[|ops| - 1])
  }

  predicate NonDecreasing(ops: seq<Op>) {
    forall i, j :: 0 <= i < j < |ops| ==> ops[i].now <= ops[j].now
  }

  function By(t: Stamp): Op -> bool {
    (op: Op) => op.now <= t
  }

  /** Only the operations stamped at or before t. */
  function UpTo(ops: seq<Op>, t: Stamp): seq<Op> {
    Select(ops, By(t))
  }

  // ---- What every replayed table satisfies --------------------------------

  ghost predicate Bounded(rows: seq<Edge>, t: Stamp) {
    forall i :: 0 <= i < |rows| ==>
      rows[i].validFrom <= t && (rows[i].validTo.Some? ==> rows[i].validTo.value <= t)
  }

  /** One version of a tuple ends, strictly later than it began to be listed,
      no later than the next begins. */
  predicate Precedes(e: Edge, f: Edge) {
    && e.validTo.Some?
    && e.validFrom <= e.validTo.value <= f.validFrom
    && e.validFrom < f.validFrom
  }

  ghost predicate Chained(rows: seq<Edge>) {
    && (forall i :: 0 <= i < |rows| && rows[i].validTo.Some? ==> rows[i].validFrom <= rows[i].validTo.value)
    && (forall i, j :: 0 <= i < j < |rows| && TupleOf(rows[i]) == TupleOf(rows[j]) ==> Precedes(rows[i], rows[j]))
  }

  lemma ApplyKeepsInvariants(rows: seq<Edge>, op: Op)
    requires Bounded(rows, op.now) && Chained(rows) && UniqueKeys(rows)
    ensures Bounded(Apply(rows, op), op.now) && Chained(Apply(rows, op)) && UniqueKeys(Apply(rows, op))
  {
    var after := Apply(rows, op);
    forall i, j | 0 <= i < j < |after| && TupleOf(after[i]) == TupleOf(after[j])
      ensures Precedes(after[i], after[j]) && after[i].validFrom != after[j].validFrom
    {
      if j < |rows| {
        assert TupleOf(rows[i]) == TupleOf(rows[j]) && Precedes(rows[i], rows[j]);
      } else {
        var closed := CloseRows(rows, DraftTuple(op.draft), op.now);
        assert closed[i] == after[i] && !HasKey(closed, DraftTuple(op.draft), op.now);
      }
    }
  }

  lemma {:induction false} ReplayInvariants(ops: seq<Op>, t: Stamp)
    requires NonDecreasing(ops) && forall i :: 0 <= i < |ops| ==> ops[i].now <= t
    ensures Bounded(Replay(ops), t) && Chained(Replay(ops)) && UniqueKeys(Replay(ops))
  {
    if ops != [] {
      var last := |ops| - 1;
      ReplayInvariants(ops[..last], ops[last].now);
      ApplyKeepsInvariants(Replay(ops[..last]), ops[last]);
    }
  }

  // ---- As-of equals replay ------------------------------------------------

  /** full, seen at t, shows exactly what then shows as current. */
  ghost predicate ShowsAt(full: seq<Edge>, then_: seq<Edge>, t: Stamp) {
    && |then_| <= |full|
    && (forall i :: 0 <= i < |then_| ==>
          FactOf(full[i]) == FactOf(then_[i]) && (ValidAt(full[i], t) <==> Current(then_[i])))
    && (forall i :: |then_| <= i < |full| ==> !ValidAt(full[i], t))
  }

  /** An operation stamped after t is invisible at t. */
  lemma LaterOpInvisible(rows: seq<Edge>, op: Op, t: Stamp)
    requires t < op.now
    ensures |rows| <= |Apply(rows, op)|
    ensures forall i :: 0 <= i < |rows| ==>
              && FactOf(Apply(rows, op)[i]) == FactOf(rows[i])
              && (ValidAt(Apply(rows, op)[i], t) <==> ValidAt(rows[i], t))
    ensures forall i :: |rows| <= i < |Apply(rows, op)| ==> !ValidAt(Apply(rows, op)[i], t)
  {
  }

  lemma {:induction false} AsOfAligns(ops: seq<Op>, t: Stamp)
    requires NonDecreasing(ops)
    ensures ShowsAt(Replay(ops), Replay(UpTo(ops, t)), t)
  {
    if ops != [] {
      var last := |ops| - 1;
      var before := ops[..last];
      if t < ops[last].now {
        AsOfAligns(before, t);
        LaterOpInvisible(Replay(before), ops[last], t);
        assert UpTo(ops, t) == UpTo(before, t);
      } else {
        SelectAll(ops, By(t));
        ReplayInvariants(ops, t);
      }
    }
  }

  /** As-of equals replay: what ListOutgoingAt and ListIncomingAt report at t is,
      row for row and up to attribution, what ListOutgoing and ListIncoming
      reported once the operations stamped at or before t had run. */
  lemma AsOfIsReplay(ops: seq<Op>, t: Stamp, node: string, kind: string)
    requires NonDecreasing(ops)
    ensures Facts(Select(Replay(ops), OutgoingThen(node, kind, t)))
         == Facts(Select(Replay(UpTo(ops, t)), OutgoingNow(node, kind)))
    ensures Facts(Select(Replay(ops), IncomingThen(node, kind, t)))
         == Facts(Select(Replay(UpTo(ops, t)), IncomingNow(node, kind)))
  {
    AsOfAligns(ops, t);
    var full, then_ := Replay(ops), Replay(UpTo(ops, t));
    forall i | 0 <= i < |then_|
      ensures OutgoingThen(node, kind, t)(full[i]) == OutgoingNow(node, kind)(then_[i])
      ensures IncomingThen(node, kind, t)(full[i]) == IncomingNow(node, kind)(then_[i])
    {
      assert FactOf(full[i]) == FactOf(then_[i]);
    }
    SelectCongruence(full, then_, OutgoingThen(node, kind, t), OutgoingNow(node, kind), FactOf, FactOf);
    SelectCongruence(full, then_, IncomingThen(node, kind, t), IncomingNow(node, kind), FactOf, FactOf);
  }

  // ---- History ------------------------------------------------------------

  lemma ChainedHistory(rows: seq<Edge>, key: Tuple)
    requires Chained(rows)
    ensures var h := HistoryOf(rows, key);
            h == Select(rows, OfTuple(key)) && forall i, j :: 0 <= i < j < |h| ==> Precedes(h[i], h[j])
  {
    SelectPairs(rows, OfTuple(key), Precedes);
    StableSortOfSorted(Select(rows, OfTuple(key)), FromKey);
  }

  lemma ChainIsDisjoint(h: seq<Edge>)
    requires forall i, j :: 0 <= i < j < |h| ==> Precedes(h[i], h[j])
    ensures forall i, t: Stamp :: 0 <= i < |h| && ValidAt(h[i], t) ==>
              forall j :: 0 <= j < |h| && j != i ==> !ValidAt(h[j], t)
  {
  }

  /** History lists one tuple's versions in strictly increasing order of
      valid_from, as pairwise disjoint half-open intervals of which only the
      last can be open; sorting has nothing to do, because versions were
      appended in that order. */
  lemma HistoryIsChain(ops: seq<Op>, key: Tuple)
    requires NonDecreasing(ops)
    ensures var h := HistoryOf(Replay(ops), key);
            && h == Select(Replay(ops), OfTuple(key))
            && (forall i, j :: 0 <= i < j < |h| ==> Precedes(h[i], h[j]))
            && (forall i, t: Stamp :: 0 <= i < |h| && ValidAt(h[i], t) ==>
                  forall j :: 0 <= j < |h| && j != i ==> !ValidAt(h[j], t))
  {
    ReplayInvariants(ops, if ops == [] then 0 else ops[|ops| - 1].now);
    ChainedHistory(Replay(ops), key);
    ChainIsDisjoint(HistoryOf(Replay(ops), key));
  }

  /** Just before the stamp of version i + 1, no version but i can be valid. */
  lemma OnlyPredecessorValid(h: seq<Edge>, i: nat, j: nat, t: Stamp)
    requires forall a, b :: 0 <= a < b < |h| ==> Precedes(h[a], h[b])
    requires i + 1 < |h| && j < |h| && t + 1 == h[i + 1].validFrom
    ensures ValidAt(h[j], t) <==> j == i && h[i].validTo == Some(t + 1)
  {
    assert Precedes(h[i], h[i + 1]);
    if j < i {
      assert Precedes(h[j], h[i]);
    } else if i + 1 < j {
      assert Precedes(h[i + 1], h[j]);
    }
  }

  /** A tuple is current in the table as it was at t exactly when one of the
      versions in its history is valid at t. */
  lemma CurrentThenIffValid(full: seq<Edge>, then_: seq<Edge>, key: Tuple, t: Stamp)
    requires ShowsAt(full, then_, t)
    ensures var h := Select(full, OfTuple(key));
            HasCurrent(then_, key) <==> exists j :: 0 <= j < |h| && ValidAt(h[j], t)
  {
    var h := Select(full, OfTuple(key));
    if HasCurrent(then_, key) {
      var k :| 0 <= k < |then_| && TupleOf(then_[k]) == key && Current(then_[k]);
      assert FactOf(full[k]) == FactOf(then_[k]);
      SelectIn(full, OfTuple(key), full[k]);
      var j :| 0 <= j < |h| && h[j] == full[k];
      assert ValidAt(h[j], t);
    }
    if j :| 0 <= j < |h| && ValidAt(h[j], t) {
      SelectIn(full, OfTuple(key), h[j]);
      var k :| 0 <= k < |full| && full[k] == h[j];
      assert k < |then_| && FactOf(full[k]) == FactOf(then_[k]);
      assert TupleOf(then_[k]) == key && Current(then_[k]);
    }
  }

  lemma AdjacentIffStillCurrent(full: seq<Edge>, then_: seq<Edge>, key: Tuple, h: seq<Edge>, i: nat, t: Stamp)
    requires ShowsAt(full, then_, t) && h == Select(full, OfTuple(key))
    requires forall a, b :: 0 <= a < b < |h| ==> Precedes(h[a], h[b])
    requires i + 1 < |h| && t + 1 == h[i + 1].validFrom
    ensures h[i].validTo == Some(t + 1) <==> HasCurrent(then_, key)
  {
    CurrentThenIffValid(full, then_, key, t);
    if HasCurrent(then_, key) {
      var j :| 0 <= j < |h| && ValidAt(h[j], t);
      OnlyPredecessorValid(h, i, j, t);
    }
    OnlyPredecessorValid(h, i, i, t);
  }

  /** Consecutive versions are adjacent exactly where the tuple was still current
      when the clock reached the later one's stamp: a Create superseded it, or a
      Remove and a Create fell in the same tick. */
  lemma HistoryAdjacency(ops: seq<Op>, key: Tuple, h: seq<Edge>, i: nat, t: Stamp)
    requires NonDecreasing(ops) && h == HistoryOf(Replay(ops), key)
    requires i + 1 < |h| && t + 1 == h[i + 1].validFrom
    ensures h[i].validTo == Some(h[i + 1].validFrom) <==> HasCurrent(Replay(UpTo(ops, t)), key)
  {
    HistoryIsChain(ops, key);
    AsOfAligns(ops, t);
    AdjacentIffStillCurrent(Replay(ops), Replay(UpTo(ops, t)), key, h, i, t);
  }
}
