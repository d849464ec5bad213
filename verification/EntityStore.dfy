/** Entities: versions that tile time. */
module EntityStore {
  import opened Common
  import opened Sequences

  type Stamp = nat

  const DRAFT := "draft"

  /** The columns an Update replaces. */
  datatype Content = Content(title: string, status: string, tags: seq<string>, changedBy: string, changeReason: string)

  /** What one version says, apart from when it ended. */
  datatype Version = Version(kind: string, content: Content, validFrom: Stamp, createdAt: Stamp)

  datatype Row = Row(uid: string, version: Version, validTo: Option<Stamp>)

  predicate Current(r: Row) {
    r.validTo.None?
  }

  predicate ValidAt(r: Row, t: Stamp) {
    r.version.validFrom <= t && (r.validTo.None? || t < r.validTo.value)
  }

  function CloseRow(r: Row, uid: string, now: Stamp): Row {
    if r.uid == uid && Current(r) then r.(validTo := Some(now)) else r
  }

  predicate Known(rows: seq<Row>, uid: string) {
    exists i :: 0 <= i < |rows| && rows[i].uid == uid
  }

  predicate HasCurrent(rows: seq<Row>, uid: string) {
    exists i :: 0 <= i < |rows| && rows[i].uid == uid && Current(rows[i])
  }

  function CreatedRow(uid: string, kind: string, c: Content, now: Stamp): Row {
    Row(uid, Version(kind, if c.status == "" then c.(status := DRAFT) else c, now, now), None)
  }

  /** The current version, as the transaction of Update reads it. */
  function CurrentVersion(rows: seq<Row>, uid: string): Version
    requires HasCurrent(rows, uid)
  {
    var last := rows[|rows| - 1];
    if last.uid == uid && Current(last) then last.version
    else
      assert HasCurrent(rows[..|rows| - 1], uid) by {
        var i :| 0 <= i < |rows| && rows[i].uid == uid && Current(rows[i]);
        assert rows[..|rows| - 1][i] == rows[i];
      }
      CurrentVersion(rows[..|rows| - 1], uid)
  }

  function UpdateRows(rows: seq<Row>, uid: string, c: Content, now: Stamp): Option<seq<Row>> {
    if !HasCurrent(rows, uid) then None else
      var v := CurrentVersion(rows, uid);
      Some(MapSeq(rows, (r: Row) => CloseRow(r, uid, now)) + [Row(uid, v.(content := c, validFrom := now), None)])
  }

  // ---- Replay -------------------------------------------------------------

  datatype Op =
    | CreateOp(uid: string, kind: string, content: Content, now: Stamp)
    | UpdateOp(uid: string, content: Content, now: Stamp)

  /** Create draws a fresh uid; an Update of an unknown entity changes nothing. */
  function Apply(rows: seq<Row>, op: Op): seq<Row> {
    match op
    case CreateOp(uid, kind, c, now) => if Known(rows, uid) then rows else rows + [CreatedRow(uid, kind, c, now)]
    case UpdateOp(uid, c, now) =>
      if UpdateRows(rows, uid, c, now).Some? then UpdateRows(rows, uid, c, now).value else rows
  }

  function Replay(ops: seq<Op>): seq<Row> {
    if ops == [] then [] else Apply(Replay(ops[..|ops| - 1]), ops[|ops| - 1])
  }

  predicate NonDecreasing(ops: seq<Op>) {
    forall i, j :: 0 <= i < j < |ops| ==> ops[i].now <= ops[j].now
  }

  function By(t: Stamp): Op -> bool {
    (op: Op) => op.now <= t
  }

  function UpTo(ops: seq<Op>, t: Stamp): seq<Op> {
    Select(ops, By(t))
  }

  /** What one entity's own operations make of it, without any table: the first
      Create fixes its type and creation time, every later Update its content. */
  function Latest(ops: seq<Op>, uid: string): Option<Version> {
    if ops == [] then None else
      var before, op := Latest(ops[..|ops| - 1], uid), ops[|ops| - 1];
      if op.uid != uid then before else
        match op
        case CreateOp(_, kind, c, now) => if before.None? then Some(CreatedRow(uid, kind, c, now).version) else before
        case UpdateOp(_, c, now) => if before.Some? then Some(before.value.(content := c, validFrom := now)) else None
  }

  // ---- One current row per entity -----------------------------------------

  /** Every known entity has exactly one current row, and it says v. */
  ghost predicate Says(rows: seq<Row>, uid: string, v: Option<Version>) {
    && (v.None? ==> !Known(rows, uid))
    && (v.Some? ==> exists i :: 0 <= i < |rows| && rows[i] == Row(uid, v.value, None)
                                && forall j :: 0 <= j < |rows| && j != i && rows[j].uid == uid ==> !Current(rows[j]))
  }

  lemma {:induction false} CurrentVersionIs(rows: seq<Row>, uid: string, v: Version)
    requires HasCurrent(rows, uid)
    requires forall i :: 0 <= i < |rows| && rows[i].uid == uid && Current(rows[i]) ==> rows[i].version == v
    ensures CurrentVersion(rows, uid) == v
  {
    var before, last := rows[..|rows| - 1], rows[|rows| - 1];
    if !(last.uid == uid && Current(last)) {
      var i :| 0 <= i < |rows| && rows[i].uid == uid && Current(rows[i]);
      assert before[i] == rows[i];
      CurrentVersionIs(before, uid, v);
    }
  }

  lemma {:induction false} CurrentVersionIn(rows: seq<Row>, uid: string) returns (k: nat)
    requires HasCurrent(rows, uid)
    ensures k < |rows| && rows[k] == Row(uid, CurrentVersion(rows, uid), None)
  {
    var before, last := rows[..|rows| - 1], rows[|rows| - 1];
    if last.uid == uid && Current(last) {
      k := |rows| - 1;
    } else {
      var i :| 0 <= i < |rows| && rows[i].uid == uid && Current(rows[i]);
      assert before[i] == rows[i];
      k := CurrentVersionIn(before, uid);
    }
  }

  lemma UpdateSays(rows: seq<Row>, uid: string, c: Content, now: Stamp, other: string, v: Option<Version>)
    requires Says(rows, other, v)
    ensures var after := UpdateRows(rows, uid, c, now);
            if other == uid && v.Some? then
              after.Some? && Says(after.value, uid, Some(v.value.(content := c, validFrom := now)))
            else if other == uid then after.None?
            else after.Some? ==> Says(after.value, other, v)
  {
    if other == uid && v.Some? {
      var i :| 0 <= i < |rows| && rows[i] == Row(uid, v.value, None)
               && forall j :: 0 <= j < |rows| && j != i && rows[j].uid == uid ==> !Current(rows[j]);
      CurrentVersionIs(rows, uid, v.value);
      var after := UpdateRows(rows, uid, c, now).value;
      assert after[|rows|] == Row(uid, v.value.(content := c, validFrom := now), None);
      assert forall j :: 0 <= j < |rows| && rows[j].uid == uid ==> !Current(after[j]);
    } else if UpdateRows(rows, uid, c, now).Some? {
      var after := UpdateRows(rows, uid, c, now).value;
      assert forall j :: 0 <= j < |rows| && rows[j].uid != uid ==> after[j] == rows[j];
      if v.Some? {
        var i :| 0 <= i < |rows| && rows[i] == Row(other, v.value, None)
                 && forall j :: 0 <= j < |rows| && j != i && rows[j].uid == other ==> !Current(rows[j]);
        assert after[i] == rows[i];
        assert forall j :: 0 <= j < |after| && j != i && after[j].uid == other ==> j < |rows| && !Current(after[j]);
      }
    }
  }

  lemma CreateSays(rows: seq<Row>, row: Row, other: string, v: Option<Version>)
    requires Says(rows, other, v) && !Known(rows, row.uid) && Current(row)
    ensures Says(rows + [row], other, if other == row.uid then Some(row.version) else v)
  {
    var after := rows + [row];
    assert after[|rows|] == row;
    assert forall j :: 0 <= j < |rows| ==> after[j] == rows[j] && rows[j].uid != row.uid;
    if other != row.uid && v.Some? {
      var i :| 0 <= i < |rows| && rows[i] == Row(other, v.value, None)
               && forall j :: 0 <= j < |rows| && j != i && rows[j].uid == other ==> !Current(rows[j]);
      assert after[i] == Row(other, v.value, None);
    }
  }

  /** The table holds, as the entity's only current row, exactly what its own
      operations made of it. */
  lemma {:induction false} ReplaySays(ops: seq<Op>, uid: string)
    ensures Says(Replay(ops), uid, Latest(ops, uid))
  {
    if ops != [] {
      var before, op := ops[..|ops| - 1], ops[|ops| - 1];
      ReplaySays(before, uid);
      var rows := Replay(before);
      match op
      case CreateOp(u, kind, c, now) =>
        if !Known(rows, u) {
          CreateSays(rows, CreatedRow(u, kind, c, now), uid, Latest(before, uid));
        }
      case UpdateOp(u, c, now) =>
        UpdateSays(rows, u, c, now, uid, Latest(before, uid));
    }
  }

  // ---- As-of --------------------------------------------------------------

  ghost predicate Bounded(rows: seq<Row>, t: Stamp) {
    forall i :: 0 <= i < |rows| ==>
      rows[i].version.validFrom <= t && (rows[i].validTo.Some? ==> rows[i].validTo.value <= t)
  }

  lemma {:induction false} ReplayBounded(ops: seq<Op>, t: Stamp)
    requires forall i :: 0 <= i < |ops| ==> ops[i].now <= t
    ensures Bounded(Replay(ops), t)
  {
    if ops != [] {
      var before, op := ops[..|ops| - 1], ops[|ops| - 1];
      ReplayBounded(before, t);
      assert op.now <= t && Replay(ops) == Apply(Replay(before), op);
    }
  }

  ghost predicate ShowsAt(full: seq<Row>, then_: seq<Row>, t: Stamp) {
    && |then_| <= |full|
    && (forall i :: 0 <= i < |then_| ==>
          && full[i].uid == then_[i].uid && full[i].version == then_[i].version
          && (ValidAt(full[i], t) <==> Current(then_[i])))
    && (forall i :: |then_| <= i < |full| ==> !ValidAt(full[i], t))
  }

  /** An operation stamped after t is invisible at t. */
  lemma LaterOpInvisible(rows: seq<Row>, op: Op, t: Stamp)
    requires t < op.now
    ensures |rows| <= |Apply(rows, op)|
    ensures forall i :: 0 <= i < |rows| ==>
              && Apply(rows, op)[i].uid == rows[i].uid && Apply(rows, op)[i].version == rows[i].version
              && (ValidAt(Apply(rows, op)[i], t) <==> ValidAt(rows[i], t))
    ensures forall i :: |rows| <= i < |Apply(rows, op)| ==> !ValidAt(Apply(rows, op)[i], t)
  {
  }

  lemma {:induction false} AsOfAligns(ops: seq<Op>, t: Stamp)
    requires NonDecreasing(ops)
    ensures ShowsAt(Replay(ops), Replay(UpTo(ops, t)), t)
  {
    if ops != [] {
      var before, op := ops[..|ops| - 1], ops[|ops| - 1];
      if t < op.now {
        AsOfAligns(before, t);
        LaterOpInvisible(Replay(before), op, t);
        assert UpTo(ops, t) == UpTo(before, t);
      } else {
        SelectAll(ops, By(t));
        ReplayBounded(ops, t);
      }
    }
  }

  /** Row i is the one row of the entity valid at t. */
  ghost predicate SoleValid(rows: seq<Row>, uid: string, t: Stamp, i: int) {
    && 0 <= i < |rows| && rows[i].uid == uid && ValidAt(rows[i], t)
    && forall j :: 0 <= j < |rows| && j != i && rows[j].uid == uid ==> !ValidAt(rows[j], t)
  }

  /** Seen at t, the entity says v: in exactly one row, or in none. */
  ghost predicate SaysAt(rows: seq<Row>, uid: string, t: Stamp, v: Option<Version>) {
    && (v.None? ==> forall i :: 0 <= i < |rows| && rows[i].uid == uid ==> !ValidAt(rows[i], t))
    && (v.Some? ==> exists i :: SoleValid(rows, uid, t, i) && rows[i].version == v.value)
  }

  /** Versions tile time: at every t there is exactly one valid row of the entity
      if its operations up to t made something of it, and none otherwise; that row
      says what the last of those operations left, with the type and creation time
      of the Create. */
  lemma VersionsTileTime(ops: seq<Op>, uid: string, t: Stamp)
    requires NonDecreasing(ops)
    ensures SaysAt(Replay(ops), uid, t, Latest(UpTo(ops, t), uid))
  {
    AsOfAligns(ops, t);
    ReplaySays(UpTo(ops, t), uid);
    ShownSaysAt(Replay(ops), Replay(UpTo(ops, t)), uid, t, Latest(UpTo(ops, t), uid));
  }

  lemma ShownSaysAt(full: seq<Row>, then_: seq<Row>, uid: string, t: Stamp, v: Option<Version>)
    requires ShowsAt(full, then_, t) && Says(then_, uid, v)
    ensures SaysAt(full, uid, t, v)
  {
  }

  /** Type and creation time are the same in every version ever stored. */
  lemma {:induction false} OriginNeverChanges(ops: seq<Op>, i: nat, j: nat)
    requires i < |Replay(ops)| && j < |Replay(ops)| && Replay(ops)[i].uid == Replay(ops)[j].uid
    ensures Replay(ops)[i].version.kind == Replay(ops)[j].version.kind
    ensures Replay(ops)[i].version.createdAt == Replay(ops)[j].version.createdAt
  {
    OriginIs(ops, i);
    OriginIs(ops, j);
  }

  lemma {:induction false} OriginIs(ops: seq<Op>, i: nat)
    requires i < |Replay(ops)|
    ensures var row := Replay(ops)[i];
            var v := Latest(ops, row.uid);
            v.Some? && row.version.kind == v.value.kind && row.version.createdAt == v.value.createdAt
  {
    var before, op := ops[..|ops| - 1], ops[|ops| - 1];
    var rows, after := Replay(before), Replay(ops);
    var uid := after[i].uid;
    ReplaySays(before, uid);
    ReplaySays(ops, uid);
    assert Known(after, uid);
    if i < |rows| {
      assert rows[i].uid == uid && rows[i].version == after[i].version;
      OriginIs(before, i);
    } else if op.UpdateOp? {
      UpdateSays(rows, op.uid, op.content, op.now, uid, Latest(before, uid));
      assert HasCurrent(rows, uid);
    }
  }

  // ---- The store ----------------------------------------------------------

  class Store {
    var rows: seq<Row>

    constructor ()
      ensures rows == []
    {
      rows := [];
    }

    method Create(uid: string, kind: string, c: Content, now: Stamp)
      requires !Known(rows, uid)
      modifies this
      ensures rows == Apply(old(rows), CreateOp(uid, kind, c, now))
      ensures |rows| == |old(rows)| + 1 && rows[..|old(rows)|] == old(rows)
      ensures var r := rows[|old(rows)|];
              && r.uid == uid && r.version.kind == kind && r.version.validFrom == now && r.version.createdAt == now
              && r.validTo.None? && r.version.content.title == c.title && r.version.content.tags == c.tags
              && r.version.content.status == (if c.status == "" then "draft" else c.status)
              && r.version.content.changedBy == c.changedBy && r.version.content.changeReason == c.changeReason
    {
      var content := c;
      if content.status == "" {
        content := content.(status := DRAFT);
      }
      rows := rows + [Row(uid, Version(kind, content, now, now), None)];
    }

    /** False is the error for an unknown entity. */
    method Update(uid: string, c: Content, now: Stamp) returns (found: bool)
      modifies this
      ensures found <==> HasCurrent(old(rows), uid)
      ensures rows == Apply(old(rows), UpdateOp(uid, c, now))
      ensures !found ==> rows == old(rows)
      ensures found ==> |rows| == |old(rows)| + 1 && forall i :: 0 <= i < |old(rows)| ==>
                rows[i] == if old(rows)[i].uid == uid && old(rows)[i].validTo.None?
                           then old(rows)[i].(validTo := Some(now)) else old(rows)[i]
      ensures found ==>
                var r := rows[|old(rows)|];
                && r.uid == uid && r.version.content == c && r.version.validFrom == now && r.validTo.None?
                && exists e :: e in old(rows) && e.uid == uid && e.validTo.None?
                               && e.version.kind == r.version.kind && e.version.createdAt == r.version.createdAt
    {
      if !HasCurrent(rows, uid) {
        return false;
      }
      var v := CurrentVersion(rows, uid);
      ghost var k := CurrentVersionIn(rows, uid);
      assert rows[k] in old(rows);
      rows := MapSeq(rows, (r: Row) => CloseRow(r, uid, now)) + [Row(uid, v.(content := c, validFrom := now), None)];
      return true;
    }

    /** The valid row at asOf with the greatest valid_from. */
    method GetAt(uid: string, asOf: Stamp) returns (r: Option<Row>)
      ensures r.None? ==> forall i :: 0 <= i < |rows| && rows[i].uid == uid ==> !ValidAt(rows[i], asOf)
      ensures r.Some? ==> r.value in rows && r.value.uid == uid && ValidAt(r.value, asOf)
      ensures r.Some? ==> r.value.version.validFrom <= asOf && (r.value.validTo.None? || asOf < r.value.validTo.value)
      ensures r.None? ==> forall e :: e in rows && e.uid == uid && e.version.validFrom <= asOf ==>
                            e.validTo.Some? && e.validTo.value <= asOf
      ensures r.Some? ==> forall i :: 0 <= i < |rows| && rows[i].uid == uid && ValidAt(rows[i], asOf) ==>
                            rows[i].version.validFrom <= r.value.version.validFrom
    {
      r := None;
      for i := 0 to |rows|
        invariant r.None? ==> forall k :: 0 <= k < i && rows[k].uid == uid ==> !ValidAt(rows[k], asOf)
        invariant r.Some? ==> r.value in rows && r.value.uid == uid && ValidAt(r.value, asOf)
        invariant r.Some? ==> forall k :: 0 <= k < i && rows[k].uid == uid && ValidAt(rows[k], asOf) ==>
                                rows[k].version.validFrom <= r.value.version.validFrom
      {
        if rows[i].uid == uid && ValidAt(rows[i], asOf) {
          if r.None? || r.value.version.validFrom < rows[i].version.validFrom {
            r := Some(rows[i]);
          }
        }
      }
    }

    /** GetAt over a replayed table returns the effect of the entity's last
        operation at or before asOf, and nothing before its creation. */
    method GetAtReplays(ghost ops: seq<Op>, uid: string, asOf: Stamp) returns (r: Option<Row>)
      requires NonDecreasing(ops) && rows == Replay(ops)
      ensures r.None? <==> Latest(UpTo(ops, asOf), uid).None?
      ensures r.Some? ==> r.value.version == Latest(UpTo(ops, asOf), uid).value
    {
      r := GetAt(uid, asOf);
      VersionsTileTime(ops, uid, asOf);
    }
  }
}
