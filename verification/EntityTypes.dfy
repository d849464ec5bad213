/** Entity types: versioned names over stable ids. At most one current row per
    name (a unique index) and, over every run, at most one per type id. */
module EntityTypes {
  import opened Common
  import opened Sequences

  type Stamp = nat
  type Uid = nat  // a fresh UUID is the next number

  const DEFAULT_COLOR := "#6366f1"
  const DEFAULT_ICON := "Database"

  datatype Look = Look(displayName: string, description: string, color: string, icon: string)

  datatype Row = Row(uid: Uid, name: string, look: Look, validFrom: Stamp, validTo: Option<Stamp>)

  datatype State = State(rows: seq<Row>, next: Uid)

  predicate Current(r: Row) {
    r.validTo.None?
  }

  predicate Exists(rows: seq<Row>, name: string) {
    exists i :: 0 <= i < |rows| && rows[i].name == name && Current(rows[i])
  }

  predicate Holds(rows: seq<Row>, uid: Uid, name: string) {
    exists i :: 0 <= i < |rows| && rows[i].uid == uid && rows[i].name == name && Current(rows[i])
  }

  predicate IsCurrent(rows: seq<Row>, uid: Uid) {
    exists i :: 0 <= i < |rows| && rows[i].uid == uid && Current(rows[i])
  }

  function CloseRow(r: Row, name: string, now: Stamp): Row {
    if r.name == name && Current(r) then r.(validTo := Some(now)) else r
  }

  function CloseName(rows: seq<Row>, name: string, now: Stamp): seq<Row> {
    MapSeq(rows, (r: Row) => CloseRow(r, name, now))
  }

  function WithDefaults(look: Look): Look {
    look.(color := if look.color == "" then DEFAULT_COLOR else look.color,
          icon := if look.icon == "" then DEFAULT_ICON else look.icon)
  }

  /** A genuinely new type: its name's current row, if any, is closed. */
  function CreateType(s: State, name: string, look: Look, now: Stamp): State {
    State(CloseName(s.rows, name, now) + [Row(s.next, name, WithDefaults(look), now, None)], s.next + 1)
  }

  function UidOf(rows: seq<Row>, name: string): Uid
    requires Exists(rows, name)
  {
    var last := rows[|rows| - 1];
    if last.name == name && Current(last) then last.uid
    else
      assert Exists(rows[..|rows| - 1], name) by {
        var i :| 0 <= i < |rows| && rows[i].name == name && Current(rows[i]);
        assert rows[..|rows| - 1][i] == rows[i];
      }
      UidOf(rows[..|rows| - 1], name)
  }

  datatype TypeError = NotFound | NameTaken

  /** The same type under another name: close, then insert under the unique index. */
  function RenameType(s: State, oldName: string, newName: string, look: Look, now: Stamp): Result<State, TypeError> {
    if !Exists(s.rows, oldName) then Err(NotFound) else
      var uid := UidOf(s.rows, oldName);
      var closed := CloseName(s.rows, oldName, now);
      var named := if look.displayName == "" then look.(displayName := newName) else look;
      if Exists(closed, newName) then Err(NameTaken)
      else Ok(State(closed + [Row(uid, newName, WithDefaults(named), now, None)], s.next))
  }

  /** The look as stored: what is given, and a colour and an icon for want of one. */
  ghost predicate Shows(stored: Look, displayName: string, look: Look) {
    && stored.displayName == displayName && stored.description == look.description
    && stored.color == (if look.color == "" then "#6366f1" else look.color)
    && stored.icon == (if look.icon == "" then "Database" else look.icon)
  }

  /** after is before with the name's current rows closed, and one new current row. */
  ghost predicate Replaced(before: seq<Row>, after: seq<Row>, name: string, now: Stamp) {
    && |after| == |before| + 1
    && (forall i :: 0 <= i < |before| ==>
          after[i] == if before[i].name == name && before[i].validTo.None? then before[i].(validTo := Some(now))
                      else before[i])
    && after[|before|].validFrom == now && after[|before|].validTo.None?
  }

  // ---- Seed ---------------------------------------------------------------

  datatype Builtin = Builtin(name: string, look: Look)

  const BUILTINS: seq<Builtin> := [
    Builtin("skill", Look("Skill", "Governance rule or coding practice", "#f59e0b", "Wand2")),
    Builtin("product", Look("Product", "Top-level product with manifests and tasks", "#3b82f6", "Boxes")),
    Builtin("manifest", Look("Manifest", "Spec or plan that owns a set of tasks", "#a78bfa", "FileText")),
    Builtin("task", Look("Task", "Atomic execution unit run by an agent", "#10b981", "CheckSquare")),
    Builtin("idea", Look("Idea", "Unstructured concept or feature request", "#f97316", "Lightbulb")),
    Builtin("RAG", Look("RAG", "Retrieval-augmented generation knowledge source", "#06b6d4", "Database"))]

  /** The backfill UPDATE: only where a column still holds its default. */
  function BackfillRow(r: Row, b: Builtin): Row {
    if r.name == b.name && Current(r) && (r.look.color == DEFAULT_COLOR || r.look.icon == DEFAULT_ICON)
    then r.(look := r.look.(color := b.look.color, icon := b.look.icon)) else r
  }

  function SeedOne(s: State, b: Builtin, now: Stamp): State {
    if Exists(s.rows, b.name) then s.(rows := MapSeq(s.rows, (r: Row) => BackfillRow(r, b)))
    else CreateType(s, b.name, b.look, now)
  }

  function SeedAll(s: State, builtins: seq<Builtin>, now: Stamp): State {
    if builtins == [] then s
    else SeedOne(SeedAll(s, builtins[..|builtins| - 1], now), builtins[|builtins| - 1], now)
  }

  // ---- Runs ---------------------------------------------------------------

  datatype Op =
    | CreateOp(name: string, look: Look, now: Stamp)
    | RenameOp(oldName: string, newName: string, look: Look, now: Stamp)
    | SeedOp(now: Stamp)

  function Apply(s: State, op: Op): State {
    match op
    case CreateOp(name, look, now) => CreateType(s, name, look, now)
    case RenameOp(oldName, newName, look, now) =>
      var r := RenameType(s, oldName, newName, look, now);
      if r.Ok? then r.value else s
    case SeedOp(now) => SeedAll(s, BUILTINS, now)
  }

  function Run(s: State, ops: seq<Op>): State {
    if ops == [] then s else Apply(Run(s, ops[..|ops| - 1]), ops[|ops| - 1])
  }

  /** One current row per name, one per uid, and no uid from the future. */
  ghost predicate Inv(s: State) {
    && (forall i :: 0 <= i < |s.rows| ==> s.rows[i].uid < s.next)
    && (forall i, j :: 0 <= i < j < |s.rows| && Current(s.rows[i]) && Current(s.rows[j]) ==>
          s.rows[i].name != s.rows[j].name && s.rows[i].uid != s.rows[j].uid)
  }

  lemma {:induction false} UidOfHolds(rows: seq<Row>, name: string) returns (k: nat)
    requires Exists(rows, name)
    ensures k < |rows| && rows[k].uid == UidOf(rows, name) && rows[k].name == name && Current(rows[k])
  {
    var before, last := rows[..|rows| - 1], rows[|rows| - 1];
    if last.name == name && Current(last) {
      k := |rows| - 1;
    } else {
      assert Exists(before, name) by {
        var i :| 0 <= i < |rows| && rows[i].name == name && Current(rows[i]);
        assert before[i] == rows[i];
      }
      k := UidOfHolds(before, name);
    }
  }

  lemma CreateKeepsInv(s: State, name: string, look: Look, now: Stamp)
    requires Inv(s)
    ensures Inv(CreateType(s, name, look, now))
  {
  }

  lemma ClosedExists(rows: seq<Row>, oldName: string, newName: string, now: Stamp)
    ensures Exists(CloseName(rows, oldName, now), newName) <==> newName != oldName && Exists(rows, newName)
  {
  }

  /** Moving the one row of a name to a free name keeps names and uids unique. */
  lemma MoveKeepsInv(s: State, oldName: string, row: Row, now: Stamp, k: nat)
    requires Inv(s) && k < |s.rows| && Current(s.rows[k]) && s.rows[k].name == oldName && row.uid == s.rows[k].uid
    requires !Exists(CloseName(s.rows, oldName, now), row.name)
    ensures Inv(s.(rows := CloseName(s.rows, oldName, now) + [row]))
  {
  }

  /** Rename fails with no change when the old name is unknown or the new one is
      another type's; otherwise the new name carries the old one's uid. */
  lemma RenameCarriesUid(s: State, oldName: string, newName: string, look: Look, now: Stamp)
    requires Inv(s)
    ensures var r := RenameType(s, oldName, newName, look, now);
            && (r.Err? <==> !Exists(s.rows, oldName) || (newName != oldName && Exists(s.rows, newName)))
            && (r.Err? ==> Apply(s, RenameOp(oldName, newName, look, now)) == s)
            && (r.Ok? ==> Inv(r.value) && r.value.next == s.next && Holds(r.value.rows, UidOf(s.rows, oldName), newName)
                          && (newName != oldName ==> !Exists(r.value.rows, oldName)))
  {
    ClosedExists(s.rows, oldName, newName, now);
    ClosedExists(s.rows, oldName, oldName, now);
    var r := RenameType(s, oldName, newName, look, now);
    if r.Ok? {
      var k := UidOfHolds(s.rows, oldName);
      var after := r.value.rows;
      var row := after[|after| - 1];
      assert after == CloseName(s.rows, oldName, now) + [row];
      MoveKeepsInv(s, oldName, row, now, k);
      assert row.uid == UidOf(s.rows, oldName) && row.name == newName && Current(row);
    }
  }

  /** A successful Rename closes the old name's row and adds one with its uid, the new
      name and the given look, called by the new name for want of a display name. */
  lemma RenameInFields(s: State, oldName: string, newName: string, look: Look, now: Stamp)
    requires RenameType(s, oldName, newName, look, now).Ok?
    ensures var after := RenameType(s, oldName, newName, look, now).value.rows;
            && Replaced(s.rows, after, oldName, now)
            && Holds(s.rows, after[|s.rows|].uid, oldName) && after[|s.rows|].uid == UidOf(s.rows, oldName)
            && after[|s.rows|].name == newName
            && Shows(after[|s.rows|].look, if look.displayName == "" then newName else look.displayName, look)
  {
    var k := UidOfHolds(s.rows, oldName);
  }

  lemma SeedOneKeepsInv(s: State, b: Builtin, now: Stamp)
    requires Inv(s)
    ensures Inv(SeedOne(s, b, now))
    ensures forall uid: Uid, name :: Holds(s.rows, uid, name) ==> Holds(SeedOne(s, b, now).rows, uid, name)
    ensures forall uid: Uid :: uid < s.next && IsCurrent(SeedOne(s, b, now).rows, uid) ==> IsCurrent(s.rows, uid)
    ensures s.next <= SeedOne(s, b, now).next
  {
    var after := SeedOne(s, b, now).rows;
    forall i | 0 <= i < |s.rows|
      ensures after[i].uid == s.rows[i].uid && after[i].name == s.rows[i].name && after[i].validTo == s.rows[i].validTo
    {
    }
    forall uid: Uid, name | Holds(s.rows, uid, name)
      ensures Holds(after, uid, name)
    {
      var i :| 0 <= i < |s.rows| && s.rows[i].uid == uid && s.rows[i].name == name && Current(s.rows[i]);
      assert after[i].uid == uid;
    }
    if !Exists(s.rows, b.name) {
      CreateKeepsInv(s, b.name, b.look, now);
    }
  }

  lemma {:induction false} SeedKeepsInv(s: State, builtins: seq<Builtin>, now: Stamp)
    requires Inv(s)
    ensures Inv(SeedAll(s, builtins, now)) && s.next <= SeedAll(s, builtins, now).next
    ensures forall uid: Uid, name :: Holds(s.rows, uid, name) ==> Holds(SeedAll(s, builtins, now).rows, uid, name)
    ensures forall uid: Uid :: uid < s.next && IsCurrent(SeedAll(s, builtins, now).rows, uid) ==> IsCurrent(s.rows, uid)
  {
    if builtins != [] {
      SeedKeepsInv(s, builtins[..|builtins| - 1], now);
      SeedOneKeepsInv(SeedAll(s, builtins[..|builtins| - 1], now), builtins[|builtins| - 1], now);
    }
  }

  /** Over every run, at most one current row per name and per type id. */
  lemma {:induction false} EveryRunKeepsInv(s: State, ops: seq<Op>)
    requires Inv(s)
    ensures Inv(Run(s, ops))
  {
    if ops != [] {
      var before := Run(s, ops[..|ops| - 1]);
      EveryRunKeepsInv(s, ops[..|ops| - 1]);
      match ops[|ops| - 1]
      case CreateOp(name, look, now) => CreateKeepsInv(before, name, look, now);
      case RenameOp(oldName, newName, look, now) => RenameCarriesUid(before, oldName, newName, look, now);
      case SeedOp(now) => SeedKeepsInv(before, BUILTINS, now);
    }
  }

  // ---- How long an issued uid lives ---------------------------------------

  /** One operation ends an issued uid exactly when it is a Create on the name the
      uid holds; a uid that is not current never comes back. */
  lemma UidEndsOnlyByCreate(s: State, op: Op, uid: Uid)
    requires Inv(s) && uid < s.next
    ensures IsCurrent(Apply(s, op).rows, uid)
            <==> IsCurrent(s.rows, uid) && !(op.CreateOp? && Holds(s.rows, uid, op.name))
  {
    match op
    case CreateOp(name, look, now) => CreateEnds(s, name, look, now, uid);
    case RenameOp(oldName, newName, look, now) =>
      RenameCarriesUid(s, oldName, newName, look, now);
      if RenameType(s, oldName, newName, look, now).Ok? {
        RenameKeepsUids(s, oldName, newName, look, now, uid);
      }
    case SeedOp(now) =>
      SeedKeepsInv(s, BUILTINS, now);
      if IsCurrent(s.rows, uid) {
        var i :| 0 <= i < |s.rows| && s.rows[i].uid == uid && Current(s.rows[i]);
        assert Holds(s.rows, uid, s.rows[i].name);
        assert Holds(SeedAll(s, BUILTINS, now).rows, uid, s.rows[i].name);
      }
  }

  lemma CreateEnds(s: State, name: string, look: Look, now: Stamp, uid: Uid)
    requires Inv(s) && uid < s.next
    ensures IsCurrent(CreateType(s, name, look, now).rows, uid) <==> IsCurrent(s.rows, uid) && !Holds(s.rows, uid, name)
  {
    var after := CreateType(s, name, look, now).rows;
    if IsCurrent(s.rows, uid) && !Holds(s.rows, uid, name) {
      var i :| 0 <= i < |s.rows| && s.rows[i].uid == uid && Current(s.rows[i]);
      assert after[i] == s.rows[i];
    }
    if IsCurrent(after, uid) {
      var i :| 0 <= i < |after| && after[i].uid == uid && Current(after[i]);
      assert i < |s.rows| && after[i] == s.rows[i] && s.rows[i].name != name;
    }
  }

  lemma RenameKeepsUids(s: State, oldName: string, newName: string, look: Look, now: Stamp, uid: Uid)
    requires Inv(s) && RenameType(s, oldName, newName, look, now).Ok?
    ensures IsCurrent(RenameType(s, oldName, newName, look, now).value.rows, uid) <==> IsCurrent(s.rows, uid)
  {
    var after := RenameType(s, oldName, newName, look, now).value.rows;
    var k := UidOfHolds(s.rows, oldName);
    var moved := s.rows[k].uid;
    assert after[|s.rows|].uid == moved && Current(after[|s.rows|]);
    if IsCurrent(s.rows, uid) && uid != moved {
      var i :| 0 <= i < |s.rows| && s.rows[i].uid == uid && Current(s.rows[i]);
      assert i != k && s.rows[i].name != oldName;
      assert after[i] == s.rows[i];
    }
    if IsCurrent(after, uid) && uid != moved {
      var i :| 0 <= i < |after| && after[i].uid == uid && Current(after[i]);
      assert i < |s.rows| && after[i] == s.rows[i];
    }
  }

  /** No operation of the run is a Create on the name uid holds when it runs. */
  ghost predicate Spared(s: State, ops: seq<Op>, uid: Uid) {
    ops == [] ||
    var before, op := ops[..|ops| - 1], ops[|ops| - 1];
    Spared(s, before, uid) && !(op.CreateOp? && Holds(Run(s, before).rows, uid, op.name))
  }

  /** An issued uid stays current through a run exactly when no Create of the run
      falls on the name it then holds, however often it is renamed. */
  lemma {:induction false} UidLivesUntilCreate(s: State, ops: seq<Op>, uid: Uid)
    requires Inv(s) && IsCurrent(s.rows, uid)
    ensures IsCurrent(Run(s, ops).rows, uid) <==> Spared(s, ops, uid)
    ensures uid < Run(s, ops).next
  {
    if ops != [] {
      var before, op := ops[..|ops| - 1], ops[|ops| - 1];
      UidLivesUntilCreate(s, before, uid);
      EveryRunKeepsInv(s, before);
      UidEndsOnlyByCreate(Run(s, before), op, uid);
      if op.RenameOp? {
        RenameCarriesUid(Run(s, before), op.oldName, op.newName, op.look, op.now);
      } else if op.SeedOp? {
        SeedKeepsInv(Run(s, before), BUILTINS, op.now);
      }
    }
  }

  // ---- Seeding twice ------------------------------------------------------

  /** The built-in's row exists and the backfill has nothing left to do on it. */
  ghost predicate Settled(rows: seq<Row>, b: Builtin) {
    Exists(rows, b.name) && forall i :: 0 <= i < |rows| ==> BackfillRow(rows[i], b) == rows[i]
  }

  lemma SeedOneSettles(s: State, b: Builtin, now: Stamp)
    requires b.look == WithDefaults(b.look)
    ensures Settled(SeedOne(s, b, now).rows, b)
    ensures Settled(s.rows, b) ==> SeedOne(s, b, now) == s
  {
    var after := SeedOne(s, b, now).rows;
    if Exists(s.rows, b.name) {
      var i :| 0 <= i < |s.rows| && s.rows[i].name == b.name && Current(s.rows[i]);
      assert after[i].name == b.name && Current(after[i]);
    } else {
      assert after[|s.rows|].name == b.name && Current(after[|s.rows|]);
    }
  }

  lemma SeedOneSpares(s: State, b: Builtin, other: Builtin, now: Stamp)
    requires b.name != other.name && Settled(s.rows, other)
    ensures Settled(SeedOne(s, b, now).rows, other)
  {
    var after := SeedOne(s, b, now).rows;
    var i :| 0 <= i < |s.rows| && s.rows[i].name == other.name && Current(s.rows[i]);
    assert after[i] == s.rows[i];
    forall j | 0 <= j < |after|
      ensures BackfillRow(after[j], other) == after[j]
    {
      if j < |s.rows| {
        assert BackfillRow(s.rows[j], other) == s.rows[j];
      }
    }
  }

  ghost predicate Seedable(builtins: seq<Builtin>) {
    && (forall i, j :: 0 <= i < j < |builtins| ==> builtins[i].name != builtins[j].name)
    && (forall i :: 0 <= i < |builtins| ==> builtins[i].look == WithDefaults(builtins[i].look))
  }

  lemma {:induction false} SeedSettles(s: State, builtins: seq<Builtin>, now: Stamp)
    requires Seedable(builtins)
    ensures forall i :: 0 <= i < |builtins| ==> Settled(SeedAll(s, builtins, now).rows, builtins[i])
  {
    if builtins != [] {
      var before, b := builtins[..|builtins| - 1], builtins[|builtins| - 1];
      SeedSettles(s, before, now);
      SeedOneSettles(SeedAll(s, before, now), b, now);
      forall i | 0 <= i < |before|
        ensures Settled(SeedAll(s, builtins, now).rows, builtins[i])
      {
        assert Settled(SeedAll(s, before, now).rows, before[i]);
        SeedOneSpares(SeedAll(s, before, now), b, before[i], now);
      }
    }
  }

  lemma {:induction false} SeedOfSettled(s: State, builtins: seq<Builtin>, now: Stamp)
    requires Seedable(builtins) && forall i :: 0 <= i < |builtins| ==> Settled(s.rows, builtins[i])
    ensures SeedAll(s, builtins, now) == s
  {
    if builtins != [] {
      SeedOfSettled(s, builtins[..|builtins| - 1], now);
      SeedOneSettles(s, builtins[|builtins| - 1], now);
    }
  }

  /** Seeding is idempotent: a second Seed changes nothing at all, and after the
      first every built-in type is current. */
  lemma SeedIsIdempotent(s: State, now: Stamp, later: Stamp)
    ensures var once := Apply(s, SeedOp(now));
            && Apply(once, SeedOp(later)) == once
            && forall i :: 0 <= i < |BUILTINS| ==> Exists(once.rows, BUILTINS[i].name)
  {
    BuiltinsSeedable();
    SeedSettles(s, BUILTINS, now);
    SeedOfSettled(Apply(s, SeedOp(now)), BUILTINS, later);
  }

  /** A built-in type whose colour or icon is still the default gets its own. */
  function Restyled(r: Row, b: Builtin): Row {
    if r.validTo.None? && (r.look.color == "#6366f1" || r.look.icon == "Database")
    then Row(r.uid, r.name, Look(r.look.displayName, r.look.description, b.look.color, b.look.icon), r.validFrom, None)
    else r
  }

  /** The row is that of a built-in type the table did not have. */
  ghost predicate SeededRow(before: seq<Row>, builtins: seq<Builtin>, now: Stamp, r: Row) {
    exists b :: b in builtins && !Exists(before, b.name) && r.name == b.name && r.look == b.look
                && r.validFrom == now && r.validTo.None?
  }

  ghost predicate HasRowFrom(rows: seq<Row>, n: nat, name: string) {
    exists i :: n <= i < |rows| && rows[i].name == name
  }

  /** What seeding leaves: every row of a built-in type restyled, every other row as it
      was, and one new row for each built-in type that was missing. */
  ghost predicate Seeded(before: seq<Row>, after: seq<Row>, builtins: seq<Builtin>, now: Stamp) {
    && |before| <= |after|
    && (forall i, b :: 0 <= i < |before| && b in builtins && b.name == before[i].name ==>
          after[i] == Restyled(before[i], b))
    && (forall i :: 0 <= i < |before| && (forall b :: b in builtins ==> b.name != before[i].name) ==>
          after[i] == before[i])
    && (forall i :: |before| <= i < |after| ==> SeededRow(before, builtins, now, after[i]))
    && (forall b :: b in builtins && !Exists(before, b.name) ==> HasRowFrom(after, |before|, b.name))
  }

  lemma SeededExists(before: seq<Row>, after: seq<Row>, builtins: seq<Builtin>, now: Stamp, name: string)
    requires Seeded(before, after, builtins, now) && forall b :: b in builtins ==> b.name != name
    ensures Exists(after, name) <==> Exists(before, name)
  {
    forall i | 0 <= i < |before| ensures after[i].name == before[i].name && after[i].validTo == before[i].validTo {
      if b :| b in builtins && b.name == before[i].name {
        assert after[i] == Restyled(before[i], b);
      }
    }
    if Exists(before, name) {
      var i :| 0 <= i < |before| && before[i].name == name && Current(before[i]);
      assert after[i].name == name && Current(after[i]);
    }
    if Exists(after, name) {
      var i :| 0 <= i < |after| && after[i].name == name && Current(after[i]);
      assert i >= |before| ==> SeededRow(before, builtins, now, after[i]);
      assert i < |before| && before[i].name == name && Current(before[i]);
    }
  }

  lemma SeededSnoc(before: seq<Row>, mid: State, builtins: seq<Builtin>, b: Builtin, now: Stamp)
    requires Seeded(before, mid.rows, builtins, now) && b.look == WithDefaults(b.look)
    requires forall c :: c in builtins ==> c.name != b.name
    ensures Seeded(before, SeedOne(mid, b, now).rows, builtins + [b], now)
  {
    var after, all := SeedOne(mid, b, now).rows, builtins + [b];
    SeededExists(before, mid.rows, builtins, now, b.name);
    forall i | 0 <= i < |mid.rows|
      ensures after[i] == if Exists(before, b.name) then BackfillRow(mid.rows[i], b) else mid.rows[i]
    {
    }
    forall i | 0 <= i < |before|
      ensures forall c :: c in all && c.name == before[i].name ==> after[i] == Restyled(before[i], c)
      ensures (forall c :: c in all ==> c.name != before[i].name) ==> after[i] == before[i]
    {
      RowSeeded(before, mid.rows, after, builtins, b, now, i);
    }
    forall i | |before| <= i < |after|
      ensures SeededRow(before, all, now, after[i])
    {
      if i < |mid.rows| {
        assert SeededRow(before, builtins, now, mid.rows[i]);
        var c :| c in builtins && !Exists(before, c.name) && mid.rows[i].name == c.name && mid.rows[i].look == c.look
                 && mid.rows[i].validFrom == now && mid.rows[i].validTo.None?;
        assert c in all && after[i] == mid.rows[i];
      } else {
        assert b in all && after[i] == Row(mid.next, b.name, b.look, now, None);
      }
    }
    forall c | c in all && !Exists(before, c.name)
      ensures HasRowFrom(after, |before|, c.name)
    {
      if c in builtins {
        assert HasRowFrom(mid.rows, |before|, c.name);
        var i :| |before| <= i < |mid.rows| && mid.rows[i].name == c.name;
        assert after[i].name == c.name;
      } else {
        assert after[|mid.rows|].name == b.name;
      }
    }
  }

  lemma RowSeeded(before: seq<Row>, mid: seq<Row>, after: seq<Row>, builtins: seq<Builtin>, b: Builtin, now: Stamp,
                  i: nat)
    requires Seeded(before, mid, builtins, now) && i < |before| && |mid| <= |after|
    requires forall c :: c in builtins ==> c.name != b.name
    requires after[i] == if Exists(before, b.name) then BackfillRow(mid[i], b) else mid[i]
    ensures forall c :: c in builtins + [b] && c.name == before[i].name ==> after[i] == Restyled(before[i], c)
    ensures (forall c :: c in builtins + [b] ==> c.name != before[i].name) ==> after[i] == before[i]
  {
    assert b in builtins + [b];
    if before[i].name == b.name {
      assert mid[i] == before[i];
      assert Current(before[i]) ==> Exists(before, b.name);
    } else if c :| c in builtins && c.name == before[i].name {
      assert mid[i] == Restyled(before[i], c) && mid[i].name != b.name;
      assert c in builtins + [b];
    } else {
      assert mid[i] == before[i];
    }
  }

  lemma {:induction false} SeedInFields(s: State, builtins: seq<Builtin>, now: Stamp)
    requires Seedable(builtins)
    ensures Seeded(s.rows, SeedAll(s, builtins, now).rows, builtins, now)
  {
    if builtins != [] {
      var rest, b := builtins[..|builtins| - 1], builtins[|builtins| - 1];
      SeedInFields(s, rest, now);
      SeededSnoc(s.rows, SeedAll(s, rest, now), rest, b, now);
      assert rest + [b] == builtins;
    }
  }

  lemma BuiltinsSeedable()
    ensures Seedable(BUILTINS)
  {
    BuiltinNamesDiffer();
  }

  lemma BuiltinNamesDiffer()
    ensures forall i, j :: 0 <= i < j < |BUILTINS| ==> BUILTINS[i].name != BUILTINS[j].name
  {
  }

  // ---- The store ----------------------------------------------------------

  class Store {
    var rows: seq<Row>
    var next: Uid

    ghost predicate Valid()
      reads this
    {
      Inv(AsState())
    }

    ghost function AsState(): State
      reads this
    {
      State(rows, next)
    }

    constructor ()
      ensures Valid() && rows == []
    {
      rows, next := [], 0;
    }

    method Create(name: string, look: Look, now: Stamp) returns (uid: Uid)
      requires Valid()
      modifies this
      ensures Valid() && uid == old(next) && Holds(rows, uid, name)
      ensures AsState() == Apply(old(AsState()), CreateOp(name, look, now))
      ensures Replaced(old(rows), rows, name, now) && next == uid + 1
      ensures var row := rows[|old(rows)|];
              row.uid == uid && row.name == name && Shows(row.look, look.displayName, look)
    {
      CreateKeepsInv(AsState(), name, look, now);
      uid := next;
      var row := Row(uid, name, WithDefaults(look), now, None);
      rows := CloseName(rows, name, now) + [row];
      next := next + 1;
      assert rows[|rows| - 1] == row;
    }

    method Rename(oldName: string, newName: string, look: Look, now: Stamp) returns (r: Result<Uid, TypeError>)
      requires Valid()
      modifies this
      ensures Valid()
      ensures AsState() == Apply(old(AsState()), RenameOp(oldName, newName, look, now))
      ensures r.Err? <==> !Exists(old(rows), oldName) || (newName != oldName && Exists(old(rows), newName))
      ensures r.Err? ==> r.error == if Exists(old(rows), oldName) then NameTaken else NotFound
      ensures r.Ok? ==> r.value == UidOf(old(rows), oldName) && Holds(rows, r.value, newName)
      ensures r.Err? ==> rows == old(rows)
      ensures r.Ok? ==> Holds(old(rows), r.value, oldName) && Replaced(old(rows), rows, oldName, now)
      ensures r.Ok? ==>
                var row := rows[|old(rows)|];
                && row.uid == r.value && row.name == newName
                && Shows(row.look, if look.displayName == "" then newName else look.displayName, look)
    {
      RenameCarriesUid(AsState(), oldName, newName, look, now);
      var l := look;
      if l.displayName == "" {
        l := l.(displayName := newName);
      }
      if !Exists(rows, oldName) {
        return Err(NotFound);
      }
      var uid := UidOf(rows, oldName);
      var tx := CloseName(rows, oldName, now);
      if Exists(tx, newName) {
        return Err(NameTaken);
      }
      RenameInFields(AsState(), oldName, newName, look, now);
      rows := tx + [Row(uid, newName, WithDefaults(l), now, None)];
      return Ok(uid);
    }

    method Seed(now: Stamp)
      requires Valid()
      modifies this
      ensures Valid()
      ensures AsState() == Apply(old(AsState()), SeedOp(now))
      ensures Seeded(old(rows), rows, BUILTINS, now)
    {
      BuiltinsSeedable();
      SeedInFields(AsState(), BUILTINS, now);
      SeedList(BUILTINS, now);
    }

    method SeedList(builtins: seq<Builtin>, now: Stamp)
      requires Valid()
      modifies this
      ensures Valid()
      ensures AsState() == SeedAll(old(AsState()), builtins, now)
    {
      for i := 0 to |builtins|
        invariant Valid() && AsState() == SeedAll(old(AsState()), builtins[..i], now)
      {
        var b := builtins[i];
        assert builtins[..i + 1][..i] == builtins[..i];
        if Exists(rows, b.name) {
          SeedOneKeepsInv(AsState(), b, now);
          rows := MapSeq(rows, (r: Row) => BackfillRow(r, b));
        } else {
          var _ := Create(b.name, b.look, now);
        }
      }
      assert builtins[..|builtins|] == builtins;
    }
  }
}
