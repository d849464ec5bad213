/** The relationships table as a value: its rows, the two UPDATE/INSERT
    statements that change it, and what every reader asks of a row.
    A stamp is a reading of the clock; valid_to = '' is None. */
module EdgeModel {
  import opened Common
  import opened Sequences

  type Stamp = nat

  const OWNS := "owns"
  const DEPENDS_ON := "depends_on"

  datatype EdgeError = EmptyId | InvalidKind | SelfLoop | MissingValidFrom | DuplicateKey

  datatype Edge = Edge(srcKind: string, srcId: string, dstKind: string, dstId: string, kind: string,
                       metadata: string, validFrom: Stamp, validTo: Option<Stamp>,
                       createdBy: string, reason: string, createdAt: Stamp)

  /** What a caller supplies; the store stamps the rest. */
  datatype Draft = Draft(srcKind: string, srcId: string, dstKind: string, dstId: string, kind: string,
                         metadata: string, validFrom: Option<Stamp>, validTo: Option<Stamp>,
                         createdBy: string, reason: string)

  /** An edge keeps its identity across versions. */
  datatype Tuple = Tuple(src: string, dst: string, kind: string)

  /** Everything of a row that is fixed when it is inserted. Remove overwrites
      created_by and reason, so they are not part of it. */
  datatype Fact = Fact(srcKind: string, srcId: string, dstKind: string, dstId: string, kind: string,
                       metadata: string, validFrom: Stamp, createdAt: Stamp)

  predicate ValidEdgeKind(kind: string) {
    kind == OWNS || kind == DEPENDS_ON
  }

  function TupleOf(e: Edge): Tuple {
    Tuple(e.srcId, e.dstId, e.kind)
  }

  function DraftTuple(d: Draft): Tuple {
    Tuple(d.srcId, d.dstId, d.kind)
  }

  function FactOf(e: Edge): Fact {
    Fact(e.srcKind, e.srcId, e.dstKind, e.dstId, e.kind, e.metadata, e.validFrom, e.createdAt)
  }

  predicate Current(e: Edge) {
    e.validTo.None?
  }

  predicate ValidAt(e: Edge, t: Stamp) {
    e.validFrom <= t && (e.validTo.None? || t < e.validTo.value)
  }

  // ---- Writers ------------------------------------------------------------

  /** The checks shared by Create and the backfill writers, in their order. */
  function DraftError(d: Draft): Option<EdgeError> {
    if d.srcId == "" || d.dstId == "" then Some(EmptyId)
    else if d.srcKind == "" || d.dstKind == "" || !ValidEdgeKind(d.kind) then Some(InvalidKind)
    else if d.srcId == d.dstId then Some(SelfLoop)
    else None
  }

  function BackfillError(d: Draft): Option<EdgeError> {
    if DraftError(d).Some? then DraftError(d)
    else if d.validFrom.None? then Some(MissingValidFrom)
    else None
  }

  /** UPDATE ... SET valid_to = now WHERE tuple AND valid_to = ''. */
  function CloseRow(e: Edge, key: Tuple, now: Stamp): Edge {
    if TupleOf(e) == key && Current(e) then e.(validTo := Some(now)) else e
  }

  function CloseRows(rows: seq<Edge>, key: Tuple, now: Stamp): seq<Edge> {
    MapSeq(rows, e => CloseRow(e, key, now))
  }

  /** The same UPDATE as Remove issues it, with the attribution columns. */
  function RemoveRow(e: Edge, key: Tuple, actor: string, reason: string, now: Stamp): Edge {
    if TupleOf(e) == key && Current(e) then e.(validTo := Some(now), createdBy := actor, reason := reason) else e
  }

  function RemoveRows(rows: seq<Edge>, key: Tuple, actor: string, reason: string, now: Stamp): seq<Edge> {
    MapSeq(rows, e => RemoveRow(e, key, actor, reason, now))
  }

  predicate HasKey(rows: seq<Edge>, key: Tuple, validFrom: Stamp) {
    exists i :: 0 <= i < |rows| && TupleOf(rows[i]) == key && rows[i].validFrom == validFrom
  }

  predicate HasCurrent(rows: seq<Edge>, key: Tuple) {
    exists i :: 0 <= i < |rows| && TupleOf(rows[i]) == key && Current(rows[i])
  }

  function NewRow(d: Draft, validFrom: Stamp, validTo: Option<Stamp>, now: Stamp): Edge {
    Edge(d.srcKind, d.srcId, d.dstKind, d.dstId, d.kind, d.metadata, validFrom, validTo, d.createdBy, d.reason, now)
  }

  /** The row says what the draft says, field by field, and carries these stamps. */
  ghost predicate Records(e: Edge, d: Draft, validFrom: Stamp, validTo: Option<Stamp>, now: Stamp) {
    && e.srcKind == d.srcKind && e.srcId == d.srcId && e.dstKind == d.dstKind && e.dstId == d.dstId
    && e.kind == d.kind && e.metadata == d.metadata && e.createdBy == d.createdBy && e.reason == d.reason
    && e.validFrom == validFrom && e.validTo == validTo && e.createdAt == now
  }

  /** INSERT under PRIMARY KEY (src_id, dst_id, kind, valid_from). */
  function InsertRow(rows: seq<Edge>, e: Edge): Result<seq<Edge>, EdgeError> {
    if HasKey(rows, TupleOf(e), e.validFrom) then Err(DuplicateKey) else Ok(rows + [e])
  }

  /** Close then insert in one transaction; an error leaves the caller's table in force. */
  function CreateRows(rows: seq<Edge>, d: Draft, now: Stamp): Result<seq<Edge>, EdgeError> {
    if DraftError(d).Some? then Err(DraftError(d).value) else
      var validFrom := if d.validFrom.Some? then d.validFrom.value else now;
      InsertRow(CloseRows(rows, DraftTuple(d), now), NewRow(d, validFrom, None, now))
  }

  function BackfillRows(rows: seq<Edge>, d: Draft, now: Stamp): Result<seq<Edge>, EdgeError> {
    if BackfillError(d).Some? then Err(BackfillError(d).value)
    else InsertRow(rows, NewRow(d, d.validFrom.value, d.validTo, now))
  }

  // ---- Invariants ---------------------------------------------------------

  ghost predicate UniqueKeys(rows: seq<Edge>) {
    forall i, j :: 0 <= i < j < |rows| && TupleOf(rows[i]) == TupleOf(rows[j])
                   ==> rows[i].validFrom != rows[j].validFrom
  }

  ghost predicate OneCurrent(rows: seq<Edge>) {
    forall i, j :: 0 <= i < j < |rows| && TupleOf(rows[i]) == TupleOf(rows[j])
                   ==> !(Current(rows[i]) && Current(rows[j]))
  }

  /** No row is deleted, its facts never change, and once closed it is frozen. */
  ghost predicate Preserves(before: seq<Edge>, after: seq<Edge>) {
    && |before| <= |after|
    && forall i :: 0 <= i < |before| ==>
         && FactOf(after[i]) == FactOf(before[i])
         && (!Current(before[i]) ==> after[i] == before[i])
  }

  /** Create keeps at most one current row per tuple, whatever ValidFrom it is given. */
  lemma CreateKeepsTable(rows: seq<Edge>, d: Draft, now: Stamp)
    requires UniqueKeys(rows) && OneCurrent(rows) && CreateRows(rows, d, now).Ok?
    ensures var after := CreateRows(rows, d, now).value;
            && UniqueKeys(after) && OneCurrent(after) && Preserves(rows, after)
            && (forall i :: 0 <= i < |rows| && TupleOf(rows[i]) != DraftTuple(d) ==> after[i] == rows[i])
            && HasCurrent(after, DraftTuple(d))
  {
    var after := CreateRows(rows, d, now).value;
    assert TupleOf(after[|rows|]) == DraftTuple(d) && Current(after[|rows|]);
  }

  /** Closing rows changes no key. */
  lemma KeyStays(rows: seq<Edge>, key: Tuple, now: Stamp, validFrom: Stamp)
    ensures HasKey(CloseRows(rows, key, now), key, validFrom) <==>
              exists e :: e in rows && e.srcId == key.src && e.dstId == key.dst && e.kind == key.kind
                          && e.validFrom == validFrom
  {
    var closed := CloseRows(rows, key, now);
    if e :| e in rows && TupleOf(e) == key && e.validFrom == validFrom {
      var i :| 0 <= i < |rows| && rows[i] == e;
      assert TupleOf(closed[i]) == key && closed[i].validFrom == validFrom;
    }
    if HasKey(closed, key, validFrom) {
      var i :| 0 <= i < |closed| && TupleOf(closed[i]) == key && closed[i].validFrom == validFrom;
      assert TupleOf(rows[i]) == key && rows[i].validFrom == validFrom && rows[i] in rows;
    }
  }

  /** A successful Create closes the current rows of its tuple, changes no other, and
      adds one row that says what the draft says; it fails on rejected input and on a
      repeated primary key, and on nothing else. */
  lemma CreateInFields(rows: seq<Edge>, d: Draft, now: Stamp)
    ensures var r := CreateRows(rows, d, now);
            var validFrom := if d.validFrom.Some? then d.validFrom.value else now;
            && (r.Err? <==>
                  || d.srcId == "" || d.dstId == "" || d.srcKind == "" || d.dstKind == ""
                  || (d.kind != "owns" && d.kind != "depends_on") || d.srcId == d.dstId
                  || exists e :: e in rows && e.srcId == d.srcId && e.dstId == d.dstId && e.kind == d.kind
                                 && e.validFrom == validFrom)
            && (r == Err(EmptyId) <==> d.srcId == "" || d.dstId == "")
            && (r == Err(SelfLoop) ==> d.srcId == d.dstId && d.srcKind != "" && d.dstKind != "")
            && (r == Err(DuplicateKey) ==> d.srcId != d.dstId && d.srcKind != "" && d.dstKind != "")
            && r != Err(MissingValidFrom)
            && (r.Ok? ==>
                  && |r.value| == |rows| + 1
                  && (forall i :: 0 <= i < |rows| ==>
                        r.value[i] ==
                        if rows[i].srcId == d.srcId && rows[i].dstId == d.dstId && rows[i].kind == d.kind
                           && rows[i].validTo.None?
                        then rows[i].(validTo := Some(now)) else rows[i])
                  && Records(r.value[|rows|], d, validFrom, None, now))
  {
    var validFrom := if d.validFrom.Some? then d.validFrom.value else now;
    KeyStays(rows, DraftTuple(d), now, validFrom);
  }

  /** Remove in the same terms: the current rows of the tuple get the end stamp, the
      actor and the reason, and nothing else changes. */
  lemma RemoveInFields(rows: seq<Edge>, key: Tuple, actor: string, reason: string, now: Stamp)
    ensures var after := RemoveRows(rows, key, actor, reason, now);
            && |after| == |rows|
            && forall i :: 0 <= i < |rows| ==>
                 after[i] ==
                 if rows[i].srcId == key.src && rows[i].dstId == key.dst && rows[i].kind == key.kind
                    && rows[i].validTo.None?
                 then rows[i].(validTo := Some(now), createdBy := actor, reason := reason) else rows[i]
  {
  }

  lemma RemoveKeepsTable(rows: seq<Edge>, key: Tuple, actor: string, reason: string, now: Stamp)
    requires UniqueKeys(rows) && OneCurrent(rows)
    ensures var after := RemoveRows(rows, key, actor, reason, now);
            && UniqueKeys(after) && OneCurrent(after) && Preserves(rows, after)
            && |after| == |rows| && !HasCurrent(after, key)
            && (forall i :: 0 <= i < |rows| && TupleOf(rows[i]) != key ==> after[i] == rows[i])
  {
  }

  lemma PreservesTransitive(a: seq<Edge>, b: seq<Edge>, c: seq<Edge>)
    requires Preserves(a, b) && Preserves(b, c)
    ensures Preserves(a, c)
  {
  }

  // ---- Readers ------------------------------------------------------------

  predicate KindMatches(e: Edge, kind: string) {
    kind == "" || e.kind == kind
  }

  function OutgoingNow(src: string, kind: string): Edge -> bool {
    (e: Edge) => e.srcId == src && Current(e) && KindMatches(e, kind)
  }

  function OutgoingThen(src: string, kind: string, t: Stamp): Edge -> bool {
    (e: Edge) => e.srcId == src && ValidAt(e, t) && KindMatches(e, kind)
  }

  function IncomingNow(dst: string, kind: string): Edge -> bool {
    (e: Edge) => e.dstId == dst && Current(e) && KindMatches(e, kind)
  }

  function IncomingThen(dst: string, kind: string, t: Stamp): Edge -> bool {
    (e: Edge) => e.dstId == dst && ValidAt(e, t) && KindMatches(e, kind)
  }

  function OfTuple(key: Tuple): Edge -> bool {
    e => TupleOf(e) == key
  }

  function Facts(rows: seq<Edge>): seq<Fact> {
    MapSeq(rows, FactOf)
  }

  function FromKey(e: Edge): int {
    e.validFrom
  }

  /** SELECT ... WHERE tuple ORDER BY valid_from ASC. */
  function HistoryOf(rows: seq<Edge>, key: Tuple): seq<Edge> {
    StableSort(Select(rows, OfTuple(key)), FromKey)
  }

  /** Exactly the rows of the tuple, each as often as the table has it, by valid_from. */
  lemma HistoryInFields(rows: seq<Edge>, key: Tuple)
    ensures var h := HistoryOf(rows, key);
            && multiset(h) == multiset(Select(rows, OfTuple(key)))
            && (forall e :: e in h <==> e in rows && e.srcId == key.src && e.dstId == key.dst && e.kind == key.kind)
            && (forall i, j :: 0 <= i < j < |h| ==> h[i].validFrom <= h[j].validFrom)
  {
    var found, h := Select(rows, OfTuple(key)), HistoryOf(rows, key);
    StableSortCorrect(found, FromKey);
    forall e ensures e in h <==> e in rows && OfTuple(key)(e) {
      SelectIn(rows, OfTuple(key), e);
      assert e in multiset(h) <==> e in multiset(found);
    }
    assert forall i, j :: 0 <= i < j < |h| ==> FromKey(h[i]) <= FromKey(h[j]);
  }
}
