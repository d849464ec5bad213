/** The recursive graph walk: enumerate every path up to a depth, stable-sort
    by depth, keep the first row per id. Graphs may be cyclic. */
module EdgeWalk {
  import opened Common
  import opened Sequences
  import opened EdgeModel
  import EdgeHistory

  const MAX_WALK_DEPTH: nat := 100

  /** What a walk uses of a table row. */
  datatype Hop = Hop(src: string, dst: string, dstKind: string, kind: string)

  datatype WalkRow = WalkRow(id: string, kind: string, viaKind: string, viaSrc: string, depth: nat)

  function ClampDepth(maxDepth: int): nat {
    if maxDepth < 0 || maxDepth > MAX_WALK_DEPTH then MAX_WALK_DEPTH else maxDepth
  }

  predicate KindAllowed(kind: string, kinds: seq<string>) {
    kinds == [] || kind in kinds
  }

  function HopOf(e: Edge): Hop {
    Hop(e.srcId, e.dstId, e.dstKind, e.kind)
  }

  function FollowNow(kinds: seq<string>): Edge -> bool {
    (e: Edge) => Current(e) && KindAllowed(e.kind, kinds)
  }

  function FollowThen(kinds: seq<string>, t: Stamp): Edge -> bool {
    (e: Edge) => ValidAt(e, t) && KindAllowed(e.kind, kinds)
  }

  /** The edges a walk may follow now, and those it could have followed at t. */
  function HopsNow(rows: seq<Edge>, kinds: seq<string>): seq<Hop> {
    MapSeq(Select(rows, FollowNow(kinds)), HopOf)
  }

  function HopsThen(rows: seq<Edge>, kinds: seq<string>, t: Stamp): seq<Hop> {
    MapSeq(Select(rows, FollowThen(kinds, t)), HopOf)
  }

  // ---- The recursive query: UNION ALL, one row per path ----------------------

  function Children(w: WalkRow, hops: seq<Hop>): seq<WalkRow> {
    if hops == [] then [] else
      var h := hops[|hops| - 1];
      Children(w, hops[..|hops| - 1]) +
      if h.src == w.id then [WalkRow(h.dst, h.dstKind, h.kind, h.src, w.depth + 1)] else []
  }

  function Expand(level: seq<WalkRow>, hops: seq<Hop>): seq<WalkRow> {
    if level == [] then []
    else Expand(level[..|level| - 1], hops) + Children(level[|level| - 1], hops)
  }

  function Root(id: string, kind: string): WalkRow {
    WalkRow(id, kind, "", "", 0)
  }

  /** The rows at exactly depth n, one per path. */
  function Level(hops: seq<Hop>, root: WalkRow, n: nat): seq<WalkRow> {
    if n == 0 then [root] else Expand(Level(hops, root, n - 1), hops)
  }

  /** All rows of the query, down to the given depth. */
  function PathRows(hops: seq<Hop>, root: WalkRow, depth: nat): seq<WalkRow> {
    if depth == 0 then Level(hops, root, 0)
    else PathRows(hops, root, depth - 1) + Level(hops, root, depth)
  }

  function DepthKey(w: WalkRow): int {
    w.depth
  }

  // ---- What a walk must return --------------------------------------------

  /** The id reached by following p from the given one. */
  ghost function End(from: string, p: seq<Hop>): string {
    if p == [] then from else p[|p| - 1].dst
  }

  /** p is a path of edges from one id to another. */
  ghost predicate Path(hops: seq<Hop>, from: string, p: seq<Hop>, to: string) {
    && End(from, p) == to
    && forall i :: 0 <= i < |p| ==> p[i] in hops && p[i].src == End(from, p[..i])
  }

  ghost predicate InHops(hops: seq<Hop>, from: string, to: string, n: nat) {
    exists p :: |p| == n && Path(hops, from, p, to)
  }

  ghost predicate Shortest(hops: seq<Hop>, from: string, to: string, n: nat) {
    InHops(hops, from, to, n) && forall m: nat :: m < n ==> !InHops(hops, from, to, m)
  }

  ghost predicate Listed(out: seq<WalkRow>, id: string) {
    exists w :: w in out && w.id == id
  }

  /** w is what the recursive SELECT makes of parent and one of its outgoing edges. */
  ghost predicate ReachedFrom(hops: seq<Hop>, parent: WalkRow, w: WalkRow) {
    parent.id == w.viaSrc && parent.depth + 1 == w.depth && Hop(w.viaSrc, w.id, w.kind, w.viaKind) in hops
  }

  /** w was reached over a real edge from a returned row one level up. */
  ghost predicate HasParent(hops: seq<Hop>, out: seq<WalkRow>, w: WalkRow) {
    exists parent :: parent in out && ReachedFrom(hops, parent, w)
  }

  /** One row per id, in depth order. */
  ghost predicate Ascending(out: seq<WalkRow>) {
    forall i, j :: 0 <= i < j < |out| ==> out[i].id != out[j].id && out[i].depth <= out[j].depth
  }

  /** The rows form a shortest-path tree over the nodes within depth hops of
      the root, in depth order, one row per node. */
  ghost predicate ShortestPathTree(hops: seq<Hop>, root: WalkRow, depth: nat, out: seq<WalkRow>) {
    && out != [] && out[0] == root
    && Ascending(out)
    && (forall w :: w in out ==> w.depth <= depth && Shortest(hops, root.id, w.id, w.depth))
    && (forall id: string, n: nat :: n <= depth && InHops(hops, root.id, id, n) ==> Listed(out, id))
    && (forall w {:trigger HasParent(hops, out, w)} :: w in out && w != root ==> HasParent(hops, out, w))
  }

  // ---- The query enumerates exactly the paths -----------------------------

  lemma {:induction false} ChildrenIn(w: WalkRow, hops: seq<Hop>, c: WalkRow)
    ensures c in Children(w, hops) <==> ReachedFrom(hops, w, c)
  {
    if hops != [] {
      var last := |hops| - 1;
      ChildrenIn(w, hops[..last], c);
      assert hops == hops[..last] + [hops[last]];
    }
  }

  lemma {:induction false} ExpandIn(level: seq<WalkRow>, hops: seq<Hop>, c: WalkRow)
    ensures c in Expand(level, hops) <==> exists w :: w in level && ReachedFrom(hops, w, c)
  {
    if level != [] {
      var before, w := level[..|level| - 1], level[|level| - 1];
      ExpandIn(before, hops, c);
      ChildrenIn(w, hops, c);
      assert level == before + [w];
      assert c in Expand(level, hops) <==> c in Expand(before, hops) || c in Children(w, hops);
    }
  }

  /** w is a row at depth n, said without enumerating the level. */
  ghost predicate AtLevel(hops: seq<Hop>, root: WalkRow, n: nat, w: WalkRow) {
    if n == 0 then w == root else exists v :: AtLevel(hops, root, n - 1, v) && ReachedFrom(hops, v, w)
  }

  lemma {:induction false} LevelIn(hops: seq<Hop>, root: WalkRow, n: nat, w: WalkRow)
    ensures w in Level(hops, root, n) <==> AtLevel(hops, root, n, w)
  {
    if n > 0 {
      var m := n - 1;
      var level := Level(hops, root, m);
      ExpandIn(level, hops, w);
      forall v ensures v in level <==> AtLevel(hops, root, m, v) {
        LevelIn(hops, root, m, v);
      }
    }
  }

  lemma {:induction false} LevelDepth(hops: seq<Hop>, root: WalkRow, n: nat, w: WalkRow)
    requires root.depth == 0 && AtLevel(hops, root, n, w)
    ensures w.depth == n
  {
    if n > 0 {
      var v :| AtLevel(hops, root, n - 1, v) && ReachedFrom(hops, v, w);
      LevelDepth(hops, root, n - 1, v);
    }
  }

  lemma PathSnoc(hops: seq<Hop>, from: string, p: seq<Hop>, h: Hop)
    requires Path(hops, from, p, h.src) && h in hops
    ensures Path(hops, from, p + [h], h.dst) && InHops(hops, from, h.dst, |p| + 1)
  {
  }

  lemma ChildIsFurther(hops: seq<Hop>, from: string, v: WalkRow, w: WalkRow, n: nat)
    requires n > 0 && InHops(hops, from, v.id, n - 1) && ReachedFrom(hops, v, w)
    ensures InHops(hops, from, w.id, n)
  {
    var p :| |p| == n - 1 && Path(hops, from, p, v.id);
    PathSnoc(hops, from, p, Hop(w.viaSrc, w.id, w.kind, w.viaKind));
  }

  /** A row at depth n is the end of a path of n edges. */
  lemma {:induction false} LevelSound(hops: seq<Hop>, root: WalkRow, n: nat, w: WalkRow)
    requires AtLevel(hops, root, n, w)
    ensures InHops(hops, root.id, w.id, n)
  {
    if n == 0 {
      assert Path(hops, root.id, [], w.id);
    } else {
      var v :| AtLevel(hops, root, n - 1, v) && ReachedFrom(hops, v, w);
      LevelSound(hops, root, n - 1, v);
      ChildIsFurther(hops, root.id, v, w, n);
    }
  }

  lemma {:induction false} LevelComplete(hops: seq<Hop>, root: WalkRow, p: seq<Hop>, id: string)
    requires root.depth == 0 && Path(hops, root.id, p, id)
    ensures exists w :: AtLevel(hops, root, |p|, w) && w.id == id
    decreases |p|
  {
    if p == [] {
      assert AtLevel(hops, root, 0, root);
    } else {
      var q, h := p[..|p| - 1], p[|p| - 1];
      assert forall i :: 0 <= i < |q| ==> q[..i] == p[..i];
      LevelComplete(hops, root, q, h.src);
      var v :| AtLevel(hops, root, |q|, v) && v.id == h.src;
      LevelDepth(hops, root, |q|, v);
      var w := WalkRow(h.dst, h.dstKind, h.kind, h.src, |p|);
      assert ReachedFrom(hops, v, w) && AtLevel(hops, root, |p|, w);
    }
  }

  /** The query's rows are the ends of all paths within its depth. */
  lemma {:induction false} PathRowsIn(hops: seq<Hop>, root: WalkRow, depth: nat, w: WalkRow)
    requires root.depth == 0
    ensures w in PathRows(hops, root, depth) <==> w.depth <= depth && AtLevel(hops, root, w.depth, w)
  {
    LevelIn(hops, root, depth, w);
    if AtLevel(hops, root, depth, w) {
      LevelDepth(hops, root, depth, w);
    }
    if depth > 0 {
      PathRowsIn(hops, root, depth - 1, w);
      assert w in PathRows(hops, root, depth)
             <==> w in PathRows(hops, root, depth - 1) || w in Level(hops, root, depth);
    }
  }

  // ---- Dedup turns them into a shortest-path tree -------------------------

  /** The rows are the ends of all paths within the depth, in some order. */
  ghost predicate ListsAllPaths(hops: seq<Hop>, root: WalkRow, depth: nat, rows: seq<WalkRow>) {
    forall w :: w in rows <==> w.depth <= depth && AtLevel(hops, root, w.depth, w)
  }

  /** out has a row for w's id that is no deeper. */
  ghost predicate Covered(out: seq<WalkRow>, w: WalkRow) {
    exists v :: v in out && v.id == w.id && v.depth <= w.depth
  }

  /** out keeps the first row per id of sorted. */
  ghost predicate FirstPerId(sorted: seq<WalkRow>, out: seq<WalkRow>) {
    && Ascending(out)
    && (forall w {:trigger Covered(out, w)} :: w in sorted ==> Covered(out, w))
    && (forall w :: w in out ==> w in sorted)
    && (sorted != [] ==> out != [] && out[0] == sorted[0])
  }

  predicate HasId(out: seq<WalkRow>, id: string) {
    exists k :: 0 <= k < |out| && out[k].id == id
  }

  /** The rows that no earlier row shares its id with. */
  function FirstRows(rows: seq<WalkRow>): seq<WalkRow> {
    if rows == [] then [] else
      var kept, w := FirstRows(rows[..|rows| - 1]), rows[|rows| - 1];
      if HasId(kept, w.id) then kept else kept + [w]
  }

  lemma HasIdSnoc(out: seq<WalkRow>, w: WalkRow)
    ensures forall id :: HasId(out + [w], id) <==> HasId(out, id) || id == w.id
  {
    forall id ensures HasId(out + [w], id) <==> HasId(out, id) || id == w.id {
      assert (out + [w])[|out|] == w;
      if HasId(out, id) {
        var k :| 0 <= k < |out| && out[k].id == id;
        assert (out + [w])[k].id == id;
      }
    }
  }

  lemma {:induction false} FirstRowsArePerId(sorted: seq<WalkRow>)
    requires SortedBy(sorted, DepthKey)
    ensures FirstPerId(sorted, FirstRows(sorted))
  {
    if sorted != [] {
      var before, w := sorted[..|sorted| - 1], sorted[|sorted| - 1];
      FirstRowsArePerId(before);
      assert sorted == before + [w];
      forall v | v in before
        ensures v.depth <= w.depth
      {
        var k :| 0 <= k < |before| && before[k] == v;
        assert DepthKey(sorted[k]) <= DepthKey(sorted[|before|]);
      }
      FirstPerIdSnoc(before, FirstRows(before), w);
    }
  }

  lemma FirstPerIdSnoc(before: seq<WalkRow>, kept: seq<WalkRow>, w: WalkRow)
    requires FirstPerId(before, kept) && forall v :: v in before ==> v.depth <= w.depth
    ensures FirstPerId(before + [w], if HasId(kept, w.id) then kept else kept + [w])
  {
    if HasId(kept, w.id) {
      var k :| 0 <= k < |kept| && kept[k].id == w.id;
      assert kept[k] in kept && Covered(kept, w);
      assert before != [] by { assert kept[k] in before; }
    } else {
      AscendingSnoc(before, kept, w);
      CoveredSnoc(before, kept, w);
      if kept != [] {
        assert kept[0] in kept;
      }
    }
  }

  lemma AscendingSnoc(before: seq<WalkRow>, kept: seq<WalkRow>, w: WalkRow)
    requires Ascending(kept) && !HasId(kept, w.id)
    requires (forall v :: v in kept ==> v in before) && forall v :: v in before ==> v.depth <= w.depth
    ensures Ascending(kept + [w])
  {
  }

  lemma CoveredSnoc(before: seq<WalkRow>, kept: seq<WalkRow>, w: WalkRow)
    requires forall u {:trigger Covered(kept, u)} :: u in before ==> Covered(kept, u)
    ensures forall u {:trigger Covered(kept + [w], u)} :: u in before + [w] ==> Covered(kept + [w], u)
  {
    forall u | u in before + [w]
      ensures Covered(kept + [w], u)
    {
      if u in before {
        assert Covered(kept, u);
        var v :| v in kept && v.id == u.id && v.depth <= u.depth;
        assert v in kept + [w];
      } else {
        assert w in kept + [w];
      }
    }
  }

  /** A node within n hops has a kept row no deeper than n. */
  lemma KeptRowWithin(hops: seq<Hop>, root: WalkRow, depth: nat, sorted: seq<WalkRow>, out: seq<WalkRow>, id: string,
                      n: nat)
      returns (v: WalkRow)
    requires root.depth == 0 && ListsAllPaths(hops, root, depth, sorted) && FirstPerId(sorted, out)
    requires n <= depth && InHops(hops, root.id, id, n)
    ensures v in out && v.id == id && v.depth <= n
  {
    var p :| |p| == n && Path(hops, root.id, p, id);
    LevelComplete(hops, root, p, id);
    var u :| AtLevel(hops, root, n, u) && u.id == id;
    LevelDepth(hops, root, n, u);
    assert u in sorted && Covered(out, u);
    v :| v in out && v.id == u.id && v.depth <= u.depth;
  }

  lemma KeptRowIsShortest(hops: seq<Hop>, root: WalkRow, depth: nat, sorted: seq<WalkRow>, out: seq<WalkRow>,
                          w: WalkRow)
    requires root.depth == 0 && ListsAllPaths(hops, root, depth, sorted) && FirstPerId(sorted, out)
    requires w in out
    ensures w.depth <= depth && Shortest(hops, root.id, w.id, w.depth)
  {
    assert w in sorted;
    LevelSound(hops, root, w.depth, w);
    forall m: nat | m < w.depth
      ensures !InHops(hops, root.id, w.id, m)
    {
      if InHops(hops, root.id, w.id, m) {
        var v := KeptRowWithin(hops, root, depth, sorted, out, w.id, m);
        assert false;
      }
    }
  }

  lemma ParentNoCloser(hops: seq<Hop>, from: string, v: WalkRow, w: WalkRow, m: nat)
    requires Shortest(hops, from, w.id, w.depth) && ReachedFrom(hops, v, w) && InHops(hops, from, v.id, m)
    ensures w.depth <= m + 1
  {
    ChildIsFurther(hops, from, v, w, m + 1);
  }

  lemma RowHasPredecessor(hops: seq<Hop>, root: WalkRow, n: nat, w: WalkRow) returns (v: WalkRow)
    requires AtLevel(hops, root, n, w) && w != root
    ensures n > 0 && ReachedFrom(hops, v, w) && InHops(hops, root.id, v.id, n - 1)
  {
    v :| AtLevel(hops, root, n - 1, v) && ReachedFrom(hops, v, w);
    LevelSound(hops, root, n - 1, v);
  }

  lemma KeptRowHasParent(hops: seq<Hop>, root: WalkRow, depth: nat, sorted: seq<WalkRow>, out: seq<WalkRow>, w: WalkRow)
    requires root.depth == 0 && ListsAllPaths(hops, root, depth, sorted) && FirstPerId(sorted, out)
    requires w in out && w != root
    ensures HasParent(hops, out, w)
  {
    KeptRowIsShortest(hops, root, depth, sorted, out, w);
    var v := RowHasPredecessor(hops, root, w.depth, w);
    var parent := KeptRowWithin(hops, root, depth, sorted, out, v.id, w.depth - 1);
    KeptRowIsShortest(hops, root, depth, sorted, out, parent);
    ParentNoCloser(hops, root.id, v, w, parent.depth);
  }

  /** Sorting every path by depth and keeping the first row per id yields the
      shortest-path tree, whatever order the query returned its rows in. */
  lemma DedupIsShortestPathTree(hops: seq<Hop>, root: WalkRow, depth: nat, raw: seq<WalkRow>, out: seq<WalkRow>)
    requires root.depth == 0
    requires multiset(raw) == multiset(PathRows(hops, root, depth))
    requires FirstPerId(StableSort(raw, DepthKey), out)
    ensures ShortestPathTree(hops, root, depth, out)
  {
    var sorted, all := StableSort(raw, DepthKey), PathRows(hops, root, depth);
    StableSortCorrect(raw, DepthKey);
    forall w ensures w in sorted <==> w.depth <= depth && AtLevel(hops, root, w.depth, w) {
      assert w in sorted <==> w in multiset(sorted);
      assert w in all <==> w in multiset(all);
      PathRowsIn(hops, root, depth, w);
    }
    KeptRowsAreTree(hops, root, depth, sorted, out);
  }

  lemma KeptRowsAreTree(hops: seq<Hop>, root: WalkRow, depth: nat, sorted: seq<WalkRow>, out: seq<WalkRow>)
    requires root.depth == 0 && ListsAllPaths(hops, root, depth, sorted)
    requires SortedBy(sorted, DepthKey) && FirstPerId(sorted, out)
    ensures ShortestPathTree(hops, root, depth, out)
  {
    RootIsKeptFirst(hops, root, depth, sorted, out);
    forall w | w in out
      ensures w.depth <= depth && Shortest(hops, root.id, w.id, w.depth)
      ensures w != root ==> HasParent(hops, out, w)
    {
      KeptRowIsShortest(hops, root, depth, sorted, out, w);
      if w != root {
        KeptRowHasParent(hops, root, depth, sorted, out, w);
      }
    }
    forall id: string, n: nat | n <= depth && InHops(hops, root.id, id, n)
      ensures Listed(out, id)
    {
      var v := KeptRowWithin(hops, root, depth, sorted, out, id, n);
    }
  }

  lemma RootIsKeptFirst(hops: seq<Hop>, root: WalkRow, depth: nat, sorted: seq<WalkRow>, out: seq<WalkRow>)
    requires root.depth == 0 && ListsAllPaths(hops, root, depth, sorted)
    requires SortedBy(sorted, DepthKey) && FirstPerId(sorted, out)
    ensures out != [] && out[0] == root
  {
  }

  // ---- Consequences -------------------------------------------------------

  lemma LineageSnoc(hops: seq<Hop>, root: WalkRow, out: seq<WalkRow>, line: seq<WalkRow>, parent: WalkRow, w: WalkRow)
    requires Lineage(hops, root, out, line, parent) && w in out && ReachedFrom(hops, parent, w)
    ensures Lineage(hops, root, out, line + [w], w)
  {
  }

  /** line leads from the root down to w, each row reached over a real edge from
      the row before it. */
  ghost predicate Lineage(hops: seq<Hop>, root: WalkRow, out: seq<WalkRow>, line: seq<WalkRow>, w: WalkRow) {
    && line != [] && line[0] == root && line[|line| - 1] == w
    && (forall i :: 0 <= i < |line| ==> line[i] in out && line[i].depth == i)
    && (forall i :: 0 < i < |line| ==> ReachedFrom(hops, line[i - 1], line[i]))
  }

  /** Following via_src from any returned row leads back to the root in exactly
      its depth many steps. */
  lemma {:induction false} EveryRowDescendsFromRoot(hops: seq<Hop>, root: WalkRow, depth: nat, out: seq<WalkRow>,
                                                    w: WalkRow)
      returns (line: seq<WalkRow>)
    requires ShortestPathTree(hops, root, depth, out) && root.depth == 0 && w in out
    ensures Lineage(hops, root, out, line, w) && |line| == w.depth + 1
    decreases w.depth
  {
    if w == root {
      line := [root];
    } else {
      assert HasParent(hops, out, w);
      var parent :| parent in out && ReachedFrom(hops, parent, w);
      var above := EveryRowDescendsFromRoot(hops, root, depth, out, parent);
      LineageSnoc(hops, root, out, above, parent, w);
      line := above + [w];
    }
  }

  /** Two walks over the same edges can differ only in which of several equally
      short parents they name: ids and depths agree. */
  lemma WalkIsDetermined(hops: seq<Hop>, root: WalkRow, depth: nat, a: seq<WalkRow>, b: seq<WalkRow>)
    requires ShortestPathTree(hops, root, depth, a) && ShortestPathTree(hops, root, depth, b)
    ensures |a| == |b|
    ensures forall w :: w in a ==> exists v :: v in b && v.id == w.id && v.depth == w.depth
    ensures forall w :: w in b ==> exists v :: v in a && v.id == w.id && v.depth == w.depth
  {
    SameNodes(hops, root, depth, a, b);
    SameNodes(hops, root, depth, b, a);
    CountByInjection(a, b);
    CountByInjection(b, a);
  }

  lemma SameNodes(hops: seq<Hop>, root: WalkRow, depth: nat, a: seq<WalkRow>, b: seq<WalkRow>)
    requires ShortestPathTree(hops, root, depth, a) && ShortestPathTree(hops, root, depth, b)
    ensures forall w :: w in a ==> exists v :: v in b && v.id == w.id && v.depth == w.depth
  {
  }

  lemma {:induction false} CountByInjection(a: seq<WalkRow>, b: seq<WalkRow>)
    requires forall i, j :: 0 <= i < j < |a| ==> a[i].id != a[j].id
    requires forall w :: w in a ==> exists v :: v in b && v.id == w.id
    ensures |a| <= |b|
  {
    if a != [] {
      var last := a[|a| - 1];
      assert last in a;
      var k :| 0 <= k < |b| && b[k].id == last.id;
      var rest := b[..k] + b[k + 1..];
      forall w | w in a[..|a| - 1]
        ensures exists v :: v in rest && v.id == w.id
      {
        var i :| 0 <= i < |a| - 1 && a[i] == w;
        var v :| v in b && v.id == w.id;
        var m :| 0 <= m < |b| && b[m] == v;
        assert m != k;
        assert if m < k then rest[m] == v else rest[m - 1] == v;
      }
      CountByInjection(a[..|a| - 1], rest);
    }
  }

  // ---- Time travel --------------------------------------------------------

  function Reopen(e: Edge): Edge {
    e.(validTo := None)
  }

  /** The table holding only the rows valid at t, as current rows. */
  function Snapshot(rows: seq<Edge>, t: Stamp): seq<Edge> {
    MapSeq(Select(rows, (e: Edge) => ValidAt(e, t)), Reopen)
  }

  /** WalkAt at t follows exactly the edges Walk follows on the snapshot at t. */
  lemma {:induction false} WalkAtIsWalkOnSnapshot(rows: seq<Edge>, kinds: seq<string>, t: Stamp)
    ensures HopsThen(rows, kinds, t) == HopsNow(Snapshot(rows, t), kinds)
  {
    if rows != [] {
      var before, e := rows[..|rows| - 1], rows[|rows| - 1];
      WalkAtIsWalkOnSnapshot(before, kinds, t);
      if ValidAt(e, t) {
        assert Snapshot(rows, t) == Snapshot(before, t) + [Reopen(e)];
        SelectSnoc(Snapshot(before, t), Reopen(e), FollowNow(kinds));
      } else {
        assert Snapshot(rows, t) == Snapshot(before, t);
      }
    }
  }

  /** Once t has reached every stamp in the table the two walks follow the same edges. */
  lemma WalkAtIsWalkWhenLate(rows: seq<Edge>, kinds: seq<string>, t: Stamp)
    requires EdgeHistory.Bounded(rows, t)
    ensures HopsThen(rows, kinds, t) == HopsNow(rows, kinds)
  {
    SelectCongruence(rows, rows, FollowThen(kinds, t), FollowNow(kinds), HopOf, HopOf);
  }

  /** A walk at t over a replayed table follows exactly the edges a walk followed
      when only the operations stamped at or before t had run. */
  lemma WalkAtIsWalkThen(ops: seq<EdgeHistory.Op>, kinds: seq<string>, t: Stamp)
    requires EdgeHistory.NonDecreasing(ops)
    ensures HopsThen(EdgeHistory.Replay(ops), kinds, t)
         == HopsNow(EdgeHistory.Replay(EdgeHistory.UpTo(ops, t)), kinds)
  {
    EdgeHistory.AsOfAligns(ops, t);
    var full, then_ := EdgeHistory.Replay(ops), EdgeHistory.Replay(EdgeHistory.UpTo(ops, t));
    forall i | 0 <= i < |then_|
      ensures FollowThen(kinds, t)(full[i]) == FollowNow(kinds)(then_[i]) && HopOf(full[i]) == HopOf(then_[i])
    {
      assert FactOf(full[i]) == FactOf(then_[i]);
    }
    SelectCongruence(full, then_, FollowThen(kinds, t), FollowNow(kinds), HopOf, HopOf);
  }
}
