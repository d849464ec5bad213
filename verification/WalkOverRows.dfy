/** What a walk answers, in terms of the table's own rows: chains of edges that are
    live at the time asked about, of the kinds asked for. */
module WalkOverRows {
  import opened Common
  import opened Sequences
  import opened EdgeModel
  import opened EdgeWalk

  /** The row is open, or for a walk in the past valid at that time; and its kind is
      one of those asked for, none standing for any. */
  ghost predicate Live(rows: seq<Edge>, kinds: seq<string>, asOf: Option<Stamp>, e: Edge) {
    && e in rows
    && (asOf.None? ==> e.validTo.None?)
    && (asOf.Some? ==> e.validFrom <= asOf.value && (e.validTo.None? || asOf.value < e.validTo.value))
    && (kinds == [] || e.kind in kinds)
  }

  /** p is a chain of live rows, each starting where the one before it ends. */
  ghost predicate Chain(rows: seq<Edge>, kinds: seq<string>, asOf: Option<Stamp>, from: string, p: seq<Edge>,
                        to: string) {
    && (forall i :: 0 <= i < |p| ==> Live(rows, kinds, asOf, p[i]))
    && (forall i, j :: 0 <= i && i + 1 == j < |p| ==> p[j].srcId == p[i].dstId)
    && (if p == [] then from == to else p[0].srcId == from && p[|p| - 1].dstId == to)
  }

  ghost predicate InEdges(rows: seq<Edge>, kinds: seq<string>, asOf: Option<Stamp>, from: string, to: string, n: nat) {
    exists p :: |p| == n && Chain(rows, kinds, asOf, from, p, to)
  }

  /** The shortest chain to the node has n edges. */
  ghost predicate Away(rows: seq<Edge>, kinds: seq<string>, asOf: Option<Stamp>, from: string, to: string, n: nat) {
    && InEdges(rows, kinds, asOf, from, to, n)
    && forall m: nat :: m < n ==> !InEdges(rows, kinds, asOf, from, to, m)
  }

  /** The answer has a row for the node at that depth. */
  ghost predicate ListedAt(out: seq<WalkRow>, id: string, n: nat) {
    exists w :: w in out && w.id == id && w.depth == n
  }

  /** A live row leads to the node of w from the node of a row one level up. */
  ghost predicate Arrives(rows: seq<Edge>, kinds: seq<string>, asOf: Option<Stamp>, out: seq<WalkRow>, w: WalkRow) {
    exists e, parent ::
      && Live(rows, kinds, asOf, e)
      && e.srcId == w.viaSrc && e.dstId == w.id && e.dstKind == w.kind && e.kind == w.viaKind
      && parent in out && parent.id == e.srcId && parent.depth + 1 == w.depth
  }

  /** The answer of a walk: the root first, one row per node, by depth; a node is
      listed exactly when a chain of at most limit live rows leads to it, at the
      length of the shortest; and each row but the root's says over which live row
      it was reached. */
  ghost predicate Answers(rows: seq<Edge>, kinds: seq<string>, asOf: Option<Stamp>, rootId: string, rootKind: string,
                          limit: nat, out: seq<WalkRow>) {
    && out != [] && out[0] == WalkRow(rootId, rootKind, "", "", 0)
    && (forall i, j :: 0 <= i < j < |out| ==> out[i].id != out[j].id && out[i].depth <= out[j].depth)
    && (forall id: string, n: nat ::
          ListedAt(out, id, n) <==> n <= limit && Away(rows, kinds, asOf, rootId, id, n))
    && (forall w {:trigger Arrives(rows, kinds, asOf, out, w)} :: w in out && w != out[0] ==>
          Arrives(rows, kinds, asOf, out, w))
  }

  // ---- Hops are live rows -----------------------------------------------------

  /** The hops are those of the live rows. */
  ghost predicate HopsOfLive(hops: seq<Hop>, rows: seq<Edge>, kinds: seq<string>, asOf: Option<Stamp>) {
    && (forall h :: h in hops ==> exists e :: Live(rows, kinds, asOf, e) && HopOf(e) == h)
    && (forall e :: Live(rows, kinds, asOf, e) ==> HopOf(e) in hops)
  }

  lemma SelectedHops(rows: seq<Edge>, follow: Edge -> bool, kinds: seq<string>, asOf: Option<Stamp>)
    requires forall e :: Live(rows, kinds, asOf, e) <==> e in rows && follow(e)
    ensures HopsOfLive(MapSeq(Select(rows, follow), HopOf), rows, kinds, asOf)
  {
    var found := Select(rows, follow);
    var hops := MapSeq(found, HopOf);
    forall e ensures e in found <==> Live(rows, kinds, asOf, e) {
      SelectIn(rows, follow, e);
    }
    forall h | h in hops
      ensures exists e :: Live(rows, kinds, asOf, e) && HopOf(e) == h
    {
      var i :| 0 <= i < |hops| && hops[i] == h;
      assert found[i] in found;
    }
    forall e | Live(rows, kinds, asOf, e)
      ensures HopOf(e) in hops
    {
      var i :| 0 <= i < |found| && found[i] == e;
      assert hops[i] == HopOf(e);
    }
  }

  lemma HopsNowAreLive(rows: seq<Edge>, kinds: seq<string>)
    ensures HopsOfLive(HopsNow(rows, kinds), rows, kinds, None)
  {
    SelectedHops(rows, FollowNow(kinds), kinds, None);
  }

  lemma HopsThenAreLive(rows: seq<Edge>, kinds: seq<string>, t: Stamp)
    ensures HopsOfLive(HopsThen(rows, kinds, t), rows, kinds, Some(t))
  {
    SelectedHops(rows, FollowThen(kinds, t), kinds, Some(t));
  }

  // ---- Paths of hops are chains of rows ---------------------------------------

  lemma ChainSnoc(rows: seq<Edge>, kinds: seq<string>, asOf: Option<Stamp>, from: string, p: seq<Edge>, e: Edge)
    requires Chain(rows, kinds, asOf, from, p, e.srcId) && Live(rows, kinds, asOf, e)
    ensures Chain(rows, kinds, asOf, from, p + [e], e.dstId)
  {
  }

  lemma ChainFront(rows: seq<Edge>, kinds: seq<string>, asOf: Option<Stamp>, from: string, p: seq<Edge>, to: string)
    requires p != [] && Chain(rows, kinds, asOf, from, p, to)
    ensures var e := p[|p| - 1];
            Chain(rows, kinds, asOf, from, p[..|p| - 1], e.srcId) && Live(rows, kinds, asOf, e) && e.dstId == to
  {
  }

  lemma {:induction false} PathIsChain(hops: seq<Hop>, rows: seq<Edge>, kinds: seq<string>, asOf: Option<Stamp>,
                                       from: string, p: seq<Hop>, to: string)
      returns (q: seq<Edge>)
    requires HopsOfLive(hops, rows, kinds, asOf) && Path(hops, from, p, to)
    ensures |q| == |p| && Chain(rows, kinds, asOf, from, q, to)
  {
    if p == [] {
      q := [];
    } else {
      var before, h := p[..|p| - 1], p[|p| - 1];
      assert forall i :: 0 <= i < |before| ==> before[..i] == p[..i];
      q := PathIsChain(hops, rows, kinds, asOf, from, before, h.src);
      var e :| Live(rows, kinds, asOf, e) && HopOf(e) == h;
      ChainSnoc(rows, kinds, asOf, from, q, e);
      q := q + [e];
    }
  }

  lemma {:induction false} ChainIsPath(hops: seq<Hop>, rows: seq<Edge>, kinds: seq<string>, asOf: Option<Stamp>,
                                       from: string, p: seq<Edge>, to: string)
      returns (q: seq<Hop>)
    requires HopsOfLive(hops, rows, kinds, asOf) && Chain(rows, kinds, asOf, from, p, to)
    ensures |q| == |p| && Path(hops, from, q, to)
  {
    if p == [] {
      q := [];
    } else {
      var before, e := p[..|p| - 1], p[|p| - 1];
      ChainFront(rows, kinds, asOf, from, p, to);
      q := ChainIsPath(hops, rows, kinds, asOf, from, before, e.srcId);
      PathSnoc(hops, from, q, HopOf(e));
      q := q + [HopOf(e)];
    }
  }

  lemma InHopsIffInEdges(hops: seq<Hop>, rows: seq<Edge>, kinds: seq<string>, asOf: Option<Stamp>, from: string,
                         to: string, n: nat)
    requires HopsOfLive(hops, rows, kinds, asOf)
    ensures InHops(hops, from, to, n) <==> InEdges(rows, kinds, asOf, from, to, n)
  {
    if p: seq<Hop> :| |p| == n && Path(hops, from, p, to) {
      var q := PathIsChain(hops, rows, kinds, asOf, from, p, to);
    }
    if q: seq<Edge> :| |q| == n && Chain(rows, kinds, asOf, from, q, to) {
      var p := ChainIsPath(hops, rows, kinds, asOf, from, q, to);
    }
  }

  lemma ShortestIffAway(hops: seq<Hop>, rows: seq<Edge>, kinds: seq<string>, asOf: Option<Stamp>, from: string,
                        to: string, n: nat)
    requires HopsOfLive(hops, rows, kinds, asOf)
    ensures Shortest(hops, from, to, n) <==> Away(rows, kinds, asOf, from, to, n)
  {
    forall m: nat ensures InHops(hops, from, to, m) <==> InEdges(rows, kinds, asOf, from, to, m) {
      InHopsIffInEdges(hops, rows, kinds, asOf, from, to, m);
    }
  }

  // ---- The tree is the answer -------------------------------------------------

  lemma ParentArrives(hops: seq<Hop>, rows: seq<Edge>, kinds: seq<string>, asOf: Option<Stamp>, out: seq<WalkRow>,
                      w: WalkRow)
    requires HopsOfLive(hops, rows, kinds, asOf) && HasParent(hops, out, w)
    ensures Arrives(rows, kinds, asOf, out, w)
  {
    var parent :| parent in out && ReachedFrom(hops, parent, w);
    var e :| Live(rows, kinds, asOf, e) && HopOf(e) == Hop(w.viaSrc, w.id, w.kind, w.viaKind);
  }

  lemma ListedIff(hops: seq<Hop>, root: WalkRow, depth: nat, out: seq<WalkRow>, id: string, n: nat)
    requires ShortestPathTree(hops, root, depth, out)
    ensures ListedAt(out, id, n) <==> n <= depth && Shortest(hops, root.id, id, n)
  {
    if n <= depth && Shortest(hops, root.id, id, n) {
      assert Listed(out, id);
      var w :| w in out && w.id == id;
      assert Shortest(hops, root.id, w.id, w.depth);
    }
  }

  lemma TreeAnswers(hops: seq<Hop>, rows: seq<Edge>, kinds: seq<string>, asOf: Option<Stamp>, rootId: string,
                    rootKind: string, depth: nat, out: seq<WalkRow>)
    requires HopsOfLive(hops, rows, kinds, asOf) && ShortestPathTree(hops, Root(rootId, rootKind), depth, out)
    ensures Answers(rows, kinds, asOf, rootId, rootKind, depth, out)
  {
    var root := Root(rootId, rootKind);
    forall id: string, n: nat
      ensures ListedAt(out, id, n) <==> n <= depth && Away(rows, kinds, asOf, rootId, id, n)
    {
      ListedIff(hops, root, depth, out, id, n);
      ShortestIffAway(hops, rows, kinds, asOf, rootId, id, n);
    }
    forall w | w in out && w != out[0]
      ensures Arrives(rows, kinds, asOf, out, w)
    {
      assert HasParent(hops, out, w);
      ParentArrives(hops, rows, kinds, asOf, out, w);
    }
  }
}
