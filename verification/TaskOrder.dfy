/** The order in which collectAll lists tasks: that of the edges that lead to them. */
module TaskOrder {
  import opened Common
  import opened Sequences
  import opened EdgeModel
  import opened TaskWalk

  /** Edge k is the first of the list that leads to t. */
  ghost predicate FirstTo(edges: seq<Edge>, t: string, k: nat) {
    k < |edges| && edges[k].dstId == t && forall j :: 0 <= j < k ==> edges[j].dstId != t
  }

  /** From position n on, the ids stand in the order of the first edges to them. */
  ghost predicate OrderedFrom(edges: seq<Edge>, ids: seq<string>, n: nat) {
    forall i, j, a, b :: n <= i < j < |ids| && FirstTo(edges, ids[i], a) && FirstTo(edges, ids[j], b) ==> a < b
  }

  /** The ids met after f are new and met once. */
  ghost predicate NewSince(f: Found, ids: seq<string>) {
    && |f.met| <= |ids| && (forall i :: |f.met| <= i < |ids| ==> ids[i] !in Seen(f))
    && (forall i, j :: |f.met| <= i < j < |ids| ==> ids[i] != ids[j])
  }

  predicate AllTasks(edges: seq<Edge>) {
    forall i :: 0 <= i < |edges| ==> edges[i].dstKind == TASK
  }

  lemma FirstToRest(edges: seq<Edge>, t: string, k: nat)
    requires edges != [] && edges[0].dstId != t && FirstTo(edges, t, k)
    ensures k > 0 && FirstTo(edges[1..], t, k - 1)
  {
  }

  /** The first edge leads to a node seen before: the rest decides. */
  lemma OrderedPastSeen(edges: seq<Edge>, f: Found, ids: seq<string>)
    requires edges != [] && edges[0].dstId in Seen(f) && NewSince(f, ids)
    requires OrderedFrom(edges[1..], ids, |f.met|)
    ensures OrderedFrom(edges, ids, |f.met|)
  {
    forall i, j, a, b | |f.met| <= i < j < |ids| && FirstTo(edges, ids[i], a) && FirstTo(edges, ids[j], b)
      ensures a < b
    {
      FirstToRest(edges, ids[i], a);
      FirstToRest(edges, ids[j], b);
    }
  }

  /** The first edge leads to a task met now, before all others. */
  lemma OrderedPastMet(edges: seq<Edge>, f: Found, ids: seq<string>)
    requires edges != [] && |f.met| < |ids| && ids[|f.met|] == edges[0].dstId && NewSince(f, ids)
    requires OrderedFrom(edges[1..], ids, |f.met| + 1)
    ensures OrderedFrom(edges, ids, |f.met|)
  {
    forall i, j, a, b | |f.met| <= i < j < |ids| && FirstTo(edges, ids[i], a) && FirstTo(edges, ids[j], b)
      ensures a < b
    {
      FirstToRest(edges, ids[j], b);
      if i > |f.met| {
        FirstToRest(edges, ids[i], a);
      }
    }
  }

  lemma {:induction false} CollectInOrder(rows: seq<Edge>, edges: seq<Edge>, f: Found)
    requires AllIn(edges, rows) && AllTasks(edges)
    ensures var ids := Collect(rows, edges, f).met;
            f.met <= ids && NewSince(f, ids) && OrderedFrom(edges, ids, |f.met|)
    decreases |edges|
  {
    if edges != [] {
      var t := edges[0].dstId;
      if t in Seen(f) {
        CollectInOrder(rows, edges[1..], f);
        OrderedPastSeen(edges, f, Collect(rows, edges, f).met);
      } else {
        var mid := Meet(f, t);
        CollectInOrder(rows, edges[1..], mid);
        var ids := Collect(rows, edges, f).met;
        assert ids == Collect(rows, edges[1..], mid).met && mid.met <= ids && t in Seen(mid);
        OrderedPastMet(edges, f, ids);
      }
    }
  }

  /** Row k is the first current owns row from the parent to t. */
  ghost predicate FirstRowTo(rows: seq<Edge>, parent: string, t: string, k: nat) {
    && k < |rows| && OwnsRow(rows[k], parent) && rows[k].dstId == t
    && forall j :: 0 <= j < k && OwnsRow(rows[j], parent) ==> rows[j].dstId != t
  }

  predicate OwnsRow(e: Edge, parent: string) {
    e.srcId == parent && e.validTo.None? && e.kind == "owns"
  }

  /** Positions among the parent's edges and among all rows correspond. */
  lemma FirstRowIsFirstEdge(rows: seq<Edge>, parent: string, at: seq<nat>, t: string, k: nat) returns (m: nat)
    requires SelectedAt(rows, OutgoingNow(parent, OWNS), Owned(rows, parent), at) && FirstRowTo(rows, parent, t, k)
    ensures m < |at| && at[m] == k && FirstTo(Owned(rows, parent), t, m)
  {
    assert OutgoingNow(parent, OWNS)(rows[k]);
    m :| 0 <= m < |at| && at[m] == k;
    forall j | 0 <= j < m
      ensures Owned(rows, parent)[j].dstId != t
    {
      assert at[j] < k && OutgoingNow(parent, OWNS)(rows[at[j]]) && OwnsRow(rows[at[j]], parent);
    }
  }

  /** Under a parent that owns tasks only, the sweep is handed them in the order of the
      rows that own them: earlier rows first, whatever the statuses of others. */
  lemma DirectTasksInRowOrder(rows: seq<Edge>, entities: Entities, parent: string, i: nat, j: nat, a: nat, b: nat)
    requires forall e :: e in rows && OwnsRow(e, parent) ==> e.dstKind == "task"
    requires i < j < |TasksFrom(rows, entities, parent)|
    requires FirstRowTo(rows, parent, TasksFrom(rows, entities, parent)[i], a)
    requires FirstRowTo(rows, parent, TasksFrom(rows, entities, parent)[j], b)
    ensures a < b
  {
    var owned, start := Owned(rows, parent), Found({parent}, []);
    OwnedAllIn(rows, parent);
    forall m | 0 <= m < |owned|
      ensures owned[m].dstKind == TASK
    {
      OwnedIn(rows, parent, owned[m]);
    }
    CollectInOrder(rows, owned, start);
    var ids, list := Walk(rows, parent).met, TasksFrom(rows, entities, parent);
    var picked := SelectIndices(ids, ActiveIn(entities));
    assert picked[i] < picked[j] && list[i] == ids[picked[i]] && list[j] == ids[picked[j]];
    var at := SelectIndices(rows, OutgoingNow(parent, OWNS));
    var m := FirstRowIsFirstEdge(rows, parent, at, list[i], a);
    var n := FirstRowIsFirstEdge(rows, parent, at, list[j], b);
    assert m < n;
  }
}
