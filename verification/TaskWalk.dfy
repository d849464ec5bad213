/** The owns walk of collectAll as a function: which nodes it enters, which tasks
    it meets, in which order, and when that is exact. The graph may have cycles. */
module TaskWalk {
  import opened Common
  import opened Sequences
  import opened EdgeModel

  const TASK := "task"
  const ARCHIVED := "archived"
  const CLOSED := "closed"

  /** The status of every current entity. */
  type Entities = map<string, string>

  predicate Active(entities: Entities, id: string) {
    id in entities && entities[id] != ARCHIVED && entities[id] != CLOSED
  }

  function Owned(rows: seq<Edge>, id: string): seq<Edge> {
    Select(rows, OutgoingNow(id, OWNS))
  }

  predicate OwnsEdge(rows: seq<Edge>, e: Edge) {
    e in rows && Current(e) && e.kind == OWNS
  }

  lemma OwnedIn(rows: seq<Edge>, id: string, e: Edge)
    ensures e in Owned(rows, id) <==> OwnsEdge(rows, e) && e.srcId == id
    ensures e in Owned(rows, id) <==> e in rows && e.srcId == id && e.validTo.None? && e.kind == "owns"
  {
    SelectIn(rows, OutgoingNow(id, OWNS), e);
  }

  // ---- What is to be collected --------------------------------------------

  ghost function End(from: string, p: seq<Edge>): string {
    if p == [] then from else p[|p| - 1].dstId
  }

  ghost predicate OwnsPath(rows: seq<Edge>, from: string, p: seq<Edge>) {
    && (p != [] ==> p[0].srcId == from)
    && (forall i :: 0 <= i < |p| ==> OwnsEdge(rows, p[i]))
    && (forall i, j :: 0 <= i && i + 1 == j < |p| ==> p[j].srcId == p[i].dstId)
  }

  ghost predicate NoTaskOn(p: seq<Edge>) {
    forall i :: 0 <= i < |p| ==> p[i].dstKind != TASK
  }

  ghost predicate Through(p: seq<Edge>, nodes: set<string>) {
    forall i :: 0 <= i < |p| ==> p[i].dstId in nodes
  }

  /** n is reached without passing through or ending in a task. */
  ghost predicate GroupReach(rows: seq<Edge>, from: string, n: string) {
    exists p :: OwnsPath(rows, from, p) && NoTaskOn(p) && End(from, p) == n
  }

  /** The same, staying inside a set of nodes. */
  ghost predicate GroupReachIn(rows: seq<Edge>, from: string, n: string, nodes: set<string>) {
    exists p :: OwnsPath(rows, from, p) && NoTaskOn(p) && Through(p, nodes) && End(from, p) == n
  }

  /** t is a task owned by such a node: an owns path whose intermediate nodes are
      all non-tasks leads to it. */
  ghost predicate TaskReach(rows: seq<Edge>, from: string, t: string) {
    exists e :: OwnsEdge(rows, e) && e.dstKind == TASK && e.dstId == t && GroupReach(rows, from, e.srcId)
  }

  /** The same, over a path that does not pass through t on its way to t. */
  ghost predicate TaskReachFirst(rows: seq<Edge>, from: string, t: string) {
    exists e, nodes :: t !in nodes && OwnsEdge(rows, e) && e.dstKind == TASK && e.dstId == t
                       && GroupReachIn(rows, from, e.srcId, nodes)
  }

  lemma FirstIsReach(rows: seq<Edge>, from: string, t: string)
    requires TaskReachFirst(rows, from, t)
    ensures TaskReach(rows, from, t)
  {
  }

  lemma GroupStep(rows: seq<Edge>, from: string, e: Edge, nodes: set<string>)
    requires GroupReachIn(rows, from, e.srcId, nodes) && OwnsEdge(rows, e) && e.dstKind != TASK
    ensures GroupReachIn(rows, from, e.dstId, nodes + {e.dstId})
  {
    var p :| OwnsPath(rows, from, p) && NoTaskOn(p) && Through(p, nodes) && End(from, p) == e.srcId;
    var q := p + [e];
    assert OwnsPath(rows, from, q) && NoTaskOn(q) && Through(q, nodes + {e.dstId}) && End(from, q) == e.dstId;
  }

  lemma GroupReachGrows(rows: seq<Edge>, from: string, n: string, some: set<string>, more: set<string>)
    requires GroupReachIn(rows, from, n, some) && some <= more
    ensures GroupReachIn(rows, from, n, more)
  {
  }

  /** No node other than the parent is reached both as a task and as a group:
      the edges into it agree on whether it is a task. */
  ghost predicate Unmixed(rows: seq<Edge>, parent: string) {
    forall n :: n != parent && TaskReach(rows, parent, n) ==> !GroupReach(rows, parent, n)
  }

  // ---- The walk -----------------------------------------------------------

  /** The groups entered and the tasks met so far, tasks in order. */
  datatype Found = Found(groups: set<string>, met: seq<string>)

  function Seen(f: Found): set<string> {
    f.groups + set t | t in f.met
  }

  function Destinations(rows: seq<Edge>): set<string> {
    set e | e in rows :: e.dstId
  }

  predicate AllIn(edges: seq<Edge>, rows: seq<Edge>) {
    forall i :: 0 <= i < |edges| ==> edges[i] in rows
  }

  lemma OwnedAllIn(rows: seq<Edge>, id: string)
    ensures AllIn(Owned(rows, id), rows)
  {
    var owned := Owned(rows, id);
    forall i | 0 <= i < |owned|
      ensures owned[i] in rows
    {
      OwnedIn(rows, id, owned[i]);
    }
  }

  function Enter(f: Found, id: string): Found {
    f.(groups := f.groups + {id})
  }

  function Meet(f: Found, id: string): Found {
    f.(met := f.met + [id])
  }

  /** Follows the edges in order, depth first; a node already seen is passed over. */
  function Collect(rows: seq<Edge>, edges: seq<Edge>, f: Found): (r: Found)
    requires AllIn(edges, rows)
    ensures f.groups <= r.groups && f.met <= r.met
    decreases Destinations(rows) - Seen(f), |edges|
  {
    if edges == [] then f else
      var id := edges[0].dstId;
      if id in Seen(f) then Collect(rows, edges[1..], f)
      else
        OwnedAllIn(rows, id);
        assert edges[0] in rows && id in Destinations(rows) - Seen(f);
        if edges[0].dstKind == TASK then Collect(rows, edges[1..], Meet(f, id))
        else Collect(rows, edges[1..], Collect(rows, Owned(rows, id), Enter(f, id)))
  }

  function Walk(rows: seq<Edge>, parent: string): Found {
    OwnedAllIn(rows, parent);
    Collect(rows, Owned(rows, parent), Found({parent}, []))
  }

  function ActiveIn(entities: Entities): string -> bool {
    (t: string) => Active(entities, t)
  }

  /** What the sweep is handed: the active ones of the tasks met. */
  function TasksFrom(rows: seq<Edge>, entities: Entities, parent: string): seq<string> {
    Select(Walk(rows, parent).met, ActiveIn(entities))
  }

  lemma MeetSnoc(f: Found, id: string, entities: Entities)
    ensures Seen(Meet(f, id)) == Seen(f) + {id}
    ensures Select(Meet(f, id).met, ActiveIn(entities))
            == Select(f.met, ActiveIn(entities)) + if Active(entities, id) then [id] else []
  {
    SelectSnoc(f.met, id, ActiveIn(entities));
  }

  // ---- What it finds --------------------------------------------------------

  /** Every group was reached through groups, every task through groups not yet
      including itself, and no node counts as both. */
  ghost predicate WalkInv(rows: seq<Edge>, parent: string, f: Found) {
    && parent in f.groups && Distinct(f.met)
    && (forall n :: n in f.groups ==> GroupReachIn(rows, parent, n, f.groups))
    && (forall t :: t in f.met ==> t !in f.groups && TaskReachFirst(rows, parent, t))
  }

  lemma EnterKeepsInv(rows: seq<Edge>, parent: string, f: Found, e: Edge)
    requires WalkInv(rows, parent, f) && OwnsEdge(rows, e) && e.srcId in f.groups
    requires e.dstKind != TASK && e.dstId !in Seen(f)
    ensures WalkInv(rows, parent, Enter(f, e.dstId))
  {
    var groups := f.groups + {e.dstId};
    GroupStep(rows, parent, e, f.groups);
    forall n | n in f.groups
      ensures GroupReachIn(rows, parent, n, groups)
    {
      GroupReachGrows(rows, parent, n, f.groups, groups);
    }
  }

  lemma MeetKeepsInv(rows: seq<Edge>, parent: string, f: Found, e: Edge)
    requires WalkInv(rows, parent, f) && OwnsEdge(rows, e) && e.srcId in f.groups
    requires e.dstKind == TASK && e.dstId !in Seen(f)
    ensures WalkInv(rows, parent, Meet(f, e.dstId))
  {
    assert GroupReachIn(rows, parent, e.srcId, f.groups);
    assert TaskReachFirst(rows, parent, e.dstId);
  }

  /** Every child of a node has been seen. */
  ghost predicate ClosedAt(rows: seq<Edge>, n: string, seen: set<string>) {
    forall e :: OwnsEdge(rows, e) && e.srcId == n ==> e.dstId in seen
  }

  /** Every group entered since f has all its children seen. */
  ghost predicate ClosedSince(rows: seq<Edge>, f: Found, r: Found) {
    forall n {:trigger ClosedAt(rows, n, Seen(r))} :: n in r.groups && n !in f.groups ==> ClosedAt(rows, n, Seen(r))
  }

  ghost predicate AllSeen(edges: seq<Edge>, f: Found) {
    forall i :: 0 <= i < |edges| ==> edges[i].dstId in Seen(f)
  }

  lemma ClosedSinceGrows(rows: seq<Edge>, f: Found, mid: Found, r: Found)
    requires mid.groups <= r.groups && mid.met <= r.met
    requires ClosedSince(rows, f, mid) && ClosedSince(rows, mid, r)
    ensures ClosedSince(rows, f, r)
  {
    assert Seen(mid) <= Seen(r);
    forall n | n in r.groups && n !in f.groups
      ensures ClosedAt(rows, n, Seen(r))
    {
      if n in mid.groups {
        assert ClosedAt(rows, n, Seen(mid));
      }
    }
  }

  ghost predicate OwnsEdges(rows: seq<Edge>, edges: seq<Edge>, groups: set<string>) {
    forall i :: 0 <= i < |edges| ==> OwnsEdge(rows, edges[i]) && edges[i].srcId in groups
  }

  lemma OwnedEdges(rows: seq<Edge>, id: string, f: Found)
    requires id in f.groups
    ensures OwnsEdges(rows, Owned(rows, id), f.groups)
    ensures AllSeen(Owned(rows, id), f) ==> ClosedAt(rows, id, Seen(f))
  {
    var owned := Owned(rows, id);
    forall i | 0 <= i < |owned|
      ensures OwnsEdge(rows, owned[i]) && owned[i].srcId == id
    {
      OwnedIn(rows, id, owned[i]);
    }
    if AllSeen(owned, f) {
      forall e | OwnsEdge(rows, e) && e.srcId == id
        ensures e.dstId in Seen(f)
      {
        OwnedIn(rows, id, e);
      }
    }
  }

  /** What the first edge of a list adds. */
  function FirstStep(rows: seq<Edge>, e: Edge, f: Found): Found {
    if e.dstId in Seen(f) then f else if e.dstKind == TASK then Meet(f, e.dstId) else Below(rows, e, f)
  }

  lemma AfterFirst(rows: seq<Edge>, edges: seq<Edge>, f: Found, mid: Found, r: Found)
    requires edges != [] && edges[0].dstId in Seen(mid) && AllSeen(edges[1..], r)
    requires mid.groups <= r.groups && mid.met <= r.met && ClosedSince(rows, f, mid) && ClosedSince(rows, mid, r)
    ensures AllSeen(edges, r) && ClosedSince(rows, f, r)
  {
    SeenStays(edges, mid, r);
    ClosedSinceGrows(rows, f, mid, r);
  }

  /** Following edges keeps the invariant, sees every destination and closes every
      group it enters. */
  lemma {:induction false} CollectKeepsInv(rows: seq<Edge>, parent: string, edges: seq<Edge>, f: Found)
    requires AllIn(edges, rows) && WalkInv(rows, parent, f) && OwnsEdges(rows, edges, f.groups)
    ensures var r := Collect(rows, edges, f);
            WalkInv(rows, parent, r) && AllSeen(edges, r) && ClosedSince(rows, f, r)
    decreases Destinations(rows) - Seen(f), |edges|, 1
  {
    if edges != [] {
      var mid := FirstStep(rows, edges[0], f);
      FirstStepKeepsInv(rows, parent, edges, f);
      assert Destinations(rows) - Seen(mid) <= Destinations(rows) - Seen(f);
      CollectKeepsInv(rows, parent, edges[1..], mid);
      AfterFirst(rows, edges, f, mid, Collect(rows, edges[1..], mid));
    }
  }

  lemma {:induction false} FirstStepKeepsInv(rows: seq<Edge>, parent: string, edges: seq<Edge>, f: Found)
    requires edges != [] && AllIn(edges, rows) && WalkInv(rows, parent, f) && OwnsEdges(rows, edges, f.groups)
    ensures var mid := FirstStep(rows, edges[0], f);
            && WalkInv(rows, parent, mid) && ClosedSince(rows, f, mid) && edges[0].dstId in Seen(mid)
            && f.groups <= mid.groups && f.met <= mid.met
    decreases Destinations(rows) - Seen(f), |edges|, 0
  {
    var e := edges[0];
    if e.dstId !in Seen(f) {
      if e.dstKind == TASK {
        MeetKeepsInv(rows, parent, f, e);
      } else {
        assert e.dstId in Destinations(rows) - Seen(f);
        GroupBranch(rows, parent, e, f);
      }
    }
  }

  function Below(rows: seq<Edge>, e: Edge, f: Found): Found {
    OwnedAllIn(rows, e.dstId);
    Collect(rows, Owned(rows, e.dstId), Enter(f, e.dstId))
  }

  lemma SeenStays(edges: seq<Edge>, f: Found, r: Found)
    requires edges != [] && edges[0].dstId in Seen(f) && f.groups <= r.groups && f.met <= r.met
    requires AllSeen(edges[1..], r)
    ensures AllSeen(edges, r)
  {
    forall i | 0 < i < |edges|
      ensures edges[i].dstId in Seen(r)
    {
      assert edges[1..][i - 1] == edges[i];
    }
  }

  lemma {:induction false} GroupBranch(rows: seq<Edge>, parent: string, e: Edge, f: Found)
    requires WalkInv(rows, parent, f) && OwnsEdge(rows, e) && e.srcId in f.groups
    requires e.dstKind != TASK && e.dstId !in Seen(f)
    ensures var below := Below(rows, e, f);
            && WalkInv(rows, parent, below) && ClosedSince(rows, f, below)
            && f.groups <= below.groups && f.met <= below.met && e.dstId in below.groups
    decreases Destinations(rows) - Seen(f), 0, 0
  {
    var entered := Enter(f, e.dstId);
    OwnedAllIn(rows, e.dstId);
    EnterKeepsInv(rows, parent, f, e);
    OwnedEdges(rows, e.dstId, entered);
    assert e.dstId in Destinations(rows) - Seen(f);
    CollectKeepsInv(rows, parent, Owned(rows, e.dstId), entered);
    OwnedEdges(rows, e.dstId, Below(rows, e, f));
    EnteredIsClosed(rows, f, e.dstId, Below(rows, e, f));
  }

  lemma EnteredIsClosed(rows: seq<Edge>, f: Found, id: string, r: Found)
    requires ClosedSince(rows, Enter(f, id), r) && ClosedAt(rows, id, Seen(r))
    ensures ClosedSince(rows, f, r)
  {
  }

  /** The finished walk: its invariant, and every group entered is closed. */
  lemma WalkIsClosed(rows: seq<Edge>, parent: string)
    ensures var w := Walk(rows, parent);
            && WalkInv(rows, parent, w)
            && forall n {:trigger ClosedAt(rows, n, Seen(w))} :: n in w.groups ==> ClosedAt(rows, n, Seen(w))
  {
    var start := Found({parent}, []);
    assert OwnsPath(rows, parent, []) && Through([], {parent}) && End(parent, []) == parent;
    OwnedAllIn(rows, parent);
    OwnedEdges(rows, parent, start);
    CollectKeepsInv(rows, parent, Owned(rows, parent), start);
    OwnedEdges(rows, parent, Walk(rows, parent));
    assert ClosedAt(rows, parent, Seen(Walk(rows, parent)));
  }

  lemma TasksFromIn(rows: seq<Edge>, entities: Entities, parent: string, t: string)
    ensures t in TasksFrom(rows, entities, parent) <==> t in Walk(rows, parent).met && Active(entities, t)
  {
    SelectIn(Walk(rows, parent).met, ActiveIn(entities), t);
  }

  /** Every task met is one to be collected; none is met twice. */
  lemma WalkIsSound(rows: seq<Edge>, entities: Entities, parent: string)
    ensures Distinct(TasksFrom(rows, entities, parent))
    ensures forall t :: t in TasksFrom(rows, entities, parent) ==>
                          t != parent && Active(entities, t) && TaskReachFirst(rows, parent, t)
  {
    WalkIsClosed(rows, parent);
    SelectPairs(Walk(rows, parent).met, ActiveIn(entities), (a: string, b: string) => a != b);
    forall t | t in TasksFrom(rows, entities, parent)
      ensures t != parent && Active(entities, t) && TaskReachFirst(rows, parent, t)
    {
      TasksFromIn(rows, entities, parent, t);
    }
  }

  // ---- Where no node is mixed the walk is exact ------------------------------

  /** The walk hands on exactly the tasks it should. */
  ghost predicate Exact(rows: seq<Edge>, entities: Entities, parent: string) {
    forall t :: t in TasksFrom(rows, entities, parent)
                <==> t != parent && Active(entities, t) && TaskReach(rows, parent, t)
  }

  lemma {:induction false} ReachedGroupIsEntered(rows: seq<Edge>, parent: string, p: seq<Edge>)
    requires Unmixed(rows, parent) && OwnsPath(rows, parent, p) && NoTaskOn(p)
    ensures End(parent, p) in Walk(rows, parent).groups
  {
    WalkIsClosed(rows, parent);
    if p != [] {
      var q, e := p[..|p| - 1], p[|p| - 1];
      ReachedGroupIsEntered(rows, parent, q);
      var w := Walk(rows, parent);
      assert ClosedAt(rows, e.srcId, Seen(w));
      if e.dstId in w.met {
        FirstIsReach(rows, parent, e.dstId);
        assert GroupReach(rows, parent, e.dstId);
      }
    }
  }

  /** Every task reachable through groups is met, where no node is mixed. */
  lemma ReachedTaskIsMet(rows: seq<Edge>, parent: string, t: string)
    requires Unmixed(rows, parent) && t != parent && TaskReach(rows, parent, t)
    ensures t in Walk(rows, parent).met
  {
    WalkIsClosed(rows, parent);
    var w := Walk(rows, parent);
    var e :| OwnsEdge(rows, e) && e.dstKind == TASK && e.dstId == t && GroupReach(rows, parent, e.srcId);
    var p :| OwnsPath(rows, parent, p) && NoTaskOn(p) && End(parent, p) == e.srcId;
    ReachedGroupIsEntered(rows, parent, p);
    assert ClosedAt(rows, e.srcId, Seen(w));
    if t in w.groups {
      assert GroupReachIn(rows, parent, t, w.groups);
      assert GroupReach(rows, parent, t);
    }
  }

  lemma UnmixedIsExact(rows: seq<Edge>, entities: Entities, parent: string)
    requires Unmixed(rows, parent)
    ensures Exact(rows, entities, parent)
  {
    WalkIsSound(rows, entities, parent);
    forall t
      ensures t in TasksFrom(rows, entities, parent) ==> TaskReach(rows, parent, t)
      ensures t != parent && Active(entities, t) && TaskReach(rows, parent, t)
              ==> t in TasksFrom(rows, entities, parent)
    {
      TasksFromIn(rows, entities, parent, t);
      if t in TasksFrom(rows, entities, parent) {
        FirstIsReach(rows, parent, t);
      } else if t != parent && TaskReach(rows, parent, t) {
        ReachedTaskIsMet(rows, parent, t);
      }
    }
  }

  // ---- Where one is, some listing loses it -----------------------------------

  /** A path through groups that visits no node twice and does not return. */
  ghost predicate SimplePath(rows: seq<Edge>, from: string, p: seq<Edge>) {
    && OwnsPath(rows, from, p) && NoTaskOn(p)
    && (forall i :: 0 <= i < |p| ==> p[i].dstId != from)
    && (forall i, j :: 0 <= i < j < |p| ==> p[i].dstId != p[j].dstId)
  }

  lemma {:induction false} Simplify(rows: seq<Edge>, from: string, p: seq<Edge>) returns (q: seq<Edge>)
    requires OwnsPath(rows, from, p) && NoTaskOn(p)
    ensures SimplePath(rows, from, q) && End(from, q) == End(from, p)
  {
    if p == [] {
      q := [];
    } else {
      var e := p[|p| - 1];
      q := Simplify(rows, from, p[..|p| - 1]);
      if e.dstId == from {
        q := [];
      } else if i :| 0 <= i < |q| && q[i].dstId == e.dstId {
        q := q[..i + 1];
      } else {
        q := q + [e];
      }
    }
  }

  ghost predicate SameRows(a: seq<Edge>, b: seq<Edge>) {
    multiset(a) == multiset(b)
  }

  lemma SameRowsIn(a: seq<Edge>, b: seq<Edge>, e: Edge)
    requires SameRows(a, b)
    ensures e in a <==> e in b
  {
    assert e in a <==> e in multiset(a);
    assert e in b <==> e in multiset(b);
  }

  lemma MoveUp(listed: seq<Edge>, n: nat, j: nat) returns (moved: seq<Edge>)
    requires n <= j < |listed|
    ensures |moved| == |listed| && moved[..n] == listed[..n] && moved[n] == listed[j]
    ensures multiset(moved) == multiset(listed)
  {
    var q, e, between, after := listed[..n], listed[j], listed[n..j], listed[j + 1..];
    moved := q + ([e] + (between + after));
    assert listed == q + (between + ([e] + after));
  }

  /** Some listing of the same rows begins with the given distinct ones. */
  lemma {:induction false} ListFirst(rows: seq<Edge>, p: seq<Edge>) returns (listed: seq<Edge>)
    requires AllIn(p, rows) && Distinct(p)
    ensures p <= listed && multiset(listed) == multiset(rows)
  {
    if p == [] {
      listed := rows;
    } else {
      var n := |p| - 1;
      var before := ListFirst(rows, p[..n]);
      SameRowsIn(before, rows, p[n]);
      var j :| 0 <= j < |before| && before[j] == p[n];
      assert forall k :: 0 <= k < n ==> before[k] == p[k];
      listed := MoveUp(before, n, j);
      assert listed[..n + 1] == p;
    }
  }

  lemma FirstOwned(listed: seq<Edge>, from: string, p: seq<Edge>, i: nat)
    requires SimplePath(listed, from, p) && p <= listed && i < |p|
    ensures Owned(listed, p[i].srcId) != [] && Owned(listed, p[i].srcId)[0] == p[i]
    ensures p[i].srcId == End(from, p[..i])
  {
    forall k | 0 <= k < i
      ensures listed[k].srcId != p[i].srcId
    {
      assert listed[k] == p[k] && p[i].srcId == p[i - 1].dstId;
      assert k > 0 ==> p[k].srcId == p[k - 1].dstId;
    }
    assert listed[i] == p[i] && OwnsEdge(listed, p[i]);
    SelectFirst(listed, OutgoingNow(p[i].srcId, OWNS), i);
  }

  /** Listed first, every node of the path is entered as a group. */
  lemma {:induction false} PathIsEntered(listed: seq<Edge>, from: string, p: seq<Edge>, i: nat, f: Found)
    requires SimplePath(listed, from, p) && p <= listed && i <= |p|
    requires forall j :: i <= j < |p| ==> p[j].dstId !in Seen(f)
    ensures AllIn(Owned(listed, End(from, p[..i])), listed)
    ensures forall j :: i <= j < |p| ==> p[j].dstId in Collect(listed, Owned(listed, End(from, p[..i])), f).groups
    decreases |p| - i
  {
    OwnedAllIn(listed, End(from, p[..i]));
    if i < |p| {
      FirstOwned(listed, from, p, i);
      var edges, entered := Owned(listed, p[i].srcId), Enter(f, p[i].dstId);
      assert End(from, p[..i + 1]) == p[i].dstId;
      PathIsEntered(listed, from, p, i + 1, entered);
      assert Below(listed, edges[0], f).groups <= Collect(listed, edges, f).groups;
    }
  }

  lemma SamePaths(a: seq<Edge>, b: seq<Edge>, from: string, p: seq<Edge>)
    requires SameRows(a, b)
    ensures OwnsPath(a, from, p) <==> OwnsPath(b, from, p)
  {
    forall e ensures e in a <==> e in b {
      SameRowsIn(a, b, e);
    }
  }

  lemma SameGroupReach(a: seq<Edge>, b: seq<Edge>, from: string, n: string)
    requires SameRows(a, b)
    ensures GroupReach(a, from, n) <==> GroupReach(b, from, n)
  {
    if p :| OwnsPath(a, from, p) && NoTaskOn(p) && End(from, p) == n {
      SamePaths(a, b, from, p);
    }
    if p :| OwnsPath(b, from, p) && NoTaskOn(p) && End(from, p) == n {
      SamePaths(a, b, from, p);
    }
  }

  /** What is to be collected does not depend on the listing order. */
  lemma SameTaskReach(a: seq<Edge>, b: seq<Edge>, from: string, t: string)
    requires SameRows(a, b)
    ensures TaskReach(a, from, t) <==> TaskReach(b, from, t)
  {
    if e :| OwnsEdge(a, e) && e.dstKind == TASK && e.dstId == t && GroupReach(a, from, e.srcId) {
      SameRowsIn(a, b, e);
      SameGroupReach(a, b, from, e.srcId);
      assert OwnsEdge(b, e);
    }
    if e :| OwnsEdge(b, e) && e.dstKind == TASK && e.dstId == t && GroupReach(b, from, e.srcId) {
      SameRowsIn(a, b, e);
      SameGroupReach(a, b, from, e.srcId);
      assert OwnsEdge(a, e);
    }
  }

  lemma MixedNodeIsLost(rows: seq<Edge>, parent: string, n: string) returns (listed: seq<Edge>, entities: Entities)
    requires n != parent && TaskReach(rows, parent, n) && GroupReach(rows, parent, n)
    ensures SameRows(rows, listed) && TaskReach(listed, parent, n)
    ensures Active(entities, n) && n !in TasksFrom(listed, entities, parent)
  {
    var p :| OwnsPath(rows, parent, p) && NoTaskOn(p) && End(parent, p) == n;
    var q := Simplify(rows, parent, p);
    listed := ListFirst(rows, q);
    entities := map[n := "active"];
    SameTaskReach(rows, listed, parent, n);
    SamePaths(rows, listed, parent, q);
    PathIsEntered(listed, parent, q, 0, Found({parent}, []));
    assert q[..0] == [] && q[|q| - 1].dstId == n;
    WalkIsClosed(listed, parent);
    TasksFromIn(listed, entities, parent, n);
  }

  /** The walk is exact for every listing order of the rows and every assignment of
      statuses exactly when no node but the parent is reached both as a task and as
      a group. */
  lemma ExactInEveryOrderIff(rows: seq<Edge>, parent: string)
    ensures Unmixed(rows, parent)
            <==> forall listed, entities :: SameRows(rows, listed) ==> Exact(listed, entities, parent)
  {
    if Unmixed(rows, parent) {
      forall listed, entities | SameRows(rows, listed)
        ensures Exact(listed, entities, parent)
      {
        forall n ensures TaskReach(rows, parent, n) <==> TaskReach(listed, parent, n)
                 ensures GroupReach(rows, parent, n) <==> GroupReach(listed, parent, n) {
          SameTaskReach(rows, listed, parent, n);
          SameGroupReach(rows, listed, parent, n);
        }
        UnmixedIsExact(listed, entities, parent);
      }
    } else {
      var n :| n != parent && TaskReach(rows, parent, n) && GroupReach(rows, parent, n);
      var listed, entities := MixedNodeIsLost(rows, parent, n);
      assert SameRows(rows, listed) && !Exact(listed, entities, parent);
    }
  }
}
