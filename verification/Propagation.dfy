/** Activation after a close: a breadth-first walk over dependents that flips the
    waiting tasks of every dependent that is now satisfied. The dependents graph
    may contain cycles, and every lookup may fail. */
module Propagation {
  import opened Common
  import opened Sequences

  /** The injected lookups, fixed for the walk; None is an error. */
  datatype Lookups = Lookups(dependents: map<string, Option<seq<string>>>,
                             satisfied: string -> Option<bool>,
                             flip: string -> Option<nat>)

  function DependentsOf(w: Lookups, id: string): Option<seq<string>> {
    if id in w.dependents then w.dependents[id] else Some([])
  }

  predicate Satisfied(w: Lookups, id: string) {
    w.satisfied(id) == Some(true)
  }

  /** A dependent the walk continues from: satisfied, and its flip succeeded. */
  predicate Passes(w: Lookups, id: string) {
    Satisfied(w, id) && w.flip(id).Some?
  }

  ghost predicate Edge(w: Lookups, from: string, to: string) {
    DependentsOf(w, from).Some? && to in DependentsOf(w, from).value
  }

  // ---- What is to be activated --------------------------------------------

  /** p leads from the closed node along dependents, every later node passing. */
  ghost predicate OpenPath(w: Lookups, closed: string, p: seq<string>) {
    && p != [] && p[0] == closed
    && (forall i :: 0 < i < |p| ==> Passes(w, p[i]))
    && (forall i, j :: 0 <= i && i + 1 == j < |p| ==> Edge(w, p[i], p[j]))
  }

  ghost predicate OpenReach(w: Lookups, closed: string, n: string) {
    exists p :: OpenPath(w, closed, p) && p[|p| - 1] == n
  }

  /** d is not the closed node, is satisfied, and depends on a node so reached. */
  ghost predicate Activates(w: Lookups, closed: string, d: string) {
    d != closed && Satisfied(w, d) && exists n :: OpenReach(w, closed, n) && Edge(w, n, d)
  }

  /** The lookup answered, with this dependent among its answers. */
  ghost predicate DependsOn(w: Lookups, to: string, from: string) {
    from in w.dependents && w.dependents[from].Some? && to in w.dependents[from].value
  }

  /** Every later node of p depends on the one before it, is satisfied, and had its
      waiting tasks flipped without an error. */
  ghost predicate ActivationChain(w: Lookups, closed: string, p: seq<string>) {
    && p != [] && p[0] == closed
    && (forall i :: 0 < i < |p| ==> w.satisfied(p[i]) == Some(true) && w.flip(p[i]) != None)
    && (forall i, j :: 0 <= i && i + 1 == j < |p| ==> DependsOn(w, p[j], p[i]))
  }

  lemma OpenPathIsChain(w: Lookups, closed: string, p: seq<string>)
    ensures OpenPath(w, closed, p) <==> ActivationChain(w, closed, p)
  {
    forall a, b ensures Edge(w, a, b) <==> DependsOn(w, b, a) {
    }
  }

  /** A node is reached exactly when it is the end of such a chain, and its lookup fails
      when the lookup answers with an error. */
  lemma OpenReachIsChain(w: Lookups, closed: string, n: string)
    ensures OpenReach(w, closed, n) <==> exists p :: ActivationChain(w, closed, p) && p[|p| - 1] == n
    ensures DependentsOf(w, n).None? <==> n in w.dependents && w.dependents[n].None?
  {
    forall p ensures OpenPath(w, closed, p) <==> ActivationChain(w, closed, p) {
      OpenPathIsChain(w, closed, p);
    }
  }

  /** To be activated is each satisfied node, other than the closed one, that depends on
      the end of such a chain. */
  lemma ActivatesInLookups(w: Lookups, closed: string, d: string)
    ensures Activates(w, closed, d) <==>
              && d != closed && w.satisfied(d) == Some(true)
              && exists p :: ActivationChain(w, closed, p) && DependsOn(w, d, p[|p| - 1])
  {
    if n :| OpenReach(w, closed, n) && Edge(w, n, d) {
      OpenReachIsChain(w, closed, n);
      var p :| ActivationChain(w, closed, p) && p[|p| - 1] == n;
      assert DependsOn(w, d, p[|p| - 1]);
    }
    if p :| ActivationChain(w, closed, p) && DependsOn(w, d, p[|p| - 1]) {
      OpenReachIsChain(w, closed, p[|p| - 1]);
      assert Edge(w, p[|p| - 1], d);
    }
  }

  function Flipped(w: Lookups, calls: seq<string>): nat {
    if calls == [] then 0 else
      var last := calls[|calls| - 1];
      Flipped(w, calls[..|calls| - 1]) + if w.flip(last).Some? then w.flip(last).value else 0
  }

  /** The total is the sum of what the flips returned, a failed one counting nothing. */
  lemma {:induction false} FlippedIsSum(w: Lookups, a: seq<string>, b: seq<string>, d: string)
    ensures Flipped(w, []) == 0
    ensures w.flip(d).Some? ==> Flipped(w, [d]) == w.flip(d).value
    ensures w.flip(d).None? ==> Flipped(w, [d]) == 0
    ensures Flipped(w, a + b) == Flipped(w, a) + Flipped(w, b)
  {
    assert [d][..0] == [];
    if b == [] {
      assert a + b == a;
    } else {
      FlippedIsSum(w, a, b[..|b| - 1], d);
      assert (a + b)[..|a + b| - 1] == a + b[..|b| - 1];
    }
  }

  lemma OpenStep(w: Lookups, closed: string, n: string, d: string)
    requires OpenReach(w, closed, n) && Edge(w, n, d) && Passes(w, d)
    ensures OpenReach(w, closed, d)
  {
    var p :| OpenPath(w, closed, p) && p[|p| - 1] == n;
    assert OpenPath(w, closed, p + [d]);
  }

  // ---- The walk -----------------------------------------------------------

  function Universe(w: Lookups): set<string> {
    set n, d | n in w.dependents && w.dependents[n].Some? && d in w.dependents[n].value :: d
  }

  /** Every node the walk has reached was reached over an open path; what it
      visited it has flipped if satisfied and queued or processed if it passes. */
  ghost predicate Inv(w: Lookups, closed: string, visited: set<string>, queue: seq<string>, calls: seq<string>,
                      done: set<string>) {
    && closed in visited && (closed in done || closed in queue)
    && (forall n :: n in done || n in queue ==> OpenReach(w, closed, n))
    && (forall d :: d in visited && d != closed && Passes(w, d) ==> d in done || d in queue)
    && Distinct(calls) && (forall d :: d in calls ==> d in visited && Activates(w, closed, d))
    && (forall d :: d in visited && d != closed && Satisfied(w, d) ==> d in calls)
  }

  /** Every dependent of a processed node has been visited. */
  ghost predicate Covered(w: Lookups, n: string, visited: set<string>) {
    DependentsOf(w, n).Some? && forall d :: d in DependentsOf(w, n).value ==> d in visited
  }

  lemma {:induction false} DoneIsOpenReach(w: Lookups, closed: string, visited: set<string>, calls: seq<string>,
                                           done: set<string>, p: seq<string>)
    requires Inv(w, closed, visited, [], calls, done)
    requires forall n {:trigger Covered(w, n, visited)} :: n in done ==> Covered(w, n, visited)
    requires OpenPath(w, closed, p)
    ensures p[|p| - 1] in done
  {
    if |p| > 1 {
      var q, d := p[..|p| - 1], p[|p| - 1];
      assert OpenPath(w, closed, q);
      DoneIsOpenReach(w, closed, visited, calls, done, q);
      assert Covered(w, q[|q| - 1], visited) && Edge(w, q[|q| - 1], d);
    }
  }

  lemma ExhaustedWalkIsExact(w: Lookups, closed: string, visited: set<string>, calls: seq<string>, done: set<string>)
    requires Inv(w, closed, visited, [], calls, done)
    requires forall n {:trigger Covered(w, n, visited)} :: n in done ==> Covered(w, n, visited)
    ensures forall d :: d in calls <==> Activates(w, closed, d)
    ensures forall n :: OpenReach(w, closed, n) ==> DependentsOf(w, n).Some?
  {
    forall n | OpenReach(w, closed, n)
      ensures n in done && Covered(w, n, visited)
    {
      var p :| OpenPath(w, closed, p) && p[|p| - 1] == n;
      DoneIsOpenReach(w, closed, visited, calls, done, p);
    }
    forall d | Activates(w, closed, d)
      ensures d in calls
    {
      var n :| OpenReach(w, closed, n) && Edge(w, n, d);
      assert Covered(w, n, visited);
    }
  }

  /** Handles one dependent of a processed node. */
  method Visit(w: Lookups, ghost closed: string, ghost head: string, dep: string,
               visited: set<string>, queue: seq<string>, calls: seq<string>, total: nat, ghost done: set<string>)
      returns (visited': set<string>, queue': seq<string>, calls': seq<string>, total': nat)
    requires Inv(w, closed, visited, queue, calls, done) && total == Flipped(w, calls)
    requires head in done && Edge(w, head, dep)
    ensures Inv(w, closed, visited', queue', calls', done) && total' == Flipped(w, calls')
    ensures visited' == visited + {dep}
    ensures dep in visited ==> queue' == queue
  {
    visited', queue', calls', total' := visited, queue, calls, total;
    if dep in visited {
      return;
    }
    visited' := visited' + {dep};
    if w.satisfied(dep) != Some(true) {
      return;
    }
    calls' := calls' + [dep];
    assert calls'[..|calls|] == calls;
    var flipped := w.flip(dep);
    if flipped.None? {
      return;
    }
    total' := total' + flipped.value;
    queue' := queue' + [dep];
    OpenStep(w, closed, head, dep);
  }

  /** The inner loop over one node's dependents. */
  method VisitAll(w: Lookups, ghost closed: string, ghost head: string, dependents: seq<string>,
                  visited: set<string>, queue: seq<string>, calls: seq<string>, total: nat, ghost done: set<string>)
      returns (visited': set<string>, queue': seq<string>, calls': seq<string>, total': nat)
    requires Inv(w, closed, visited, queue, calls, done) && total == Flipped(w, calls)
    requires head in done && DependentsOf(w, head) == Some(dependents)
    ensures Inv(w, closed, visited', queue', calls', done) && total' == Flipped(w, calls')
    ensures visited <= visited' <= visited + (set d | d in dependents)
    ensures Covered(w, head, visited')
    ensures visited' == visited ==> queue' == queue
  {
    visited', queue', calls', total' := visited, queue, calls, total;
    for i := 0 to |dependents|
      invariant Inv(w, closed, visited', queue', calls', done) && total' == Flipped(w, calls')
      invariant visited <= visited' <= visited + (set d | d in dependents)
      invariant forall k :: 0 <= k < i ==> dependents[k] in visited'
      invariant visited' == visited ==> queue' == queue
    {
      assert Edge(w, head, dependents[i]);
      visited', queue', calls', total' :=
        Visit(w, closed, head, dependents[i], visited', queue', calls', total', done);
    }
  }

  lemma DequeueKeepsInv(w: Lookups, closed: string, visited: set<string>, queue: seq<string>, calls: seq<string>,
                        done: set<string>)
    requires Inv(w, closed, visited, queue, calls, done) && queue != []
    ensures Inv(w, closed, visited, queue[1..], calls, done + {queue[0]})
    ensures OpenReach(w, closed, queue[0])
  {
  }

  lemma CoveredGrows(w: Lookups, done: set<string>, head: string, visited: set<string>, more: set<string>)
    requires visited <= more && Covered(w, head, more)
    requires forall n {:trigger Covered(w, n, visited)} :: n in done ==> Covered(w, n, visited)
    ensures forall n {:trigger Covered(w, n, more)} :: n in done + {head} ==> Covered(w, n, more)
  {
    forall n | n in done
      ensures Covered(w, n, more)
    {
      assert Covered(w, n, visited);
    }
  }

  /** The walk terminates on any graph; it flips no node twice; every node it
      flips is one to be activated; and unless a dependents lookup on an open node
      fails it flips them all. The total is what those flips returned. */
  method Propagate(w: Lookups, closed: string) returns (calls: seq<string>, total: nat, failed: bool)
    ensures Distinct(calls) && total == Flipped(w, calls)
    ensures forall d :: d in calls ==> Activates(w, closed, d)
    ensures failed <==> exists n :: OpenReach(w, closed, n) && DependentsOf(w, n).None?
    ensures !failed ==> forall d :: d in calls <==> Activates(w, closed, d)
  {
    var visited, queue := {closed}, [closed];
    calls, total := [], 0;
    ghost var done: set<string> := {};
    assert OpenPath(w, closed, [closed]);
    while queue != []
      invariant Inv(w, closed, visited, queue, calls, done) && total == Flipped(w, calls)
      invariant forall n {:trigger Covered(w, n, visited)} :: n in done ==> Covered(w, n, visited)
      decreases Universe(w) - visited, |queue|
    {
      DequeueKeepsInv(w, closed, visited, queue, calls, done);
      var head := queue[0];
      queue := queue[1..];
      var dependents := DependentsOf(w, head);
      if dependents.None? {
        return calls, total, true;
      }
      ghost var before := visited;
      visited, queue, calls, total :=
        VisitAll(w, closed, head, dependents.value, visited, queue, calls, total, done + {head});
      CoveredGrows(w, done, head, before, visited);
      done := done + {head};
    }
    ExhaustedWalkIsExact(w, closed, visited, calls, done);
    return calls, total, false;
  }

  /** The closed node must be named. */
  method PropagateClosed(w: Lookups, closed: string) returns (r: Result<nat, nat>, calls: seq<string>)
    ensures closed == "" ==> r == Err(0) && calls == []
    ensures Distinct(calls) && forall d :: d in calls ==> Activates(w, closed, d)
    ensures r.Ok? ==> r.value == Flipped(w, calls) && forall d :: d in calls <==> Activates(w, closed, d)
    ensures closed != "" ==> (r.Err? <==> exists n :: OpenReach(w, closed, n) && DependentsOf(w, n).None?)
  {
    if closed == "" {
      return Err(0), [];
    }
    var total, failed;
    calls, total, failed := Propagate(w, closed);
    r := if failed then Err(total) else Ok(total);
  }
}
