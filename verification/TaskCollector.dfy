/** collectAll as it runs: a recursive closure over a seen set and a list. */
module TaskCollector {
  import opened Common
  import opened Sequences
  import opened EdgeModel
  import opened TaskWalk

  class Collector {
    const rows: seq<Edge>
    const entities: Entities
    var seen: set<string>
    var taskIds: seq<string>
    ghost var found: Found

    /** The two variables hold what the walk has found so far. */
    ghost predicate Synced()
      reads this
    {
      seen == Seen(found) && taskIds == Select(found.met, ActiveIn(entities))
    }

    constructor (rows: seq<Edge>, entities: Entities, parent: string)
      ensures this.rows == rows && this.entities == entities
      ensures Synced() && found == Found({parent}, [])
    {
      this.rows, this.entities := rows, entities;
      seen, taskIds := {parent}, [];
      found := Found({parent}, []);
    }

    /** The task branch: mark it seen and keep it if it is active. */
    method MeetTask(edge: Edge)
      requires Synced()
      modifies this
      ensures Synced()
      ensures found == if edge.dstId in old(seen) then old(found) else Meet(old(found), edge.dstId)
    {
      if edge.dstId in seen {
        return;
      }
      MeetSnoc(found, edge.dstId, entities);
      seen, found := seen + {edge.dstId}, Meet(found, edge.dstId);
      if Active(entities, edge.dstId) {
        taskIds := taskIds + [edge.dstId];
      }
    }

    /** The other branch, for a node not seen before: mark it seen; the caller recurses. */
    method EnterGroup(edge: Edge)
      requires Synced() && edge.dstId !in seen
      modifies this`seen, this`found
      ensures Synced() && found == Enter(old(found), edge.dstId)
    {
      seen, found := seen + {edge.dstId}, Enter(found, edge.dstId);
    }

    /** One call of the recursive closure. */
    method CollectAll(id: string)
      requires Synced()
      modifies this
      ensures Synced() && AllIn(Owned(rows, id), rows)
      ensures found == Collect(rows, Owned(rows, id), old(found))
      decreases Destinations(rows) - seen
    {
      var edges := Owned(rows, id);
      OwnedAllIn(rows, id);
      for i := 0 to |edges|
        invariant Synced() && old(seen) <= seen
        invariant AllIn(edges[i..], rows)
        invariant Collect(rows, edges[i..], found) == Collect(rows, edges, old(found))
      {
        var edge := edges[i];
        assert edges[i..][0] == edge && edges[i..][1..] == edges[i + 1..];
        assert edge in rows && edge.dstId in Destinations(rows);
        if edge.dstKind == TASK {
          MeetTask(edge);
        } else if edge.dstId !in seen {
          ghost var before := found;
          EnterGroup(edge);
          CollectAll(edge.dstId);
          assert found == Below(rows, edge, before);
        }
      }
      assert edges[|edges|..] == [];
    }
  }

  /** The ids the walk hands to the sweep. It terminates on any table and returns
      no id twice; every id is an active task other than the parent, reached
      through non-tasks and not first entered as one; and where no node is reached
      both as a task and as a group it returns every active task so reached. */
  method TasksUnder(rows: seq<Edge>, entities: Entities, parent: string) returns (taskIds: seq<string>)
    ensures taskIds == TasksFrom(rows, entities, parent)
    ensures Distinct(taskIds)
    ensures forall t :: t in taskIds ==> t != parent && Active(entities, t) && TaskReachFirst(rows, parent, t)
    ensures forall t :: t in taskIds ==> t in entities && entities[t] != "archived" && entities[t] != "closed"
    ensures Unmixed(rows, parent) ==>
              forall t :: t in taskIds <==>
                && t != parent && t in entities && entities[t] != "archived" && entities[t] != "closed"
                && TaskReach(rows, parent, t)
  {
    var c := new Collector(rows, entities, parent);
    c.CollectAll(parent);
    taskIds := c.taskIds;
    WalkIsSound(rows, entities, parent);
    if Unmixed(rows, parent) {
      UnmixedIsExact(rows, entities, parent);
    }
  }

  function Link(src: string, dstKind: string, dst: string): Edge {
    Edge("manifest", src, dstKind, dst, OWNS, "", 0, None, "", "", 0)
  }

  /** x is stored once as a manifest and once as a task below itself. */
  function DisagreeingRows(p: string, x: string, y: string): seq<Edge> {
    [Link(p, "manifest", x), Link(x, "manifest", y), Link(y, TASK, x)]
  }

  lemma NoFirstWayToX(p: string, x: string, y: string)
    requires p != x && p != y && x != y
    ensures TaskReach(DisagreeingRows(p, x, y), p, x) && !TaskReachFirst(DisagreeingRows(p, x, y), p, x)
  {
    var rows := DisagreeingRows(p, x, y);
    var path := [rows[0], rows[1]];
    assert OwnsPath(rows, p, path) && NoTaskOn(path) && End(p, path) == y;
    assert OwnsEdge(rows, rows[2]) && GroupReach(rows, p, rows[2].srcId);
    forall nodes: set<string> | GroupReachIn(rows, p, y, nodes)
      ensures x in nodes
    {
      var q: seq<Edge> :| OwnsPath(rows, p, q) && NoTaskOn(q) && Through(q, nodes) && End(p, q) == y;
      assert OwnsEdge(rows, q[0]) && q[0].srcId == p;
      assert q[0] == rows[0] && q[0].dstId in nodes;
    }
  }

  /** Why mixed nodes are excluded: the walk has entered x as a group before it meets
      it as a task, so the sweep never sees it. */
  method DisagreeingKindsLoseTask(p: string, x: string, y: string) returns (taskIds: seq<string>)
    requires p != x && p != y && x != y
    ensures TaskReach(DisagreeingRows(p, x, y), p, x) && x !in taskIds
  {
    NoFirstWayToX(p, x, y);
    taskIds := TasksUnder(DisagreeingRows(p, x, y), map[x := "active"], p);
  }
}
