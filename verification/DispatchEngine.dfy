/** The dispatcher as it runs: closures over the runner's registry and the log. */
module DispatchEngine {
  import opened Common
  import opened Sequences
  import opened ExecutionLog
  import Dispatcher

  lemma BuryNext(log: seq<Event>, open: seq<Event>, i: nat)
    requires i < |open|
    ensures Dispatcher.Bury(log, open[..i + 1])
         == Dispatcher.Bury(log, open[..i]) + [Event(Failed, open[i].run, open[i].entity)]
  {
    assert open[..i + 1] == open[..i] + [open[i]];
    Dispatcher.BurySnoc(log, open[..i], open[i]);
  }

  class Engine {
    const log: Log
    var registry: map<string, RunId>
    var alive: set<RunId>
    var next: RunId

    ghost predicate Valid()
      reads this, log
    {
      log.Valid()
    }

    ghost function State(): Dispatcher.State
      reads this, log
    {
      Dispatcher.State(log.events, registry, alive, next)
    }

    constructor ()
      ensures Valid() && fresh(log) && State() == Dispatcher.INITIAL
    {
      log := new Log();
      registry, alive, next := map[], {}, 0;
    }

    /** Fails the in-flight runs whose process is gone, up to the first live one. */
    method CloseZombies() returns (busy: bool)
      requires Valid()
      modifies log
      ensures Valid()
      ensures var open := InFlight(old(log.events));
              var k := Dispatcher.DeadPrefix(open, alive);
              log.events == Dispatcher.Bury(old(log.events), open[..k]) && (busy <==> k < |open|)
    {
      var inFlight := log.ListInFlight();
      ghost var before := log.events;
      assert forall i :: 0 <= i < |inFlight| ==> inFlight[i] in inFlight && inFlight[i].entity != "";
      ghost var k := Dispatcher.DeadPrefix(inFlight, alive);
      assert Dispatcher.Bury(before, inFlight[..0]) == before;
      for i := 0 to |inFlight|
        invariant i <= k && Valid()
        invariant log.events == Dispatcher.Bury(before, inFlight[..i])
      {
        if inFlight[i].run in alive {
          assert i == k;
          return true;
        }
        assert i < k;
        log.MarkFailed(inFlight[i].run, inFlight[i].entity);
        BuryNext(before, inFlight, i);
      }
      assert inFlight[..|inFlight|] == inFlight;
      return false;
    }

    /** Refuses while an agent runs, closes zombie runs, then starts one agent. */
    method Dispatch(entity: string, startable: set<string>) returns (err: Option<Dispatcher.DispatchError>)
      requires Valid() && "" !in startable
      modifies this, log
      ensures Valid()
      ensures (State(), err) == Dispatcher.Dispatch(old(State()), entity, startable)
    {
      if registry != map[] {
        return Some(Dispatcher.AlreadyRunning);
      }
      var busy := CloseZombies();
      if busy {
        return Some(Dispatcher.AgentAlive);
      }
      if entity !in startable {
        return Some(Dispatcher.NotStarted);
      }
      var _ := log.Insert(Event(Started, next, entity));
      registry, alive, next := registry[entity := next], alive + {next}, next + 1;
      return None;
    }

    /** Some target has not completed; a failed query counts as not completed. */
    method Blocked(targets: seq<string>) returns (blocked: bool)
      requires Valid()
      ensures blocked <==> exists d :: d in targets && !HasCompleted(log.events, d)
    {
      NobodyCompletesNothing(log.events);
      for i := 0 to |targets|
        invariant forall m :: 0 <= m < i ==> HasCompleted(log.events, targets[m])
      {
        var done := log.QueryCompleted(targets[i]);
        if done != Ok(true) {
          return true;
        }
      }
      return false;
    }

    /** Fires every listed task that is not completed and whose depends_on
        targets all are. */
    method FireTasks(taskIds: seq<string>, deps: Dispatcher.Deps, startable: set<string>)
        returns (lastErr: Option<Dispatcher.DispatchError>)
      requires Valid() && "" !in startable
      modifies this, log
      ensures Valid()
      ensures (State(), lastErr) == Dispatcher.Sweep(old(State()), taskIds, deps, startable)
    {
      lastErr := None;
      for i := 0 to |taskIds|
        invariant Valid()
        invariant (State(), lastErr) == Dispatcher.Sweep(old(State()), taskIds[..i], deps, startable)
      {
        assert taskIds[..i + 1][..i] == taskIds[..i];
        NobodyCompletesNothing(log.events);
        var done := log.QueryCompleted(taskIds[i]);
        if done == Ok(true) {
          continue;
        }
        var blocked := Blocked(Dispatcher.DepsOf(deps, taskIds[i]));
        if blocked {
          continue;
        }
        var err := Dispatch(taskIds[i], startable);
        if err.Some? {
          lastErr := err;
        }
      }
      assert taskIds[..|taskIds|] == taskIds;
    }

    /** The runner records the end of a registered run, then forgets it. */
    method RunEnds(task: string, success: bool)
      requires Valid() && task != ""
      modifies this, log
      ensures Valid()
      ensures State() == Dispatcher.Ends(old(State()), task, if success then Completed else Failed)
      ensures task in old(registry) ==>
                var run := old(registry)[task];
                && log.events == old(log.events) + [Event(if success then Completed else Failed, run, task)]
                && registry == old(registry) - {task} && run !in alive
      ensures task !in old(registry) ==> State() == old(State())
    {
      if task in registry {
        var run := registry[task];
        var _ := log.Insert(Event(if success then Completed else Failed, run, task));
        registry, alive := registry - {task}, alive - {run};
      }
    }
  }
}
