/** The append-only execution log. Rows stand in created_at order. */
module ExecutionLog {
  import opened Common
  import opened Sequences

  type RunId = nat

  datatype EventKind = Started | Sample | Turn | Completed | Failed

  datatype Event = Event(kind: EventKind, run: RunId, entity: string)

  predicate Terminal(e: Event) {
    e.kind == Completed || e.kind == Failed
  }

  /** The latest terminal event of the entity is 'completed'. */
  predicate HasCompleted(log: seq<Event>, entity: string) {
    log != [] &&
    var last := log[|log| - 1];
    if last.entity == entity && Terminal(last) then last.kind == Completed
    else HasCompleted(log[..|log| - 1], entity)
  }

  /** Row i is the entity's latest completed or failed row. */
  ghost predicate LatestTerminal(log: seq<Event>, entity: string, i: nat) {
    && i < |log| && log[i].entity == entity && (log[i].kind == Completed || log[i].kind == Failed)
    && forall j :: i < j < |log| && log[j].entity == entity ==> log[j].kind != Completed && log[j].kind != Failed
  }

  /** The entity has completed when its latest completed or failed row is a completed one. */
  lemma {:induction false} CompletedIffLatest(log: seq<Event>, entity: string)
    ensures HasCompleted(log, entity) <==> exists i: nat :: LatestTerminal(log, entity, i) && log[i].kind == Completed
  {
    if log != [] {
      var last := |log| - 1;
      var before := log[..last];
      CompletedIffLatest(before, entity);
      if log[last].entity == entity && Terminal(log[last]) {
        assert LatestTerminal(log, entity, last);
      } else {
        assert forall i: nat :: LatestTerminal(log, entity, i) <==> LatestTerminal(before, entity, i);
      }
    }
  }

  predicate Finished(log: seq<Event>, run: RunId) {
    exists i :: 0 <= i < |log| && Terminal(log[i]) && log[i].run == run
  }

  function OpenIn(log: seq<Event>): Event -> bool {
    (e: Event) => e.kind == Started && !Finished(log, e.run)
  }

  /** Started rows whose run has no terminal row. */
  function InFlight(log: seq<Event>): seq<Event> {
    Select(log, OpenIn(log))
  }

  // ---- How one appended row changes the two queries -------------------------

  lemma CompletedSnoc(log: seq<Event>, e: Event, entity: string)
    ensures HasCompleted(log + [e], entity)
            <==> if e.entity == entity && Terminal(e) then e.kind == Completed else HasCompleted(log, entity)
  {
  }

  lemma FinishedSnoc(log: seq<Event>, e: Event, run: RunId)
    ensures Finished(log + [e], run) <==> Finished(log, run) || (Terminal(e) && e.run == run)
  {
    if Finished(log, run) {
      var i :| 0 <= i < |log| && Terminal(log[i]) && log[i].run == run;
      assert (log + [e])[i] == log[i];
    }
    assert (log + [e])[|log|] == e;
  }

  function NotRun(run: RunId): Event -> bool {
    (e: Event) => e.run != run
  }

  /** A terminal row takes its run out of flight and touches no other. */
  lemma TerminalClosesRun(log: seq<Event>, e: Event)
    requires Terminal(e)
    ensures InFlight(log + [e]) == Select(InFlight(log), NotRun(e.run))
  {
    forall x ensures OpenIn(log + [e])(x) <==> OpenIn(log)(x) && NotRun(e.run)(x) {
      FinishedSnoc(log, e, x.run);
    }
    SelectSnoc(log, e, OpenIn(log + [e]));
    SelectTwice(log, OpenIn(log), NotRun(e.run), OpenIn(log + [e]));
  }

  /** A started row with a fresh run is the one new row in flight. */
  lemma StartOpensRun(log: seq<Event>, e: Event)
    requires e.kind == Started && forall i :: 0 <= i < |log| ==> log[i].run != e.run
    ensures InFlight(log + [e]) == InFlight(log) + [e]
  {
    forall x ensures OpenIn(log + [e])(x) <==> OpenIn(log)(x) {
      FinishedSnoc(log, e, x.run);
    }
    SelectSnoc(log, e, OpenIn(log + [e]));
    SelectSame(log, OpenIn(log + [e]), OpenIn(log));
  }

  /** A completed entity has a completed row. */
  lemma {:induction false} CompletedHasRow(log: seq<Event>, entity: string)
    requires HasCompleted(log, entity)
    ensures exists i :: 0 <= i < |log| && log[i].kind == Completed && log[i].entity == entity
  {
    var last := log[|log| - 1];
    if !(last.entity == entity && Terminal(last)) {
      CompletedHasRow(log[..|log| - 1], entity);
    }
  }

  datatype LogError = EmptyEntityId

  /** Insert lets no row in without an entity. */
  ghost predicate Attributed(log: seq<Event>) {
    forall i :: 0 <= i < |log| ==> log[i].entity != ""
  }

  lemma {:induction false} NobodyCompletesNothing(log: seq<Event>)
    requires Attributed(log)
    ensures !HasCompleted(log, "")
  {
    if log != [] {
      NobodyCompletesNothing(log[..|log| - 1]);
    }
  }

  class Log {
    var events: seq<Event>

    ghost predicate Valid()
      reads this
    {
      Attributed(events)
    }

    constructor ()
      ensures Valid() && events == []
    {
      events := [];
    }

    method Insert(e: Event) returns (r: Result<(), LogError>)
      requires Valid()
      modifies this
      ensures Valid()
      ensures r.Err? <==> e.entity == ""
      ensures events == if r.Ok? then old(events) + [e] else old(events)
    {
      if e.entity == "" {
        return Err(EmptyEntityId);
      }
      events := events + [e];
      return Ok(());
    }

    /** Latest terminal row first, as ORDER BY created_at DESC LIMIT 1 reads it. */
    method QueryCompleted(entity: string) returns (r: Result<bool, LogError>)
      ensures r.Err? <==> entity == ""
      ensures r.Ok? ==> r.value == HasCompleted(events, entity)
    {
      if entity == "" {
        return Err(EmptyEntityId);
      }
      var n := |events|;
      assert events[..n] == events;
      while n > 0
        invariant 0 <= n <= |events|
        invariant HasCompleted(events, entity) == HasCompleted(events[..n], entity)
      {
        var e := events[n - 1];
        CompletedSnoc(events[..n - 1], e, entity);
        assert events[..n] == events[..n - 1] + [e];
        if e.entity == entity && Terminal(e) {
          return Ok(e.kind == Completed);
        }
        n := n - 1;
      }
      return Ok(false);
    }

    method ListInFlight() returns (out: seq<Event>)
      ensures out == InFlight(events)
      ensures forall e :: e in out <==> e in events && e.kind == Started && !Finished(events, e.run)
      ensures forall e :: e in out <==>
                && e in events && e.kind == Started
                && forall f :: f in events && f.run == e.run ==> f.kind != Completed && f.kind != Failed
    {
      out := [];
      for i := 0 to |events|
        invariant out == Select(events[..i], OpenIn(events))
      {
        SelectSnoc(events[..i], events[i], OpenIn(events));
        assert events[..i + 1] == events[..i] + [events[i]];
        if events[i].kind == Started && !Finished(events, events[i].run) {
          out := out + [events[i]];
        }
      }
      assert events[..|events|] == events;
      forall e ensures e in out <==> e in events && OpenIn(events)(e) {
        SelectIn(events, OpenIn(events), e);
      }
    }

    /** Closes a run that has no terminal row. */
    method MarkFailed(run: RunId, entity: string)
      modifies this
      ensures events == old(events) + [Event(Failed, run, entity)]
      ensures old(Valid()) && entity != "" ==> Valid()
    {
      events := events + [Event(Failed, run, entity)];
    }
  }
}
