/** The runner: schedule rows in the table, and cron kept in step with them
    through the entries map. */
module ScheduleRunner {
  import opened Common
  import opened ScheduleModel

  type EntryId = nat

  datatype ScheduleError = EmptyEntityId | InvalidKind | EmptyRunAt | BadId

  lemma NonEmpty(ids: set<ScheduleId>)
    requires ids != {}
    ensures exists id :: id in ids
  {
    assert (forall id: ScheduleId :: id !in ids) ==> ids == {};
  }

  class Runner {
    var rows: Table
    var nextId: ScheduleId
    var entries: map<ScheduleId, EntryId>   // schedule id to cron entry
    var cron: map<EntryId, ScheduleId>      // registered entries and the schedule each fires
    var nextEntry: EntryId
    ghost var fires: map<ScheduleId, nat>
    ghost var initial: map<ScheduleId, int>

    /** entries and cron are inverse to each other. */
    ghost predicate Synced()
      reads this
    {
      && (forall id :: id in entries ==> entries[id] in cron && cron[entries[id]] == id)
      && (forall e :: e in cron ==> e < nextEntry && cron[e] in entries && entries[cron[e]] == e)
    }

    ghost predicate Valid()
      reads this
    {
      Synced() && nextId > 0 && forall id :: id in rows ==> 0 < id < nextId
    }

    ghost function World(): World
      reads this
    {
      ScheduleModel.World(rows, entries.Keys, fires, initial)
    }

    constructor ()
      ensures Valid() && World() == EMPTY
    {
      rows, nextId := map[], 1;
      entries, cron, nextEntry := map[], map[], 0;
      fires, initial := map[], map[];
    }

    /** Opens a new row under a fresh id. */
    method Create(row: Schedule) returns (r: Result<ScheduleId, ScheduleError>)
      requires Valid()
      modifies this
      ensures Valid()
      ensures r.Err? <==> row.entity == "" || row.kind == "" || row.runAt.None?
      ensures r.Err? ==> World() == old(World())
      ensures r.Err? ==> r.error == if row.entity == "" then EmptyEntityId else if row.kind == "" then InvalidKind
                                    else EmptyRunAt
      ensures r.Ok? ==> r.value !in old(rows) && World() == Next(old(World()), CreateStep(r.value, row))
      ensures r.Ok? ==> rows == old(rows)[r.value := row.(validTo := None)] && entries == old(entries)
    {
      if row.entity == "" {
        return Err(EmptyEntityId);
      }
      if row.kind == "" {
        return Err(InvalidKind);
      }
      if row.runAt.None? {
        return Err(EmptyRunAt);
      }
      var id := nextId;
      rows, nextId := rows[id := row.(validTo := None)], nextId + 1;
      fires, initial := fires[id := 0], initial[id := row.runsSoFar];
      return Ok(id);
    }

    method Close(id: ScheduleId, now: Stamp) returns (r: Result<(), ScheduleError>)
      requires Valid()
      modifies this`rows
      ensures Valid()
      ensures r.Err? <==> id <= 0
      ensures r.Err? ==> r.error == BadId
      ensures World() == Next(old(World()), CloseStep(id, now))
      ensures rows.Keys == old(rows).Keys && forall k :: k in rows ==>
                rows[k] == if k == id && old(rows)[k].validTo.None? then old(rows)[k].(validTo := Some(now))
                           else old(rows)[k]
    {
      if id <= 0 {
        return Err(BadId);
      }
      if id in rows {
        rows := rows[id := CloseRow(rows[id], now)];
      }
      return Ok(());
    }

    /** At startup: closes the open one-shots whose time has passed. */
    method CloseStaleOneShots(now: Stamp)
      requires Valid()
      modifies this`rows
      ensures Valid()
      ensures World() == Next(old(World()), CloseStaleStep(now))
      ensures rows.Keys == old(rows).Keys && forall id :: id in rows ==>
                var row := old(rows)[id];
                rows[id] == if && row.validTo.None? && (row.cronExpr == "" || row.cronExpr == "once")
                               && row.runAt.Some? && row.runAt.value < now
                            then row.(validTo := Some(now)) else row
    {
      rows := map id | id in rows :: if Stale(rows[id], now) then CloseRow(rows[id], now) else rows[id];
    }

    /** cron.Remove and delete(entries, id), under the lock. */
    method Unregister(id: ScheduleId)
      requires Valid()
      modifies this`entries, this`cron
      ensures Valid()
      ensures entries == map k | k in old(entries) && k != id :: old(entries)[k]
    {
      if id in entries {
        cron := cron - {entries[id]};
      }
      entries := map k | k in entries && k != id :: entries[k];
    }

    method Register(id: ScheduleId)
      requires Valid() && id !in entries
      modifies this`entries, this`cron, this`nextEntry
      ensures Valid()
      ensures entries.Keys == old(entries).Keys + {id}
      ensures forall k :: k in old(entries) ==> entries[k] == old(entries)[k]
    {
      cron := cron[nextEntry := id];
      entries := entries[id := nextEntry];
      nextEntry := nextEntry + 1;
    }

    /** Removes the entries whose row is no longer wanted. */
    method DropStale(want: set<ScheduleId>)
      requires Valid()
      modifies this`entries, this`cron
      ensures Valid()
      ensures entries == map id | id in old(entries) && id in want :: old(entries)[id]
      ensures old(entries).Keys <= want ==> cron == old(cron)
    {
      var stale := entries.Keys - want;
      while stale != {}
        invariant Valid()
        invariant stale <= old(entries).Keys - want
        invariant entries == map id | id in old(entries) && (id in want || id in stale) :: old(entries)[id]
        invariant old(entries).Keys <= want ==> cron == old(cron)
        decreases stale
      {
        NonEmpty(stale);
        var id: ScheduleId :| id in stale;
        Unregister(id);
        stale := stale - {id};
      }
    }

    /** Registers every wanted row that has no entry and whose schedule parses. */
    method AddMissing(want: set<ScheduleId>, parses: ScheduleId -> bool)
      requires Valid()
      modifies this`entries, this`cron, this`nextEntry
      ensures Valid()
      ensures entries.Keys == old(entries).Keys + set id | id in want && parses(id)
      ensures forall id :: id in old(entries) ==> entries[id] == old(entries)[id]
      ensures (forall id :: id in want && parses(id) ==> id in old(entries)) ==>
                entries == old(entries) && cron == old(cron) && nextEntry == old(nextEntry)
    {
      var missing := want - entries.Keys;
      while missing != {}
        invariant Valid()
        invariant missing <= want - old(entries).Keys
        invariant entries.Keys == old(entries).Keys + set id | id in want && parses(id) && id !in missing
        invariant forall id :: id in old(entries) ==> entries[id] == old(entries)[id]
        invariant (forall id :: id in want && parses(id) ==> id in old(entries)) ==>
                    entries == old(entries) && cron == old(cron) && nextEntry == old(nextEntry)
        decreases missing
      {
        NonEmpty(missing);
        var id: ScheduleId :| id in missing;
        if parses(id) {
          Register(id);
        }
        missing := missing - {id};
      }
    }

    /** The locked section of Reload, for whatever ids were listed: entries and
        cron end in step, an entry that stays keeps its registration, and a second
        call with the same list finds nothing to do. */
    method ReloadLocked(want: set<ScheduleId>, parses: ScheduleId -> bool)
      requires Valid()
      modifies this`entries, this`cron, this`nextEntry
      ensures Valid()
      ensures entries.Keys == Reloaded(old(entries).Keys, want, parses)
      ensures forall id :: id in entries <==> id in want && (id in old(entries) || parses(id))
      ensures forall id :: id in old(entries) && id in want ==> entries[id] == old(entries)[id]
      ensures old(entries).Keys == Reloaded(old(entries).Keys, want, parses) ==>
                entries == old(entries) && cron == old(cron) && nextEntry == old(nextEntry)
    {
      DropStale(want);
      AddMissing(want, parses);
    }

    /** Reload as one atomic section: list the due rows, then re-sync. */
    method Reload(parses: ScheduleId -> bool)
      requires Valid()
      modifies this`entries, this`cron, this`nextEntry
      ensures Valid()
      ensures World() == Next(old(World()), ReloadStep(parses))
      ensures forall id :: id in entries <==>
                && id in rows && rows[id].validTo.None? && rows[id].enabled
                && (rows[id].maxRuns == 0 || rows[id].runsSoFar < rows[id].maxRuns)
                && (id in old(entries) || parses(id))
      ensures forall id :: id in old(entries) && id in entries ==> entries[id] == old(entries)[id]
    {
      ReloadLocked(DueIds(rows), parses);
    }

    /** One firing of a registered job. A dispatch error leaves the row and its
        registration alone. */
    method RunJob(id: ScheduleId, dispatched: bool)
      requires Valid() && id in entries && id in rows && id in fires
      modifies this
      ensures Valid()
      ensures World() == Next(old(World()), FireStep(id, dispatched))
      ensures !dispatched ==> rows == old(rows) && entries == old(entries)
      ensures dispatched ==> rows.Keys == old(rows).Keys && forall k :: k in rows ==>
                var row := old(rows)[k];
                rows[k] == if k == id && row.validTo.None? then
                             row.(runsSoFar := row.runsSoFar + 1,
                                  enabled := if row.maxRuns > 0 && row.runsSoFar + 1 >= row.maxRuns then false
                                             else row.enabled)
                           else row
      ensures dispatched ==> entries == map k | k in old(entries) && k != id :: old(entries)[k]
    {
      if !dispatched {
        return;
      }
      rows := rows[id := FiredRow(rows[id])];
      fires := fires[id := fires[id] + 1];
      Unregister(id);
    }
  }
}
