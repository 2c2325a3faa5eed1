/**
  The scheduler object: a catalog of registered task records and an ordered
  active set, both holding records by identity, so that a status change made
  by a tick is seen through either list.
 */
module Scheduler {
  import opened Tasks
  import opened TaskLists

  /**
    One tick over the active identifiers `ids`, taken in list order: each record
    is stepped as it is found at that moment. `throws` holds the tasks whose work
    unit throws synchronously when it is called during this tick. (Identifiers
    without a record, which a valid scheduler never holds, are passed over.)
   */
  function TickArena(arena: map<Id, Task>, ids: seq<Id>, now: int, throws: set<Id>): (r: map<Id, Task>)
    ensures r.Keys == arena.Keys
    decreases |ids|
  {
    if ids == [] then arena
    else
      var a := TickArena(arena, ids[..|ids| - 1], now, throws);
      var id := ids[|ids| - 1];
      if id in a then a[id := Step(a[id], now, id in throws)] else a
  }

  /**
    When no record occurs twice in the active list, the sequential tick steps
    each active record exactly once, from its state before the tick, and leaves
    every other record alone.
   */
  lemma {:induction false} TickArenaPointwise(arena: map<Id, Task>, ids: seq<Id>, now: int, throws: set<Id>)
    requires NoDuplicates(ids)
    ensures forall id | id in arena ::
      TickArena(arena, ids, now, throws)[id] == if id in ids then Step(arena[id], now, id in throws) else arena[id]
  {
    if ids != [] {
      var init := ids[..|ids| - 1];
      var last := ids[|ids| - 1];
      assert ids == init + [last];
      assert last !in init;
      TickArenaPointwise(arena, init, now, throws);
    }
  }

  /** Ticking one more identifier steps it in the state the earlier ones left. */
  lemma TickArenaSnoc(arena: map<Id, Task>, ids: seq<Id>, id: Id, now: int, throws: set<Id>)
    requires id in arena
    ensures var a := TickArena(arena, ids, now, throws);
      TickArena(arena, ids + [id], now, throws) == a[id := Step(a[id], now, id in throws)]
  {
    assert (ids + [id])[..|ids|] == ids;
  }

  /**
    A tick keeps every record's name, so names that were distinct in a list
    stay distinct.
   */
  lemma TickKeepsNames(arena: map<Id, Task>, ids: seq<Id>, now: int, throws: set<Id>)
    requires NoDuplicates(ids) && DistinctNames(arena, ids)
    ensures forall id | id in arena :: TickArena(arena, ids, now, throws)[id].name == arena[id].name
    ensures DistinctNames(TickArena(arena, ids, now, throws), ids)
  {
    TickArenaPointwise(arena, ids, now, throws);
  }

  /**
    The active identifiers whose work unit a tick at `now` calls, in list order:
    those whose record is due.
   */
  function DueIds(ids: seq<Id>, arena: map<Id, Task>, now: int): (r: seq<Id>)
    ensures |r| <= |ids|
    ensures forall id | id in r :: id in ids && id in arena && Due(arena[id], now)
    ensures forall id | id in ids && id in arena && Due(arena[id], now) :: id in r
    decreases |ids|
  {
    if ids == [] then []
    else
      var last := ids[|ids| - 1];
      assert ids == ids[..|ids| - 1] + [last];
      DueIds(ids[..|ids| - 1], arena, now) + if last in arena && Due(arena[last], now) then [last] else []
  }

  /** Extending the list by one identifier adds it to the due list exactly when it is due. */
  lemma DueIdsSnoc(ids: seq<Id>, id: Id, arena: map<Id, Task>, now: int)
    requires id in arena
    ensures DueIds(ids + [id], arena, now) == DueIds(ids, arena, now) + if Due(arena[id], now) then [id] else []
  {
    assert (ids + [id])[..|ids|] == ids;
  }

  /** With a single active identifier, the tick calls its work unit exactly when its record is due. */
  lemma DueIdsSingle(id: Id, arena: map<Id, Task>, now: int)
    requires id in arena
    ensures DueIds([id], arena, now) == if Due(arena[id], now) then [id] else []
  {
    DueIdsSnoc([], id, arena, now);
  }

  /**
    A record Running before a tick is not triggered by it and comes out of it
    exactly as it went in: no task runs twice at once.
   */
  lemma RunningTaskIsSkipped(arena: map<Id, Task>, ids: seq<Id>, now: int, throws: set<Id>, id: Id)
    requires NoDuplicates(ids)
    requires id in arena && arena[id].status == Running
    ensures id !in DueIds(ids, arena, now)
    ensures TickArena(arena, ids, now, throws)[id] == arena[id]
  {
    TickArenaPointwise(arena, ids, now, throws);
  }

  /**
    The records after a run of ticks over the same active list with no
    settlement in between; each tick is given by its time and the work units
    that throw during it.
   */
  function Ticks(arena: map<Id, Task>, ids: seq<Id>, ticks: seq<(int, set<Id>)>): (r: map<Id, Task>)
    ensures r.Keys == arena.Keys
    decreases |ticks|
  {
    if ticks == [] then arena
    else Ticks(TickArena(arena, ids, ticks[0].0, ticks[0].1), ids, ticks[1..])
  }

  /**
    However many ticks pass while a task is Running, none of them triggers it
    again or touches its baseline: it stays exactly as it was until it settles.
   */
  lemma {:induction false} RunningIsNeverRetriggered(arena: map<Id, Task>, ids: seq<Id>, ticks: seq<(int, set<Id>)>, id: Id)
    requires NoDuplicates(ids)
    requires id in arena && arena[id].status == Running
    ensures Ticks(arena, ids, ticks)[id] == arena[id]
    decreases |ticks|
  {
    if ticks != [] {
      var next := TickArena(arena, ids, ticks[0].0, ticks[0].1);
      RunningTaskIsSkipped(arena, ids, ticks[0].0, ticks[0].1, id);
      RunningIsNeverRetriggered(next, ids, ticks[1..], id);
    }
  }

  /** A name missing from the records of `s` is the name of no identifier of `s`. */
  lemma NameAbsent(arena: map<Id, Task>, s: seq<Id>, name: string)
    requires Covers(arena, s) && !HasName(Records(arena, s), name)
    ensures forall x | x in s :: arena[x].name != name
  {
    var rs := Records(arena, s);
    forall x | x in s
      ensures arena[x].name != name
    {
      var j :| 0 <= j < |s| && s[j] == x;
      assert rs[j].name == arena[x].name;
    }
  }

  /** Splicing in an identifier whose name no identifier of `s` has keeps names distinct. */
  lemma DistinctNamesSplice(arena: map<Id, Task>, s: seq<Id>, p: nat, id: Id)
    requires p <= |s| && DistinctNames(arena, s) && id in arena
    requires forall x | x in s :: x in arena && arena[x].name != arena[id].name
    ensures DistinctNames(arena, Splice(s, p, id))
  {
    var t := Splice(s, p, id);
    assert forall y | y in t :: y == id || y in s by {
      SpliceFacts(s, p, id);
    }
    forall x, y | x in t && y in t && x in arena && y in arena && arena[x].name == arena[y].name
      ensures x == y
    {
      if x != id && y != id {
        assert x in s && y in s;
      }
    }
  }

  /**
    Inserting a record whose name is not yet in a list of distinct names keeps
    the names distinct, keeps the identifiers distinct and keeps the old order.
   */
  lemma InsertFresh(arena: map<Id, Task>, s: seq<Id>, p: nat, id: Id)
    requires Covers(arena, s) && NoDuplicates(s) && DistinctNames(arena, s)
    requires id in arena && !HasName(Records(arena, s), arena[id].name) && p <= |s|
    ensures id !in s
    ensures var t := Splice(s, p, id);
      Covers(arena, t) && NoDuplicates(t) && DistinctNames(arena, t) && IsSubsequence(s, t)
      && HasName(Records(arena, t), arena[id].name)
  {
    NameAbsent(arena, s, arena[id].name);
    var t := Splice(s, p, id);
    assert NoDuplicates(t) by { SpliceNoDuplicates(s, p, id); }
    assert IsSubsequence(s, t) by { InsertKeepsOrder(s, p, id); }
    assert DistinctNames(arena, t) by { DistinctNamesSplice(arena, s, p, id); }
    assert Covers(arena, t) && HasName(Records(arena, t), arena[id].name) by {
      SpliceFacts(s, p, id);
      assert Records(arena, t)[p].name == arena[id].name;
    }
  }

  lemma RecordsSplice(arena: map<Id, Task>, s: seq<Id>, p: nat, id: Id)
    requires Covers(arena, s + [id]) && p <= |s|
    ensures Covers(arena, Splice(s, p, id))
    ensures Records(arena, Splice(s, p, id)) == Splice(Records(arena, s), p, arena[id])
  {
    SpliceFacts(s, p, id);
    SpliceFacts(Records(arena, s), p, arena[id]);
  }

  /**
    The loop of `execTask`: walk the active identifiers in order, stepping each
    record as it is found and collecting those whose work unit is called.
   */
  method Tick(arena: map<Id, Task>, tasks: seq<Id>, now: int, throws: set<Id>) returns (records: map<Id, Task>, fired: seq<Id>)
    requires Covers(arena, tasks) && NoDuplicates(tasks)
    ensures records == TickArena(arena, tasks, now, throws)
    ensures fired == DueIds(tasks, arena, now)
  {
    records := arena;
    fired := [];
    var i := 0;
    while i < |tasks|
      invariant 0 <= i <= |tasks|
      invariant records == TickArena(arena, tasks[..i], now, throws)
      invariant fired == DueIds(tasks[..i], arena, now)
    {
      var id := tasks[i];
      assert NoDuplicates(tasks[..i]) && id !in tasks[..i] && tasks[..i + 1] == tasks[..i] + [id] by {
        PrefixNoDuplicates(tasks, i);
      }
      assert id in arena && records[id] == arena[id] by {
        TickArenaPointwise(arena, tasks[..i], now, throws);
      }
      var task := records[id];
      assert records[id := Step(task, now, id in throws)] == TickArena(arena, tasks[..i + 1], now, throws) by {
        TickArenaSnoc(arena, tasks[..i], id, now, throws);
      }
      assert DueIds(tasks[..i + 1], arena, now) == fired + if Due(task, now) then [id] else [] by {
        DueIdsSnoc(tasks[..i], id, arena, now);
      }
      if Due(task, now) {
        fired := fired + [id];
      }
      records := records[id := Step(task, now, id in throws)];
      i := i + 1;
    }
    assert tasks[..i] == tasks;
  }

  class TimedTaskQueue {
    /** Every task record ever registered, by identity. */
    var arena: map<Id, Task>
    /** The catalog (`tasks`), in registration order. */
    var catalog: seq<Id>
    /** The active set (`currentTasks`), in tick order. */
    var active: seq<Id>
    /** The identity the next registration receives. */
    var nextId: Id

    ghost predicate Valid()
      reads this
    {
      && Covers(arena, catalog)
      && Covers(arena, active)
      && (forall id | id in arena :: id < nextId)
      && NoDuplicates(catalog)
      && NoDuplicates(active)
      && DistinctNames(arena, active)
    }

    /** The catalog's records. */
    function CatalogView(): seq<Task>
      reads this
      requires Valid()
    {
      Records(arena, catalog)
    }

    /** The active set's records. */
    function ActiveView(): seq<Task>
      reads this
      requires Valid()
    {
      Records(arena, active)
    }

    /** An empty scheduler; the periodic driver that calls `ExecTask` is outside the model. */
    constructor ()
      ensures Valid()
      ensures arena == map[] && catalog == [] && active == []
    {
      arena := map[];
      catalog := [];
      active := [];
      nextId := 0;
    }

    /** `addTask`: register a fresh record built from `opts` at time `now` at the end of the catalog. */
    method AddTask(opts: TaskOptions, now: int)
      requires Valid()
      modifies this
      ensures Valid()
      ensures old(nextId) !in old(arena) && nextId == old(nextId) + 1
      ensures arena == old(arena)[old(nextId) := NewTask(opts, now)]
      ensures catalog == old(catalog) + [old(nextId)] && active == old(active)
      ensures CatalogView() == old(CatalogView()) + [NewTask(opts, now)]
      ensures ActiveView() == old(ActiveView())
    {
      var task := NewTask(opts, now);
      assert nextId !in catalog;
      AppendNoDuplicates(catalog, nextId);
      arena := arena[nextId := task];
      catalog := catalog + [nextId];
      nextId := nextId + 1;
    }

    /**
      `delTask`: drop the catalog records named `name`, and the active records
      whose GROUP is `name`.
     */
    method DelTask(name: string)
      requires Valid()
      modifies this
      ensures Valid()
      ensures arena == old(arena) && nextId == old(nextId)
      ensures catalog == Without(old(catalog), arena, ByName, name)
      ensures active == Without(old(active), arena, ByGroup, name)
    {
      active := Without(active, arena, ByGroup, name);
      catalog := Without(catalog, arena, ByName, name);
    }

    /** `delGroupTask`: drop the records of group `group` from both lists. */
    method DelGroupTask(group: string)
      requires Valid()
      modifies this
      ensures Valid()
      ensures arena == old(arena) && nextId == old(nextId)
      ensures catalog == Without(old(catalog), arena, ByGroup, group)
      ensures active == Without(old(active), arena, ByGroup, group)
    {
      active := Without(active, arena, ByGroup, group);
      catalog := Without(catalog, arena, ByGroup, group);
    }

    /** `getTasks`: the whole catalog for an empty name, else its first record with that name. */
    function GetTasks(name: string): (r: Found)
      reads this
      requires Valid()
      ensures name == "" ==> r == All(CatalogView())
      ensures name != "" && HasName(CatalogView(), name) ==> r.One? && r.task.name == name && r.task in CatalogView()
      ensures name != "" && !HasName(CatalogView(), name) ==> r == NotFound
      ensures r.One? ==> exists k | 0 <= k < |CatalogView()| :: CatalogView()[k] == r.task && !HasName(CatalogView()[..k], name)
    {
      Lookup(CatalogView(), name)
    }

    /** `getCurrentTasks`: the same lookup over the active set. */
    function GetCurrentTasks(name: string): (r: Found)
      reads this
      requires Valid()
      ensures name == "" ==> r == All(ActiveView())
      ensures name != "" && HasName(ActiveView(), name) ==> r.One? && r.task.name == name && r.task in ActiveView()
      ensures name != "" && !HasName(ActiveView(), name) ==> r == NotFound
      ensures r.One? ==> exists k | 0 <= k < |ActiveView()| :: ActiveView()[k] == r.task && !HasName(ActiveView()[..k], name)
    {
      Lookup(ActiveView(), name)
    }

    /**
      `runTask`: unless a task named `name` is already active, insert the
      catalog's first record with that name into the active set at the
      position `Placement` chooses; nothing else changes.
     */
    method RunTask(name: string)
      requires Valid()
      modifies this
      ensures Valid()
      ensures arena == old(arena) && catalog == old(catalog) && nextId == old(nextId)
      ensures HasName(old(ActiveView()), name) || !HasName(CatalogView(), name) ==> active == old(active)
      ensures !HasName(old(ActiveView()), name) && HasName(CatalogView(), name) ==>
        var k := FindIndex(CatalogView(), name);
        var p := Placement(old(ActiveView()), CatalogView()[k]);
        && active == Splice(old(active), p, catalog[k])
        && ActiveView() == Splice(old(ActiveView()), p, CatalogView()[k])
      ensures IsSubsequence(old(active), active)
      ensures HasName(CatalogView(), name) ==> HasName(ActiveView(), name)
    {
      SubsequenceReflexive(active);
      var current := FindIndex(ActiveView(), name);
      if current == -1 {
        var k := FindIndex(CatalogView(), name);
        if k == -1 {
          return;
        }
        var id := catalog[k];
        var p := Placement(ActiveView(), arena[id]);
        InsertFresh(arena, active, p, id);
        RecordsSplice(arena, active, p, id);
        active := Splice(active, p, id);
      }
    }

    /** `stopTask`: drop every active record named `name`; the catalog is untouched. */
    method StopTask(name: string)
      requires Valid()
      modifies this
      ensures Valid()
      ensures arena == old(arena) && catalog == old(catalog) && nextId == old(nextId)
      ensures active == Without(old(active), arena, ByName, name)
      ensures !HasName(ActiveView(), name)
    {
      active := Without(active, arena, ByName, name);
      forall j | 0 <= j < |active|
        ensures ActiveView()[j].name != name
      {
        assert active[j] in active;
      }
    }

    /**
      `execTask` at time `now`: walk the active set in order and step every
      record; `fired` lists, in that order, the tasks whose work unit is called.
      Membership and order of both lists never change.
     */
    method ExecTask(now: int, throws: set<Id>) returns (fired: seq<Id>)
      requires Valid()
      modifies this
      ensures Valid()
      ensures catalog == old(catalog) && active == old(active) && nextId == old(nextId)
      ensures arena.Keys == old(arena).Keys
      ensures forall id | id in arena ::
        arena[id] == if id in active then Step(old(arena)[id], now, id in throws) else old(arena)[id]
      ensures fired == DueIds(active, old(arena), now)
    {
      fired := [];
      if |active| == 0 {
        return;
      }
      ghost var start := arena;
      var tasks := active;
      var records;
      records, fired := Tick(arena, tasks, now, throws);
      arena := records;
      assert forall id | id in arena ::
        arena[id] == if id in tasks then Step(start[id], now, id in throws) else start[id] by {
        TickArenaPointwise(start, tasks, now, throws);
      }
      assert DistinctNames(arena, tasks) by {
        TickKeepsNames(start, tasks, now, throws);
      }
    }

    /**
      The work unit of task `id` settled with the task's own record: its status
      goes back to Stop. Unknown identities change nothing.
     */
    method Complete(id: Id)
      requires Valid()
      modifies this
      ensures Valid()
      ensures catalog == old(catalog) && active == old(active) && nextId == old(nextId)
      ensures id in old(arena) ==> arena == old(arena)[id := old(arena)[id].(status := Stop)]
      ensures id !in old(arena) ==> arena == old(arena)
    {
      if id in arena {
        arena := arena[id := arena[id].(status := Stop)];
      }
    }
  }
}
