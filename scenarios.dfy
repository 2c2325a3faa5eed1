/**
  Short client runs of the scheduler whose outcomes follow from the contracts
  of its operations alone: the ordering, activation and tick behaviour that
  callers observe.
 */
module Scenarios {
  import opened Tasks
  import opened TaskLists
  import opened Scheduler

  function Names(s: seq<Task>): (r: seq<string>)
    ensures |r| == |s| && forall k | 0 <= k < |s| :: r[k] == s[k].name
  {
    seq(|s|, k requires 0 <= k < |s| => s[k].name)
  }

  /** Options for a plain task: default-able interval, no placement hints, no group. */
  function Plain(name: string, interval: int): TaskOptions {
    TaskOptions(name, interval, false, "", "", None)
  }

  /**
    With A and B active, activating C with `before = "B"` puts it between them;
    activating D with `after = "A"` puts it right after A; activating E whose
    `before` is not active appends it, without consulting its `after`.
   */
  lemma BeforeAndAfterPlacement(now: int)
    ensures var ab := [NewTask(Plain("A", 1000), now), NewTask(Plain("B", 1000), now)];
      var c := NewTask(TaskOptions("C", 1000, false, "B", "", None), now);
      var d := NewTask(TaskOptions("D", 1000, false, "", "A", None), now);
      var e := NewTask(TaskOptions("E", 1000, false, "Z", "A", None), now);
      && Names(Splice(ab, Placement(ab, c), c)) == ["A", "C", "B"]
      && Names(Splice(ab, Placement(ab, d), d)) == ["A", "D", "B"]
      && Names(Splice(ab, Placement(ab, e), e)) == ["A", "B", "E"]
  {
    var ab := [NewTask(Plain("A", 1000), now), NewTask(Plain("B", 1000), now)];
    assert ab[0].name == "A" && ab[1].name == "B";
  }

  /** A scheduler with one task registered from `opts` at time `now` and activated. */
  method Activated(opts: TaskOptions, now: int) returns (q: TimedTaskQueue, id: Id)
    ensures fresh(q) && q.Valid()
    ensures q.active == [id] && q.catalog == [id] && q.arena == map[id := NewTask(opts, now)]
  {
    q := new TimedTaskQueue();
    q.AddTask(opts, now);
    id := q.catalog[0];
    assert q.CatalogView() == [q.arena[id]] && q.ActiveView() == [];
    assert HasName(q.CatalogView(), opts.name) && !HasName(q.ActiveView(), opts.name) by {
      assert q.CatalogView()[0].name == opts.name;
    }
    q.RunTask(opts.name);
  }

  /**
    Ticks on a freshly activated "ping" with interval 100: at once nothing
    fires, 150 ms later it fires exactly once, and a tick while its work is
    pending skips it; once it has settled it fires again one interval after
    the previous run.
   */
  method PingRun(start: int) returns (first: seq<Id>, second: seq<Id>, pending: seq<Id>, settled: seq<Id>)
    requires start > 0
    ensures first == [] && |second| == 1 && pending == [] && settled == second
  {
    var q, id := Activated(Plain("ping", 100), start);
    ghost var ping := q.arena[id];
    DueIdsSingle(id, q.arena, start);
    first := q.ExecTask(start, {});
    assert q.arena[id] == ping;
    DueIdsSingle(id, q.arena, start + 150);
    second := q.ExecTask(start + 150, {});
    ghost var running := q.arena[id];
    assert running.status == Running;
    DueIdsSingle(id, q.arena, start + 200);
    pending := q.ExecTask(start + 200, {});
    q.Complete(id);
    assert q.arena[id] == ping.(execTime := start + 150);
    DueIdsSingle(id, q.arena, start + 250);
    settled := q.ExecTask(start + 250, {});
  }

  /**
    A task whose work unit throws synchronously is triggered, put back to Stop,
    and triggered again one interval later; it never leaves the active set.
   */
  method FailingTaskKeepsItsSchedule(start: int) returns (first: seq<Id>, again: seq<Id>, activeAfter: seq<Id>)
    requires start > 0
    ensures |first| == 1 && again == first && activeAfter == first
  {
    var q, id := Activated(TaskOptions("flaky", 100, true, "", "", None), start + 100);
    first := q.ExecTask(start + 100, {id});
    assert first == [id];
    assert q.arena[id].status == Stop && q.arena[id].execTime == start + 100;
    again := q.ExecTask(start + 200, {id});
    assert again == [id];
    activeAfter := q.active;
  }

  /**
    Activating a task that is already active changes nothing, and a stopped
    task is not triggered by the next tick.
   */
  method RunTwiceThenStop(now: int) returns (activeAfterTwice: seq<Id>, fired: seq<Id>)
    requires now > 0
    ensures |activeAfterTwice| == 1
    ensures fired == []
  {
    var q, id := Activated(TaskOptions("job", 100, true, "", "", None), now);
    assert q.ActiveView()[0].name == "job";
    q.RunTask("job");
    activeAfterTwice := q.active;
    q.StopTask("job");
    assert q.active == [];
    fired := q.ExecTask(now + 1000, {});
  }

  /**
    `delTask` drops the catalog record by name but filters the active set by
    group: a task in no group stays active after it is deleted by name.
   */
  method DelTaskKeepsActiveByName(now: int) returns (catalogHit: Found, activeHit: Found)
    ensures catalogHit == NotFound
    ensures activeHit.One? && activeHit.task.name == "x"
  {
    var q, id := Activated(Plain("x", 1000), now);
    q.DelTask("x");
    assert q.catalog == [] && q.active == [id];
    catalogHit := q.GetTasks("x");
    assert q.ActiveView()[0].name == "x";
    activeHit := q.GetCurrentTasks("x");
  }
}
