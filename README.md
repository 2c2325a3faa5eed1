# TimedTaskQueue in Dafny

This project models `TimedTaskQueue`, an in-memory scheduler of recurring tasks.

The scheduler keeps two lists of task records:

- The **catalog** (`tasks`) holds every registered task. `addTask` appends to it; `delTask` and `delGroupTask` filter it; `getTasks` looks records up in it.
- The **active set** (`currentTasks`) holds the tasks that the periodic tick considers. `runTask` inserts a catalog record into it, at a position chosen from the task's `task_before` or `task_after` name. `stopTask` filters it; `getCurrentTasks` looks records up in it.

Each tick (`execTask`) walks the active set in order, using one timestamp. For each record it does one of four things:

- skips it, when the record is already running;
- sets its unset baseline `exec_time`;
- skips it, when less than one interval has elapsed;
- triggers its work unit, marking it `Running` and re-arming the baseline.

Both lists share the same record objects. A tick's change to a record is therefore visible through both.

The model has four modules:

- `Tasks` (`tasks.dfy`) holds the record `Task` (`TaskI`) and `Status` (`TaskStatus`). It also holds the defaults filled in at registration (`NewTask`), the due-ness rule (`Due`) and what one tick does to one record (`Step`).
- `TaskLists` (`lists.dfy`) holds the list operations:
  - first-match search (`FindIndex`);
  - the optional-name lookup (`Lookup`);
  - the insertion position of `runTask` (`Placement`);
  - order-preserving filtering (`Filter`, `Without`).
- `Scheduler` (`scheduler.dfy`) holds the class `TimedTaskQueue`. Its field `arena: map<Id, Task>` holds every record by identity. The fields `catalog` and `active` are sequences of identities, so a shared identity is a shared reference. The class invariant `Valid()` says four things:
  - every listed identity has a record;
  - neither list repeats an identity;
  - identities are below `nextId`;
  - no two active records share a name.
  
  The tick loop is the method `Tick`, which is specified by the functions `TickArena` and `DueIds`.
- `Scenarios` (`scenarios.dfy`) holds short client runs whose outcomes follow from the contracts alone.

The model leaves out the clock, the caller's work unit and the asynchronous settlement, and stands them in as follows:

- The clock becomes a parameter `now`.
- The work unit becomes a parameter `throws`: the set of tasks whose work unit throws synchronously during the tick.
- The settlement becomes the explicit event `Complete(id)`.

An `exec_time` of 0 means "unset", matching the falsy test of the tick.

## Model

| member | source | states |
|---|---|---|
| Tasks.NewTask | timed_task_queue.ts:32-39 | The registered record copies the name, `incl_exec` and the before/after names, and has status Stop. An absent or empty group becomes "". A zero interval becomes 1000; any other interval is kept. The baseline is `now` minus the RAW option interval with `incl_exec`, and `now` without it. |
| Tasks.Step | timed_task_queue.ts:127-141 | One tick changes only a record's status and baseline. A Running record comes out unchanged. A due record gets baseline `now` and is Running exactly when its work unit did not throw. A stopped record with an unset (0) baseline gets baseline `now` without being triggered. Any other record that is not due is unchanged. |
| Tasks.Due | timed_task_queue.ts:128-139 | The due rule: the record is not running, its baseline is set (not 0), and at least one interval has elapsed since the baseline. |
| Tasks.DueExactlyWhenTriggered | timed_task_queue.ts:128-141 | For a stopped record, a tick triggers it (marks it Running when its work unit does not throw) exactly when it is due. Being due means that its baseline is set and one interval has elapsed. |
| Tasks.FirstTickAfterRegistration | timed_task_queue.ts:36-38 | A task registered with a positive interval and a set baseline is due at a later tick exactly when it has `incl_exec` or a whole interval has elapsed since registration. |
| Tasks.ZeroIntervalInclExecWaitsDefault | timed_task_queue.ts:37-38 | With a zero interval and `incl_exec`, the baseline is the registration time, because it is backdated by the raw 0. Such a task is due only once the default 1000 ms have elapsed. |
| Tasks.FailedTaskIsRetriedOnSchedule | timed_task_queue.ts:140-141 | A due task whose work unit throws synchronously ends the tick at Stop with baseline `now`. It is due again exactly one interval later, and not a millisecond earlier. |
| TaskLists.FindIndex | timed_task_queue.ts:91-93 | The result is -1 exactly when no record has the name. Otherwise it is the position of a record with that name, and no earlier record has the name. |
| TaskLists.Lookup | timed_task_queue.ts:61-77 | An empty name yields the whole list. A non-empty name yields one record exactly when the list has that name, and that record is the first one with the name. |
| TaskLists.Placement | timed_task_queue.ts:90-112 | The four placement rules. An active `task_before` name places the task at its first match, so the task lands just before it. An inactive `task_before` name appends the task and ignores `task_after`. With no before name, an active `task_after` name places the task just after its first match. Otherwise the task is appended. |
| TaskLists.Filter | timed_task_queue.ts:44-49 | The result is a subsequence of the input, in the same order. It holds exactly the elements that pass, keeps the input free of duplicates, and is the whole input when every element passes. |
| TaskLists.Without | timed_task_queue.ts:116-120 | Removal by name or group keeps exactly the identities whose key differs, in their original order, with no duplicates. It removes nothing when nothing matches. |
| TaskLists.Splice | timed_task_queue.ts:95-111 | Inserting at a position keeps the entries before it, puts the new entry at that position, and shifts the rest up by one. |
| TaskLists.InsertKeepsOrder | timed_task_queue.ts:95-111 | Inserting a new element anywhere, by splice or push, keeps every earlier element in its relative order. |
| TaskLists.WithoutIdempotent | timed_task_queue.ts:116-120 | Filtering twice by the same key equals filtering once, so `stopTask` is idempotent. |
| Scheduler.TickArena | timed_task_queue.ts:127-141 | The sequential tick over the active identities keeps the set of records. |
| Scheduler.TickArenaPointwise | timed_task_queue.ts:127-141 | In a tick over a duplicate-free active list, each active record is stepped exactly once from its state before the tick. Every other record is unchanged. |
| Scheduler.TickKeepsNames | timed_task_queue.ts:127-141 | A tick changes no record's name, so active names stay distinct. |
| Scheduler.DueIds | timed_task_queue.ts:136-144 | The identities whose work unit a tick calls are exactly the active identities whose record is due, and there are no more of them than active identities. |
| Scheduler.Ticks | timed_task_queue.ts:26-28 | A run of ticks over the same active list keeps the set of records. |
| Scheduler.RunningIsNeverRetriggered | timed_task_queue.ts:128-131 | However many ticks pass over a duplicate-free active list, a record that is Running stays exactly as it was: no double trigger, and its baseline is untouched. |
| Scheduler.RunningTaskIsSkipped | timed_task_queue.ts:128-131 | A record Running at the start of a tick is not called by it, and leaves it unchanged. |
| Scheduler.DueIdsSingle | timed_task_queue.ts:127-144 | With one active task, the tick calls its work unit exactly when its record is due. |
| Scheduler.InsertFresh | timed_task_queue.ts:79-112 | Inserting a catalog record whose name is not active keeps the active list's invariant: every identity has a record, there are no duplicates and the names are distinct. The old entries keep their order, and afterwards the name is active. |
| Scheduler.Tick | timed_task_queue.ts:127-160 | The loop of `execTask` returns exactly `TickArena` of its input, plus the due identities in list order. |
| Scheduler.TimedTaskQueue.constructor | timed_task_queue.ts:21-24 | The scheduler starts with an empty catalog and an empty active set. |
| Scheduler.TimedTaskQueue.AddTask | timed_task_queue.ts:32-41 | A fresh identity is appended to the catalog, and its record is `NewTask(opts, now)`. The catalog's records are the old ones plus the new record at the end. The active set is unchanged. |
| Scheduler.TimedTaskQueue.DelTask | timed_task_queue.ts:43-50 | The catalog loses its records named `name`. The active set loses its records whose GROUP is `name`. Both keep the remaining order, and no record changes. |
| Scheduler.TimedTaskQueue.DelGroupTask | timed_task_queue.ts:52-59 | Both lists lose exactly the records of the group, and keep the remaining order. |
| Scheduler.TimedTaskQueue.GetTasks | timed_task_queue.ts:61-68 | An empty name yields the whole catalog. Otherwise the result is the first catalog record with that name when one exists, and nothing when none does. |
| Scheduler.TimedTaskQueue.GetCurrentTasks | timed_task_queue.ts:70-77 | The same lookup over the active set: the whole set for an empty name, otherwise its first record with the name, or nothing. |
| Scheduler.TimedTaskQueue.RunTask | timed_task_queue.ts:79-114 | Nothing changes when the name is already active or absent from the catalog. Otherwise the first catalog record with the name is spliced into the active set at its `Placement`, and nothing else changes. The old active entries keep their order, the invariant holds, and the name is then active. |
| Scheduler.TimedTaskQueue.StopTask | timed_task_queue.ts:116-120 | The active set loses exactly its records named `name`, in order, and the name is no longer active. The catalog and the records are untouched. |
| Scheduler.TimedTaskQueue.ExecTask | timed_task_queue.ts:122-160 | Neither list changes. Each active record is stepped once from its state before the tick, and every other record is unchanged. The called identities are `DueIds` of the active list. |
| Scheduler.TimedTaskQueue.Complete | timed_task_queue.ts:152-155 | Settlement of a task's work unit, resolved with the task itself, sets that record's status back to Stop and changes nothing else. |
| Scenarios.BeforeAndAfterPlacement | timed_task_queue.ts:90-112 | With A and B active: C (before B) gives A C B; D (after A) gives A D B; E (before an inactive name, after A) gives A B E. |
| Scenarios.PingRun | timed_task_queue.ts:127-141 | A task with a 100 ms interval is not called at registration time. It is called once 150 ms later, skipped while pending, and called again after it settles. |
| Scenarios.FailingTaskKeepsItsSchedule | timed_task_queue.ts:156-159 | A task whose work unit throws is called, stays active, and is called again one interval later. |
| Scenarios.RunTwiceThenStop | timed_task_queue.ts:79-83 | Activating an active task twice leaves one entry. After `stopTask`, the next tick calls nothing. |
| Scenarios.DelTaskKeepsActiveByName | timed_task_queue.ts:43-50 | After `delTask("x")`, a task named x that has no group is gone from the catalog but still active. |

## Left out

- The constructor's periodic driver (`setInterval`) and its period are left out. `ExecTask` is an operation that a client calls.
- The wall clock is left out. Each operation that reads the time takes it as the parameter `now`.
- The caller's work unit and its promise chain are left out. A synchronous throw is the parameter `throws`; a settlement is the explicit `Complete(id)`.
- The rejection path is left out. There the final handler resets the status of the rejection value, not of the task record, so no reset after a rejection is claimed.
- A work unit that resolves with something other than its own task is left out. In that case the reset lands on that other value.
- Calls from a work unit back into the scheduler during a tick are not modelled. The tick iterates the list as it was when the tick started.
- `logger` and the `debug` flag are console output only.
- JavaScript `NaN` and `undefined` values for the interval or the baseline are left out. Intervals and times are integers, and 0 stands for an unset baseline.
- `getTasks` and `getCurrentTasks` return record values, not live references. Aliasing is modelled through shared identities in the arena.
- The caller's own `status` and `exec_time` in the options are always overwritten, so `TaskOptions` does not carry them.
- The tick loop assumes the active list has no duplicate identities and that every identity has a record. This holds for every state that the operations can reach, because the class invariant `Valid()` guarantees it.
