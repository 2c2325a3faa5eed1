/**
  Task records of the recurring-task scheduler, the defaults filled in at
  registration, and the decision one tick makes about one record.
 */
module Tasks {

  datatype Option<T> = None | Some(value: T)

  /** Stable identity of a task record: the catalog and the active set share records by identity. */
  type Id = nat

  /** The per-task concurrency guard (`TaskStatus`: Stop = 0, Running = 1). */
  datatype Status = Stop | Running

  /**
    A registered task record (`TaskI` after `addTask`). Intervals and times are
    integer milliseconds; an `execTime` of 0 is the "unset" baseline, because the
    tick tests it for falsiness. The caller's `func` is not part of the record:
    its effect on a tick is a parameter of the tick.
   */
  datatype Task = Task(
    name: string,
    interval: int,
    inclExec: bool,
    before: string,
    after: string,
    status: Status,
    execTime: int,
    group: string)

  /**
    What a caller passes to `addTask`. The caller's `status` and `exec_time` are
    always overwritten, so they are not carried; a missing `group_name` is `None`.
   */
  datatype TaskOptions = TaskOptions(
    name: string,
    interval: int,
    inclExec: bool,
    before: string,
    after: string,
    group: Option<string>)

  /** Interval substituted for a falsy (zero) one at registration. */
  const DefaultInterval: int := 1000

  /**
    The record `addTask` builds from the caller's options at time `now`: a copy
    with the group defaulted to "", a zero interval replaced by the default, status
    Stop, and a baseline backdated by the RAW option interval when `inclExec` is set.
   */
  function NewTask(opts: TaskOptions, now: int): (t: Task)
    ensures t.name == opts.name && t.inclExec == opts.inclExec
    ensures t.before == opts.before && t.after == opts.after
    ensures t.status == Stop
    ensures t.interval != 0
    ensures opts.interval != 0 ==> t.interval == opts.interval
    ensures opts.interval == 0 ==> t.interval == DefaultInterval
    ensures opts.group == None || opts.group == Some("") ==> t.group == ""
    ensures opts.group.Some? ==> t.group == opts.group.value
    ensures opts.inclExec ==> t.execTime + opts.interval == now
    ensures !opts.inclExec ==> t.execTime == now
  {
    var group := match opts.group
      case Some(g) => g
      case None => "";
    Task(opts.name,
         if opts.interval != 0 then opts.interval else DefaultInterval,
         opts.inclExec,
         opts.before,
         opts.after,
         Stop,
         if opts.inclExec then now - opts.interval else now,
         group)
  }

  /**
    A record is due at `now` when no execution of it is in flight, its baseline
    is set, and at least one interval has elapsed since that baseline.
   */
  predicate Due(t: Task, now: int) {
    t.status == Stop && t.execTime != 0 && now - t.execTime >= t.interval
  }

  /**
    What one tick at `now` does to one active record, following the branches of
    `execTask`: skip a running task, set an unset baseline without triggering,
    skip a task that is not yet due, otherwise mark it Running and re-arm its
    baseline; `throws` says whether the caller's work unit threw synchronously,
    in which case the status goes back to Stop.
   */
  function Step(t: Task, now: int, throws: bool): (r: Task)
    ensures t.status == Running ==> r == t
    ensures r == t.(status := r.status, execTime := r.execTime)
    ensures Due(t, now) ==> r.execTime == now && (r.status == Running <==> !throws)
    ensures !Due(t, now) ==> r.status == t.status
    ensures t.status == Stop && t.execTime == 0 ==> r == t.(execTime := now)
    ensures !Due(t, now) && r != t ==> t.status == Stop && t.execTime == 0 && r.execTime == now
  {
    if t.status == Running then t
    else if t.execTime == 0 then t.(execTime := now)
    else if now - t.execTime < t.interval then t
    else
      var fired := t.(status := Running, execTime := now);
      if throws then fired.(status := Stop) else fired
  }

  /**
    The due rule is exactly the rule for triggering: a tick marks a stopped
    record Running (when its work unit does not throw) if and only if the
    record is due.
   */
  lemma DueExactlyWhenTriggered(t: Task, now: int)
    requires t.status == Stop
    ensures Due(t, now) <==> Step(t, now, false).status == Running
    ensures Due(t, now) <==> t.execTime != 0 && now - t.execTime >= t.interval
  {
  }

  /**
    On the first tick after registration (at or after the registration time), a
    task registered with a positive interval is due exactly when it was
    registered with `inclExec` or a whole interval has already passed; the
    baseline must not be the "unset" value 0.
   */
  lemma FirstTickAfterRegistration(opts: TaskOptions, registered: int, now: int)
    requires opts.interval > 0 && registered <= now
    requires NewTask(opts, registered).execTime != 0
    ensures Due(NewTask(opts, registered), now) <==> opts.inclExec || now - registered >= opts.interval
  {
  }

  /**
    Because the baseline is backdated by the raw option interval, a task
    registered with `inclExec` and a zero interval is NOT due on the next tick:
    it waits the whole default interval like a task without `inclExec`.
   */
  lemma ZeroIntervalInclExecWaitsDefault(opts: TaskOptions, registered: int, now: int)
    requires opts.interval == 0 && opts.inclExec && registered != 0
    ensures NewTask(opts, registered).execTime == registered
    ensures Due(NewTask(opts, registered), now) <==> now - registered >= DefaultInterval
  {
  }

  /**
    A task whose work unit throws synchronously is back to Stop with its baseline
    re-armed, so it is due again exactly one interval later: failures do not
    stop the schedule.
   */
  lemma FailedTaskIsRetriedOnSchedule(t: Task, now: int)
    requires Due(t, now) && now != 0 && t.interval > 0
    ensures Step(t, now, true).status == Stop
    ensures Due(Step(t, now, true), now + t.interval)
    ensures !Due(Step(t, now, true), now + t.interval - 1)
  {
  }
}
