/**
 Runs of timer interrupts, task creation and removal: at most one task is Running, every frame switched
 to is the one last saved for that task, and ticks are neither lost nor invented.
 */
module PreemptiveRuns {
  import opened Words
  import opened RunQueues
  import opened Scheduling
  import opened SchedulerRuns

  /** When a task's resumption frame was set: at an interrupt, at creation, or by preparing it. */
  datatype Event = Interrupted(id: TaskId, rsp: u64) | Started(id: TaskId, rsp: u64)

  /** The frame most recently recorded for a task. */
  function LatestFrame(log: seq<Event>, id: TaskId): Option<u64> {
    if log == [] then None
    else if log[|log| - 1].id == id then Some(log[|log| - 1].rsp)
    else LatestFrame(log[..|log| - 1], id)
  }

  lemma LatestAfter(log: seq<Event>, e: Event, id: TaskId)
    ensures LatestFrame(log + [e], id) == if e.id == id then Some(e.rsp) else LatestFrame(log, id)
  {
    assert (log + [e])[..|log|] == log;
  }

  // ---- Ticks ----

  function TicksOf(slot: Option<Task>): nat {
    if slot.Some? then slot.value.totalTicks else 0
  }

  /** The ticks of all tasks in the table. */
  function TotalTicks(tasks: Table): nat {
    if tasks == [] then 0 else TotalTicks(tasks[..|tasks| - 1]) + TicksOf(tasks[|tasks| - 1])
  }

  lemma {:induction false} TotalAfterUpdate(tasks: Table, i: nat, slot: Option<Task>)
    requires i < |tasks|
    ensures TotalTicks(tasks[i := slot]) == TotalTicks(tasks) - TicksOf(tasks[i]) + TicksOf(slot)
  {
    var n := |tasks| - 1;
    if i < n {
      TotalAfterUpdate(tasks[..n], i, slot);
      assert tasks[i := slot][..n] == tasks[..n][i := slot];
    } else {
      assert tasks[i := slot][..n] == tasks[..n];
    }
  }

  lemma SlotIsTaskOf(tasks: Table, i: nat)
    requires Distinct(IdSlots(tasks)) && i < |tasks| && tasks[i].Some?
    ensures Find(tasks, tasks[i].value.id, 0) == i && TaskOf(tasks, tasks[i].value.id) == tasks[i]
  {
    var j := Find(tasks, tasks[i].value.id, 0);
    assert IdSlots(tasks)[i] == Some(tasks[i].value.id);
    assert j < |tasks| ==> IdSlots(tasks)[j] == Some(tasks[i].value.id);
  }

  /** Tables with the same ids in the same slots, whose ticks differ for one task at most. */
  ghost predicate DifferAt(a: Table, b: Table, id: TaskId) {
    && |a| == |b| && IdSlots(a) == IdSlots(b) && Distinct(IdSlots(a))
    && TaskOf(a, id).Some? && TaskOf(b, id).Some?
    && forall x: TaskId :: x != id && TaskOf(a, x).Some? ==>
         TaskOf(b, x).Some? && TaskOf(b, x).value.totalTicks == TaskOf(a, x).value.totalTicks
  }

  lemma SlotsDiffer(a: Table, b: Table, id: TaskId, i: nat)
    requires DifferAt(a, b, id) && i < |a|
    ensures TicksOf(b[i]) - TicksOf(a[i]) ==
            if Find(a, id, 0) == i then TaskOf(b, id).value.totalTicks - TaskOf(a, id).value.totalTicks else 0
  {
    hide TaskOf, Distinct;
    assert IdSlots(a)[i] == IdSlots(b)[i];
    FindHit(a, id);
    if a[i].Some? {
      SlotIsTaskOf(a, i);
      SlotIsTaskOf(b, i);
    }
  }

  /** If only one task's ticks differ, the totals differ by as much. */
  lemma {:induction false} TotalsDiffer(a: Table, b: Table, id: TaskId, n: nat)
    requires DifferAt(a, b, id) && n <= |a|
    ensures TotalTicks(b[..n]) - TotalTicks(a[..n]) ==
            if Find(a, id, 0) < n then TaskOf(b, id).value.totalTicks - TaskOf(a, id).value.totalTicks else 0
  {
    hide TaskOf, Distinct, IdSlots, Find;
    if n > 0 {
      TotalsDiffer(a, b, id, n - 1);
      SlotsDiffer(a, b, id, n - 1);
      assert a[..n][..n - 1] == a[..n - 1] && b[..n][..n - 1] == b[..n - 1];
    }
  }

  lemma FindHit(tasks: Table, id: TaskId)
    requires TaskOf(tasks, id).Some?
    ensures Find(tasks, id, 0) < |tasks| && tasks[Find(tasks, id, 0)].Some? && tasks[Find(tasks, id, 0)].value.id == id
  {
  }

  // ---- The ledger ----

  /** The part of the ledger about saved frames and Running tasks. */
  ghost predicate FramesOk(s: Scheduler, log: seq<Event>) {
    forall id: TaskId :: TaskOf(s.tasks, id).Some? ==>
      && LatestFrame(log, id) == Some(TaskOf(s.tasks, id).value.interruptRsp)
      && (TaskOf(s.tasks, id).value.state == Running ==> s.current == Some(id))
  }

  /** Ticks agree modulo 2^64, at most the current task is Running, and saved frames are the latest ones. */
  ghost predicate Ledger(s: Scheduler, log: seq<Event>, removedTicks: nat) {
    && Valid(s)
    && FramesOk(s, log)
    && (TotalTicks(s.tasks) + removedTicks) % TWO64 == s.ticks
  }

  /** `create_task` turns the task down. */
  predicate Rejects(s: Scheduler, task: Task) {
    TaskOf(s.tasks, task.id).Some? || s.taskCount >= MAX_SCHEDULER_TASKS
  }

  /** No task other than id is left Running when id becomes current. */
  predicate MayHandOver(s: Scheduler, id: TaskId) {
    || s.current.None? || s.current == Some(id)
    || TaskOf(s.tasks, s.current.value).None?
    || TaskOf(s.tasks, s.current.value).value.state != Running
  }

  /**
   Exactly when an operation keeps the ledger: timer interrupts, removals and preparations always do; an accepted
   task must not be Running or have ticks; a bare tick needs a task to charge; making another task current must
   not leave a Running one.
   */
  predicate InScope(s: Scheduler, op: Op)
    requires |s.queue.slots| == MAX_TASKS
  {
    match op
    case TimerOp(_, _) => true
    case RemoveOp(_) => true
    case PrepareOp(_, _) => true
    case CreateOp(task) => Rejects(s, task) || (task.state != Running && task.totalTicks == 0)
    case TickOp => s.current.Some?
    case SetCurrentOp(id) => TaskOf(s.tasks, id).None? || MayHandOver(s, id)
    case StartOp(id) => TaskOf(s.tasks, id).None? || MayHandOver(s, id)
    case ScheduleOp => First(Rotated(s.queue).slots).None? || MayHandOver(s, First(Rotated(s.queue).slots).value)
  }

  /** What an operation adds to the log. */
  function Logged(s: Scheduler, op: Op): seq<Event>
    requires s.queue.Valid()
  {
    match op
    case TimerOp(rsp, _) => if s.current.Some? then [Interrupted(s.current.value, rsp)] else []
    case CreateOp(task) => if CreateTask(s, task).1.Some? then [Started(task.id, task.interruptRsp)] else []
    case PrepareOp(id, rsp) => if TaskOf(s.tasks, id).Some? then [Started(id, rsp)] else []
    case _ => []
  }

  /** The ticks that a removal takes out of the table. */
  function TakenOut(s: Scheduler, op: Op): nat {
    if op.RemoveOp? && TaskOf(s.tasks, op.id).Some? then TaskOf(s.tasks, op.id).value.totalTicks else 0
  }

  lemma CreateTotals(s: Scheduler, task: Task)
    requires Valid(s)
    ensures CreateTask(s, task).1.Some? ==> TotalTicks(CreateTask(s, task).0.tasks) == TotalTicks(s.tasks) + task.totalTicks
  {
    hide IdSlots, TotalTicks, Ids, Distinct, Pushed, Removed;
    var i := FreeSlot(s.tasks, 0);
    if i < |s.tasks| {
      TotalAfterUpdate(s.tasks, i, Some(task));
    }
  }

  lemma OtherResidue(a: nat, d: nat)
    requires 0 < d < TWO64
    ensures (a + d) % TWO64 != a % TWO64
  {
  }

  lemma RejectsMeans(s: Scheduler, task: Task)
    requires Valid(s)
    ensures CreateTask(s, task).1.None? <==> Rejects(s, task)
    ensures TaskOf(s.tasks, task.id).Some? <==> task.id in TaskIds(s.tasks)
  {
    hide IdSlots, TaskOf, CreateTask, Ids, Distinct;
    CreateTaskSpec(s, task);
    TaskOfMeans(s.tasks, task.id);
  }

  /** Creation keeps the ledger exactly when the task is turned down, or is not Running and has no ticks. */
  lemma CreateExact(s: Scheduler, log: seq<Event>, removed: nat, op: Op)
    requires Ledger(s, log, removed) && op.CreateOp? && |s.queue.slots| == MAX_TASKS
    ensures s.queue.Valid()
    ensures Ledger(Step(s, op), log + Logged(s, op), removed) <==> InScope(s, op)
  {
    hide Valid, IdSlots, TaskOf, LatestFrame, TotalTicks, CreateTask, TaskIds, Rejects;
    var task := op.task;
    LedgerValid(s, log, removed);
    CreateTaskSpec(s, task);
    CreateTotals(s, task);
    RejectsMeans(s, task);
    CurrentKnown(s);
    if CreateTask(s, task).1.Some? {
      forall id: TaskId { LatestAfter(log, Started(task.id, task.interruptRsp), id); }
      var s' := Step(s, op);
      assert TaskOf(s'.tasks, task.id) == Some(task) && s'.current != Some(task.id);
      if task.totalTicks > 0 {
        OtherResidue(TotalTicks(s.tasks) + removed, task.totalTicks);
      }
    } else {
      assert log + [] == log;
    }
  }

  lemma RemoveTotals(s: Scheduler, id: TaskId)
    requires Valid(s)
    ensures TotalTicks(RemoveTask(s, id).0.tasks) ==
            TotalTicks(s.tasks) - (if TaskOf(s.tasks, id).Some? then TaskOf(s.tasks, id).value.totalTicks else 0)
  {
    hide IdSlots, TotalTicks, Ids, Distinct;
    RemoveSpec(s.queue, id);
    TaskOfMeans(s.tasks, id);
    var i := Find(s.tasks, id, 0);
    if i < |s.tasks| {
      TotalAfterUpdate(s.tasks, i, None);
    }
  }

  lemma ValidQueue(s: Scheduler)
    requires Valid(s)
    ensures s.queue.Valid()
  {
  }

  lemma RemoveFrames(s: Scheduler, log: seq<Event>, id: TaskId)
    requires Valid(s) && FramesOk(s, log)
    ensures Valid(RemoveTask(s, id).0) && FramesOk(RemoveTask(s, id).0, log)
  {
    hide Valid, IdSlots, LatestFrame, TaskOf, RemoveTask, TaskIds;
    ValidQueue(s);
    RemoveTaskSpec(s, id);
    var (s', ok) := RemoveTask(s, id);
    if ok {
      forall x: TaskId | TaskOf(s'.tasks, x).Some?
        ensures LatestFrame(log, x) == Some(TaskOf(s'.tasks, x).value.interruptRsp)
        ensures TaskOf(s'.tasks, x).value.state == Running ==> s'.current == Some(x)
      {
        assert x != id && TaskOf(s'.tasks, x) == TaskOf(s.tasks, x);
      }
    }
  }

  lemma LedgerRemove(s: Scheduler, log: seq<Event>, removed: nat, op: Op)
    requires Ledger(s, log, removed) && op.RemoveOp?
    ensures Ledger(Step(s, op), log + Logged(s, op), removed + TakenOut(s, op))
  {
    hide Valid, FramesOk, TotalTicks, TaskOf, RemoveTask;
    LedgerValid(s, log, removed);
    RemoveFrames(s, log, op.id);
    RemoveTotals(s, op.id);
    RemoveTicks(s, op.id);
    assert Logged(s, op) == [] && log + [] == log;
    var s' := RemoveTask(s, op.id).0;
    assert TotalTicks(s'.tasks) + (removed + TakenOut(s, op)) == TotalTicks(s.tasks) + removed;
  }

  lemma RemoveTicks(s: Scheduler, id: TaskId)
    requires s.queue.Valid()
    ensures RemoveTask(s, id).0.ticks == s.ticks
  {
  }

  lemma LedgerPrepare(s: Scheduler, log: seq<Event>, removed: nat, op: Op)
    requires Ledger(s, log, removed) && op.PrepareOp?
    ensures Ledger(Step(s, op), log + Logged(s, op), removed)
  {
    hide Valid, IdSlots, TaskOf, LatestFrame, TotalTicks, Put;
    LedgerValid(s, log, removed);
    PrepareSpec(s, op.id, op.rsp);
    if TaskOf(s.tasks, op.id).Some? {
      forall id: TaskId { LatestAfter(log, Started(op.id, op.rsp), id); }
      WholeTotals(s, Step(s, op), op.id);
    } else {
      assert log + [] == log;
    }
  }

  lemma WholeTotals(s: Scheduler, s': Scheduler, id: TaskId)
    requires Valid(s) && IdSlots(s.tasks) == IdSlots(s'.tasks)
    requires forall x: TaskId :: x != id && TaskOf(s.tasks, x).Some? ==>
               TaskOf(s'.tasks, x).Some? && TaskOf(s'.tasks, x).value.totalTicks == TaskOf(s.tasks, x).value.totalTicks
    requires TaskOf(s.tasks, id).Some? && TaskOf(s'.tasks, id).Some?
    ensures TotalTicks(s'.tasks) - TotalTicks(s.tasks) ==
            TaskOf(s'.tasks, id).value.totalTicks - TaskOf(s.tasks, id).value.totalTicks
  {
    hide TaskOf, IdSlots, TotalTicks, Distinct;
    SameLength(s.tasks);
    SameLength(s'.tasks);
    TotalsDiffer(s.tasks, s'.tasks, id, |s.tasks|);
    FindHit(s.tasks, id);
    assert s.tasks[..|s.tasks|] == s.tasks && s'.tasks[..|s.tasks|] == s'.tasks;
  }

  /** How a timer interrupt leaves every task. */
  lemma TimerTasks(s: Scheduler, rsp: u64, stack: Stack)
    requires Valid(s) && s.current.Some?
    ensures TaskOf(s.tasks, s.current.value).Some?
    ensures var c := s.current.value;
            var t := TaskOf(s.tasks, c).value;
            var (s', r) := TimerInterrupt(s, rsp, stack);
            && Valid(s') && IdSlots(s'.tasks) == IdSlots(s.tasks) && s'.ticks == (s.ticks + 1) % TWO64
            && s'.current.Some?
            && (forall x: TaskId :: TaskOf(s.tasks, x).Some? ==>
                  && TaskOf(s'.tasks, x).Some?
                  && (var u, u' := TaskOf(s.tasks, x).value, TaskOf(s'.tasks, x).value;
                      && u'.interruptRsp == (if x == c then rsp else u.interruptRsp)
                      && u'.totalTicks == (if x == c then (u.totalTicks + 1) % TWO64 else u.totalTicks)
                      && (u'.state == Running ==> s'.current == Some(x) || (x != c && u.state == Running))))
            && (forall x: TaskId :: TaskOf(s'.tasks, x).Some? ==> TaskOf(s.tasks, x).Some?)
            && (r != 0 ==> s'.current != s.current && TaskOf(s'.tasks, s'.current.value).Some?
                           && r == TaskOf(s.tasks, s'.current.value).value.interruptRsp && KernelFrame(stack, r)
                           && TaskOf(s'.tasks, s'.current.value).value.state == Running)
  {
    hide Valid, IdSlots, TaskOf, Decide, Tick, SaveFrame, Ids, Schedule, KernelFrame;
    var c := s.current.value;
    QueueLength(s);
    CurrentKnown(s);
    AfterTickSpec(s, c, rsp);
    var s1 := AfterTick(s, TaskOf(s.tasks, c).value, rsp);
    if SliceExpired(s1.tasks, c) {
      ScheduleSpec(s1);
      CurrentKnown(s1);
      TaskOfMeans(s1.tasks, c);
      var s2 := Schedule(s1);
      CurrentKnown(s2);
      DecideSpec(s2, c, stack);
    }
  }

  lemma WrappedSum(total: nat, total': nat, old': nat, new': nat, removed: nat, ticks: nat)
    requires (total + removed) % TWO64 == ticks && total' - total == new' - old' && new' == (old' + 1) % TWO64 && old' < TWO64
    ensures (total' + removed) % TWO64 == (ticks + 1) % TWO64
  {
    if old' + 1 == TWO64 {
      assert total' + removed + TWO64 == total + removed + 1;
      assert (total' + removed) % TWO64 == (total' + removed + TWO64) % TWO64;
    }
  }

  /** A timer interrupt keeps the ledger, and a frame it switches to is the latest one of the task switched to. */
  lemma LedgerTimer(s: Scheduler, log: seq<Event>, removed: nat, op: Op)
    requires Ledger(s, log, removed) && op.TimerOp?
    ensures Ledger(Step(s, op), log + Logged(s, op), removed)
    ensures |s.queue.slots| == MAX_TASKS && ResumesLatest(s, log, op)
  {
    hide Valid, IdSlots, TaskOf, LatestFrame, TotalTicks, Decide, Tick, SaveFrame, Schedule, KernelFrame;
    QueueLength(s);
    if s.current.Some? {
      var c := s.current.value;
      TimerTasks(s, op.rsp, op.stack);
      var (s', r) := TimerInterrupt(s, op.rsp, op.stack);
      forall id: TaskId { LatestAfter(log, Interrupted(c, op.rsp), id); }
      WholeTotals(s, s', c);
      WrappedSum(TotalTicks(s.tasks), TotalTicks(s'.tasks), TaskOf(s.tasks, c).value.totalTicks,
                 TaskOf(s'.tasks, c).value.totalTicks, removed, s.ticks);
    } else {
      assert log + [] == log;
    }
  }

  lemma LedgerTick(s: Scheduler, log: seq<Event>, removed: nat, op: Op)
    requires Ledger(s, log, removed) && op.TickOp? && s.current.Some?
    ensures Ledger(Step(s, op), log + Logged(s, op), removed)
  {
    hide Valid, IdSlots, TaskOf, LatestFrame, TotalTicks, Put;
    LedgerValid(s, log, removed);
    assert log + [] == log;
    var c := s.current.value;
    CurrentKnown(s);
    TickSpec(s);
    WholeTotals(s, Tick(s), c);
    WrappedSum(TotalTicks(s.tasks), TotalTicks(Tick(s).tasks), TaskOf(s.tasks, c).value.totalTicks,
               TaskOf(Tick(s).tasks, c).value.totalTicks, removed, s.ticks);
  }

  /** Making another task current keeps the ledger exactly when that leaves no other task Running. */
  lemma HandOverExact(s: Scheduler, log: seq<Event>, removed: nat, id: TaskId)
    requires Ledger(s, log, removed) && TaskOf(s.tasks, id).Some?
    ensures Ledger(s.(current := Some(id)), log, removed) <==> MayHandOver(s, id)
  {
    hide IdSlots, LatestFrame, TotalTicks, TaskOf, Ids;
    TaskOfMeans(s.tasks, id);
    CurrentKnown(s);
    var s' := s.(current := Some(id));
    assert Valid(s');
    if !MayHandOver(s, id) {
      var c := s.current.value;
      assert TaskOf(s'.tasks, c).Some? && TaskOf(s'.tasks, c).value.state == Running && s'.current != Some(c);
    }
  }

  /** A bare tick keeps the ledger exactly when there is a task to charge it to. */
  lemma TickExact(s: Scheduler, log: seq<Event>, removed: nat)
    requires Ledger(s, log, removed)
    ensures Ledger(Tick(s), log, removed) <==> s.current.Some?
  {
    hide Valid, IdSlots, TaskOf, LatestFrame, TotalTicks, Put;
    if s.current.Some? {
      LedgerTick(s, log, removed, TickOp);
      assert log + [] == log;
    }
  }

  lemma SetCurrentExact(s: Scheduler, log: seq<Event>, removed: nat, op: Op)
    requires Ledger(s, log, removed) && op.SetCurrentOp? && |s.queue.slots| == MAX_TASKS
    ensures s.queue.Valid()
    ensures Ledger(Step(s, op), log + Logged(s, op), removed) <==> InScope(s, op)
  {
    hide Ledger, Valid, IdSlots, TaskOf, MayHandOver, SetCurrent;
    LedgerValid(s, log, removed);
    assert log + [] == log;
    SetCurrentSpec(s, op.id);
    if TaskOf(s.tasks, op.id).Some? {
      HandOverExact(s, log, removed, op.id);
    }
  }

  /** Scheduling keeps the ledger exactly when there is nothing to select or the selection leaves no other task Running. */
  lemma ScheduleExact(s: Scheduler, log: seq<Event>, removed: nat, op: Op)
    requires Ledger(s, log, removed) && op.ScheduleOp? && |s.queue.slots| == MAX_TASKS
    ensures s.queue.Valid()
    ensures Ledger(Step(s, op), log + Logged(s, op), removed) <==> InScope(s, op)
  {
    hide IdSlots, LatestFrame, TotalTicks, TaskOf, First, MayHandOver, Ids, Distinct;
    LedgerValid(s, log, removed);
    assert log + [] == log;
    ScheduleSpec(s);
    RotateSpec(s.queue);
    FirstSpec(Rotated(s.queue).slots);
    if s.queue.count == 0 {
      forall id: TaskId { TaskOfMeans(s.tasks, id); }
      assert TaskIds(s.tasks) == {};
    } else {
      var id := First(Rotated(s.queue).slots).value;
      var s' := Schedule(s);
      CurrentKnown(s');
      HandOverExact(s, log, removed, id);
      assert Valid(s');
    }
  }

  /** Starting a task keeps the ledger exactly when the task is unknown or no other task stays Running. */
  lemma StartExact(s: Scheduler, log: seq<Event>, removed: nat, op: Op)
    requires Ledger(s, log, removed) && op.StartOp? && |s.queue.slots| == MAX_TASKS
    ensures s.queue.Valid()
    ensures Ledger(Step(s, op), log + Logged(s, op), removed) <==> InScope(s, op)
  {
    hide Valid, IdSlots, LatestFrame, TotalTicks, TaskOf, SchedulerRuns.Start;
    LedgerValid(s, log, removed);
    assert log + [] == log;
    StartSpec(s, op.id);
    CurrentKnown(s);
    if TaskOf(s.tasks, op.id).Some? {
      var s' := SchedulerRuns.Start(s, op.id);
      WholeTotals(s, s', op.id);
      if !MayHandOver(s, op.id) {
        var c := s.current.value;
        assert TaskOf(s'.tasks, c) == TaskOf(s.tasks, c) && s'.current != Some(c);
      }
    }
  }

  /** Every operation keeps the ledger exactly when it is in scope. */
  lemma StepExact(s: Scheduler, log: seq<Event>, removed: nat, op: Op)
    requires Ledger(s, log, removed) && |s.queue.slots| == MAX_TASKS
    ensures s.queue.Valid()
    ensures Ledger(Step(s, op), log + Logged(s, op), removed + TakenOut(s, op)) <==> InScope(s, op)
  {
    hide Ledger, Valid, MayHandOver, TaskOf, First, Rejects, CreateTask, RemoveTask, SetCurrent, Schedule, Tick, TimerInterrupt,
      Prepare, SchedulerRuns.Start;
    LedgerValid(s, log, removed);
    match op
    case TimerOp(_, _) => LedgerTimer(s, log, removed, op);
    case CreateOp(_) => CreateExact(s, log, removed, op);
    case RemoveOp(_) => LedgerRemove(s, log, removed, op);
    case PrepareOp(_, _) => LedgerPrepare(s, log, removed, op);
    case TickOp =>
      TickExact(s, log, removed);
      assert log + [] == log;
    case SetCurrentOp(_) => SetCurrentExact(s, log, removed, op);
    case StartOp(_) => StartExact(s, log, removed, op);
    case ScheduleOp => ScheduleExact(s, log, removed, op);
  }

  // ---- Runs ----

  /** Every operation of the run is in scope when it happens. */
  ghost predicate AllInScope(s: Scheduler, ops: seq<Op>)
    requires Valid(s)
    decreases |ops|
  {
    QueueLength(s);
    ops == [] || (InScope(s, ops[0]) && (StepKeepsValid(s, ops[0]); AllInScope(Step(s, ops[0]), ops[1..])))
  }

  /** The log and the removed ticks that a run leaves. */
  ghost function RunLog(s: Scheduler, log: seq<Event>, removed: nat, ops: seq<Op>): (seq<Event>, nat)
    requires Valid(s)
    decreases |ops|
  {
    if ops == [] then (log, removed)
    else
      StepKeepsValid(s, ops[0]);
      RunLog(Step(s, ops[0]), log + Logged(s, ops[0]), removed + TakenOut(s, ops[0]), ops[1..])
  }

  lemma {:induction false} RunsKeepLedger(s: Scheduler, log: seq<Event>, removed: nat, ops: seq<Op>)
    requires Ledger(s, log, removed) && AllInScope(s, ops)
    ensures var (log', removed') := RunLog(s, log, removed, ops);
            Ledger(Run(s, ops), log', removed')
    decreases |ops|
  {
    hide Ledger, Step, Logged, Valid, InScope, TakenOut;
    LedgerValid(s, log, removed);
    QueueLength(s);
    if ops != [] {
      StepExact(s, log, removed, ops[0]);
      StepKeepsValid(s, ops[0]);
      RunsKeepLedger(Step(s, ops[0]), log + Logged(s, ops[0]), removed + TakenOut(s, ops[0]), ops[1..]);
    }
  }

  lemma LedgerValid(s: Scheduler, log: seq<Event>, removed: nat)
    requires Ledger(s, log, removed)
    ensures Valid(s) && s.queue.Valid()
  {
  }

  lemma EmptyLedger()
    ensures Ledger(EMPTY, [], 0)
  {
    EmptyIsValid();
    hide Valid;
    assert forall id: TaskId :: TaskOf(EMPTY.tasks, id).None?;
    NoTicks(EMPTY.tasks);
  }

  lemma {:induction false} NoTicks(tasks: Table)
    requires forall i :: 0 <= i < |tasks| ==> tasks[i].None?
    ensures TotalTicks(tasks) == 0
  {
    if tasks != [] {
      NoTicks(tasks[..|tasks| - 1]);
    }
  }

  /**
   A stack pointer that a timer interrupt returns points at a kernel frame, the latest recorded for the task
   switched to, which is then Running.
   */
  ghost predicate ResumesLatest(s: Scheduler, log: seq<Event>, op: Op)
    requires op.TimerOp? && |s.queue.slots| == MAX_TASKS
  {
    var (s', r) := TimerInterrupt(s, op.rsp, op.stack);
    r != 0 ==> s'.current.Some? && s'.current != s.current
               && LatestFrame(log, s'.current.value) == Some(r) && KernelFrame(op.stack, r)
               && TaskOf(s'.tasks, s'.current.value).Some?
               && TaskOf(s'.tasks, s'.current.value).value.state == Running
  }

  lemma {:induction false} PrefixInScope(s: Scheduler, ops: seq<Op>, k: nat)
    requires Valid(s) && AllInScope(s, ops) && k <= |ops|
    ensures AllInScope(s, ops[..k])
    decreases |ops|
  {
    hide Valid, Step, InScope;
    if k > 0 {
      ValidQueue(s);
      StepKeepsValid(s, ops[0]);
      PrefixInScope(Step(s, ops[0]), ops[1..], k - 1);
      assert ops[..k][0] == ops[0] && ops[..k][1..] == ops[1..][..k - 1];
    }
  }

  /** Every timer interrupt of a run in scope resumes the latest frame. */
  lemma RunResumesLatest(s: Scheduler, log: seq<Event>, removed: nat, ops: seq<Op>, k: nat)
    requires Ledger(s, log, removed) && AllInScope(s, ops) && k < |ops| && ops[k].TimerOp?
    ensures |Run(s, ops[..k]).queue.slots| == MAX_TASKS
    ensures ResumesLatest(Run(s, ops[..k]), RunLog(s, log, removed, ops[..k]).0, ops[k])
  {
    hide Ledger, Valid, Run, RunLog, AllInScope, TimerInterrupt, LatestFrame, TaskOf;
    LedgerValid(s, log, removed);
    PrefixInScope(s, ops, k);
    RunsKeepLedger(s, log, removed, ops[..k]);
    var (log', removed') := RunLog(s, log, removed, ops[..k]);
    LedgerValid(Run(s, ops[..k]), log', removed');
    LedgerTimer(Run(s, ops[..k]), log', removed', ops[k]);
  }

  /**
   From the empty scheduler, over every run whose operations are in scope: at most the current task is
   Running, every task's saved frame is the latest recorded for it, every timer interrupt that switches
   returns the latest frame of the task it switches to, and the scheduler's ticks equal, modulo 2^64, the
   ticks of live and removed tasks together.
   */
  lemma RunsFromEmpty(ops: seq<Op>)
    requires Valid(EMPTY) && AllInScope(EMPTY, ops)
    ensures var s := Run(EMPTY, ops);
            var (log, removed) := RunLog(EMPTY, [], 0, ops);
            && (forall id: TaskId :: TaskOf(s.tasks, id).Some? ==>
                  && LatestFrame(log, id) == Some(TaskOf(s.tasks, id).value.interruptRsp)
                  && (TaskOf(s.tasks, id).value.state == Running ==> s.current == Some(id)))
            && (TotalTicks(s.tasks) + removed) % TWO64 == s.ticks
    ensures forall k: nat :: k < |ops| && ops[k].TimerOp? ==>
              && |Run(EMPTY, ops[..k]).queue.slots| == MAX_TASKS
              && ResumesLatest(Run(EMPTY, ops[..k]), RunLog(EMPTY, [], 0, ops[..k]).0, ops[k])
  {
    hide Run, RunLog, LatestFrame, TotalTicks, TaskOf, Valid, AllInScope, ResumesLatest;
    EmptyIsValid();
    EmptyLedger();
    RunsKeepLedger(EMPTY, [], 0, ops);
    forall k: nat | k < |ops| && ops[k].TimerOp?
      ensures |Run(EMPTY, ops[..k]).queue.slots| == MAX_TASKS
      ensures ResumesLatest(Run(EMPTY, ops[..k]), RunLog(EMPTY, [], 0, ops[..k]).0, ops[k])
    {
      RunResumesLatest(EMPTY, [], 0, ops, k);
    }
  }

  // ---- The synthetic first frame ----

  const INTERRUPT_CONTEXT_SIZE: nat := 19 * 8
  const INITIAL_STACK_RESERVE: nat := 2048

  function ZeroWords(stack: Stack, rsp: nat, n: nat): Stack {
    if n == 0 then stack else ZeroWords(stack, rsp, n - 1)[rsp + (n - 1) * 8 := 0]
  }

  /** The 19 words that `initialize_interrupt_context` writes for a task starting at `entry`. */
  function SyntheticFrame(stack: Stack, rsp: u64, entry: u64): Stack {
    ZeroWords(stack, rsp, 15)[rsp + 15 * 8 := 0x20][rsp + 16 * 8 := entry][rsp + 17 * 8 := 0x08][rsp + 18 * 8 := 0x202]
  }

  /** Nineteen words are written: fifteen zeros, then vector, entry point, code segment and flags. */
  lemma SyntheticWords(stack: Stack, rsp: u64, entry: u64)
    ensures var frame := SyntheticFrame(stack, rsp, entry);
            && (forall k: nat :: k < 15 ==> WordAt(frame, rsp + k * 8) == 0)
            && WordAt(frame, rsp + 120) == 0x20 && WordAt(frame, rsp + 128) == entry
            && WordAt(frame, rsp + 136) == 0x08 && WordAt(frame, rsp + 144) == 0x202
            && (forall a: nat :: a < rsp || rsp + 152 <= a ==> WordAt(frame, a) == WordAt(stack, a))
  {
    hide ZeroWords;
    forall a: nat { ZeroWordsMean(stack, rsp, 15, a); }
    forall k: nat | k < 15
      ensures WordAt(SyntheticFrame(stack, rsp, entry), rsp + k * 8) == 0
    {
      ZeroedWord(stack, rsp, 15, k);
    }
  }

  lemma {:induction false} ZeroWordsMean(stack: Stack, rsp: nat, n: nat, a: nat)
    ensures a < rsp || rsp + n * 8 <= a ==> WordAt(ZeroWords(stack, rsp, n), a) == WordAt(stack, a)
  {
    if n > 0 {
      ZeroWordsMean(stack, rsp, n - 1, a);
    }
  }

  lemma {:induction false} ZeroedWord(stack: Stack, rsp: nat, n: nat, k: nat)
    requires k < n
    ensures WordAt(ZeroWords(stack, rsp, n), rsp + k * 8) == 0
  {
    if k < n - 1 {
      ZeroedWord(stack, rsp, n - 1, k);
    }
  }

  /** The synthetic frame passes validation exactly for entry points in the second MiB. */
  lemma SyntheticFrameValid(stack: Stack, stackTop: u64, entry: u64)
    requires stackTop > INITIAL_STACK_RESERVE + INTERRUPT_CONTEXT_SIZE
    ensures var rsp := stackTop - INITIAL_STACK_RESERVE - INTERRUPT_CONTEXT_SIZE;
            ValidFrame(SyntheticFrame(stack, rsp, entry), rsp) <==> 0x10_0000 <= entry < 0x20_0000
  {
    hide ValidFrame, SyntheticFrame;
    var rsp := stackTop - INITIAL_STACK_RESERVE - INTERRUPT_CONTEXT_SIZE;
    SyntheticWords(stack, rsp, entry);
    ValidFrameMeans(SyntheticFrame(stack, rsp, entry), rsp);
  }
}
