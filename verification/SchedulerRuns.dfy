/**
 The scheduler over whole runs: the state every sequence of calls keeps, the bound on how long a queued
 task waits for its turn, and what timer-driven runs conserve.
 */
module SchedulerRuns {
  import opened Words
  import opened RunQueues
  import opened RoundRobin
  import opened Scheduling

  // ---- Every run keeps the scheduler valid ----

  datatype Op =
    | CreateOp(task: Task)
    | RemoveOp(id: TaskId)
    | SetCurrentOp(id: TaskId)
    | ScheduleOp
    | TickOp
    | TimerOp(rsp: u64, stack: Stack)
    | PrepareOp(id: TaskId, rsp: u64)
    | StartOp(id: TaskId)

  /** `initialize_interrupt_context` on a stored task: its next frame is the synthetic one at rsp. */
  function Prepare(s: Scheduler, id: TaskId, rsp: u64): Scheduler {
    match TaskOf(s.tasks, id)
    case None => s
    case Some(t) => s.(tasks := Put(s.tasks, t.(interruptRsp := rsp)))
  }

  /** How the first task is started: made current, marked Running, with a fresh slice. */
  function Start(s: Scheduler, id: TaskId): Scheduler {
    var s1 := SetCurrent(s, id).0;
    s1.(tasks := Resume(s1.tasks, id))
  }

  function Step(s: Scheduler, op: Op): Scheduler
    requires s.queue.Valid()
  {
    match op
    case CreateOp(task) => CreateTask(s, task).0
    case RemoveOp(id) => RemoveTask(s, id).0
    case SetCurrentOp(id) => SetCurrent(s, id).0
    case ScheduleOp => Schedule(s)
    case TickOp => Tick(s)
    case TimerOp(rsp, stack) => TimerInterrupt(s, rsp, stack).0
    case PrepareOp(id, rsp) => Prepare(s, id, rsp)
    case StartOp(id) => Start(s, id)
  }

  lemma PrepareSpec(s: Scheduler, id: TaskId, rsp: u64)
    requires Valid(s)
    ensures var s' := Prepare(s, id, rsp);
            && Valid(s') && s'.queue == s.queue && s'.current == s.current && s'.ticks == s.ticks
            && IdSlots(s'.tasks) == IdSlots(s.tasks)
            && (forall x: TaskId :: TaskOf(s'.tasks, x) ==
                  if x == id && TaskOf(s.tasks, id).Some? then Some(TaskOf(s.tasks, id).value.(interruptRsp := rsp))
                  else TaskOf(s.tasks, x))
  {
    hide Valid, IdSlots, TaskOf, Put;
    if TaskOf(s.tasks, id).Some? {
      TaskOfMeans(s.tasks, id);
      PutSpec(s.tasks, TaskOf(s.tasks, id).value.(interruptRsp := rsp));
      CurrentKnown(s);
      var s' := Prepare(s, id, rsp);
      SameIdsValid(s, s'.tasks, s.current);
      assert s' == s.(tasks := s'.tasks, current := s.current, ticks := s.ticks);
    }
  }

  lemma SetCurrentSpec(s: Scheduler, id: TaskId)
    requires Valid(s)
    ensures var (s', ok) := SetCurrent(s, id);
            && Valid(s') && s' == s.(current := if ok then Some(id) else s.current)
            && (ok <==> TaskOf(s.tasks, id).Some?)
  {
    hide IdSlots, TaskOf;
    IdsMeans(s.queue.slots, id);
    TaskOfMeans(s.tasks, id);
  }

  lemma StartSpec(s: Scheduler, id: TaskId)
    requires Valid(s)
    ensures var s' := Start(s, id);
            && Valid(s') && s'.queue == s.queue && s'.ticks == s.ticks && IdSlots(s'.tasks) == IdSlots(s.tasks)
            && (TaskOf(s.tasks, id).None? ==> s' == s)
            && (TaskOf(s.tasks, id).Some? ==>
                  && s'.current == Some(id)
                  && (forall x: TaskId :: TaskOf(s'.tasks, x) ==
                        if x == id then Some(TaskOf(s.tasks, id).value.(state := Running, timeSlice := 0))
                        else TaskOf(s.tasks, x)))
  {
    hide Valid, IdSlots, TaskOf, SetCurrent, Put;
    SetCurrentSpec(s, id);
    var s1 := SetCurrent(s, id).0;
    CurrentKnown(s1);
    ResumeSpec(s1.tasks, id);
    var s' := Start(s, id);
    SameIdsValid(s1, s'.tasks, s1.current);
    assert s' == s1.(tasks := s'.tasks, current := s1.current, ticks := s1.ticks);
  }

  lemma StepKeepsValid(s: Scheduler, op: Op)
    requires Valid(s)
    ensures Valid(Step(s, op))
  {
    hide IdSlots, TaskOf, CreateTask, RemoveTask, TimerInterrupt, Schedule, Tick, Prepare, SetCurrent, Start;
    match op
    case CreateOp(task) => CreateTaskSpec(s, task);
    case RemoveOp(id) => RemoveTaskSpec(s, id);
    case SetCurrentOp(id) => SetCurrentSpec(s, id);
    case ScheduleOp => ScheduleSpec(s);
    case TickOp => TickSpec(s);
    case TimerOp(rsp, stack) => TimerKeepsValid(s, rsp, stack);
    case PrepareOp(id, rsp) => PrepareSpec(s, id, rsp);
    case StartOp(id) => StartSpec(s, id);
  }

  /** The state after a run. */
  ghost function Run(s: Scheduler, ops: seq<Op>): (s': Scheduler)
    requires Valid(s)
    ensures Valid(s')
    decreases |ops|
  {
    if ops == [] then s
    else
      StepKeepsValid(s, ops[0]);
      Run(Step(s, ops[0]), ops[1..])
  }

  const EMPTY: Scheduler := Scheduler(Queue(seq(MAX_TASKS, _ => None), 0), None, 0, 0, seq(MAX_SCHEDULER_TASKS, _ => None))

  lemma EmptyIsValid()
    ensures Valid(EMPTY)
  {
    assert Ids(EMPTY.queue.slots) == {};
    assert TaskIds(EMPTY.tasks) == {};
  }

  /**
   From the empty scheduler, over every run: queue and table hold the same ids without duplicates, both
   counts equal their number, and the current task, if any, is one of them.
   */
  lemma RunsStayConsistent(ops: seq<Op>)
    ensures Valid(EMPTY)
    ensures var s := Run(EMPTY, ops);
            && Ids(s.queue.slots) == TaskIds(s.tasks) && Distinct(s.queue.slots) && Distinct(IdSlots(s.tasks))
            && s.queue.count == s.taskCount == |TaskIds(s.tasks)| <= MAX_SCHEDULER_TASKS
            && (s.current.Some? ==> TaskOf(s.tasks, s.current.value).Some?)
  {
    hide Run;
    EmptyIsValid();
    var s := Run(EMPTY, ops);
    HoleIffFewer(IdSlots(s.tasks));
    CurrentKnown(s);
  }

  // ---- Before the first task is started ----

  /** The operations that can make a task current. */
  predicate SetsCurrent(op: Op) {
    op.SetCurrentOp? || op.ScheduleOp? || op.StartOp?
  }

  function WithoutTimers(ops: seq<Op>): seq<Op> {
    if ops == [] then []
    else (if ops[0].TimerOp? then [] else [ops[0]]) + WithoutTimers(ops[1..])
  }

  lemma StaysIdle(s: Scheduler, op: Op)
    requires Valid(s) && s.current.None? && !SetsCurrent(op)
    ensures s.queue.Valid() && Step(s, op).current.None?
    ensures op.TimerOp? ==> Step(s, op) == s
  {
    hide IdSlots, TaskOf, CreateTask, RemoveTask, TimerInterrupt, Tick, Prepare, Distinct, Ids;
    match op
    case CreateOp(task) => CreateTaskSpec(s, task);
    case RemoveOp(id) => RemoveTaskSpec(s, id);
    case TickOp => TickSpec(s);
    case TimerOp(rsp, stack) => TimerSpec(s, rsp, stack);
    case PrepareOp(id, rsp) => PrepareSpec(s, id, rsp);
  }

  /**
   Until `set_current`, `schedule` or the start sequence makes a task current, none is, and timer interrupts
   leave no trace.
   */
  lemma {:induction false} NoCurrentUntilSet(s: Scheduler, ops: seq<Op>)
    requires Valid(s) && s.current.None? && forall k :: 0 <= k < |ops| ==> !SetsCurrent(ops[k])
    ensures Run(s, ops).current.None? && Run(s, ops) == Run(s, WithoutTimers(ops))
    decreases |ops|
  {
    hide Valid, Step, SetsCurrent;
    if ops != [] {
      StaysIdle(s, ops[0]);
      StepKeepsValid(s, ops[0]);
      NoCurrentUntilSet(Step(s, ops[0]), ops[1..]);
      if !ops[0].TimerOp? {
        assert WithoutTimers(ops)[1..] == WithoutTimers(ops[1..]);
      } else {
        assert WithoutTimers(ops) == WithoutTimers(ops[1..]);
      }
    }
  }

  // ---- Rounds of scheduling ----

  /** The state after n calls of `schedule`. */
  ghost function Schedules(s: Scheduler, n: nat): (s': Scheduler)
    requires Valid(s)
    ensures Valid(s')
  {
    if n == 0 then s
    else
      var before := Schedules(s, n - 1);
      ScheduleSpec(before);
      Schedule(before)
  }

  /** With at least two tasks, n calls rotate the queue n times and leave its head current. */
  lemma {:induction false} SchedulesRotate(s: Scheduler, n: nat)
    requires Valid(s) && s.queue.count >= 2
    ensures var s' := Schedules(s, n);
            && s'.queue == s.queue.(slots := Rotations(s.queue.slots, n))
            && s'.tasks == s.tasks
            && (n > 0 ==> s'.current == First(Rotations(s.queue.slots, n)))
  {
    hide Valid, First, Shifted;
    QueueLength(s);
    if n > 0 {
      SchedulesRotate(s, n - 1);
      ScheduleSpec(Schedules(s, n - 1));
    }
  }

  /** The calls, out of 64 in a row, that leave a task current. */
  ghost function Rounds(s: Scheduler, id: TaskId): set<nat>
    requires Valid(s)
  {
    set n: nat | 1 <= n <= MAX_TASKS && Schedules(s, n).current == Some(id)
  }

  /**
   With at least two tasks, 64 calls of `schedule` restore the queue, and each task becomes current in
   exactly as many of them as there are slots from the previous occupied one to its own, counted cyclically.
   */
  lemma FullRound(s: Scheduler, p: nat)
    requires Valid(s) && s.queue.count >= 2 && p < MAX_TASKS && s.queue.slots[p].Some?
    ensures Schedules(s, MAX_TASKS).queue == s.queue
    ensures |Rounds(s, s.queue.slots[p].value)| == Gap(s.queue.slots, p, 1)
  {
    hide Schedules, Rotations, Gap, First;
    var id := s.queue.slots[p].value;
    SchedulesRotate(s, MAX_TASKS);
    FullTurn(s.queue.slots);
    forall n: nat | 1 <= n <= MAX_TASKS
      ensures Schedules(s, n).current == First(Rotations(s.queue.slots, n))
    {
      SchedulesRotate(s, n);
    }
    assert Rounds(s, id) == Selections(s.queue.slots, id);
    ExactShare(s.queue.slots, p);
  }
}
