/**
 The scheduler as functions of its state: the task table beside the run queue, the current task, and
 the timer interrupt that accounts a tick, picks the next task and decides whether to switch to it.
 */
module Scheduling {
  import opened Words
  import opened RunQueues

  const MAX_SCHEDULER_TASKS: nat := 8
  const DEFAULT_TIME_SLICE_TICKS: nat := 5

  datatype TaskState = Ready | Running | Blocked | Terminated

  /** The scheduling fields of a task; its stack and cooperative context are not part of the model. */
  datatype Task = Task(id: TaskId, state: TaskState, timeSlice: u64, totalTicks: u64, interruptRsp: u64)

  type Table = seq<Option<Task>>

  datatype Scheduler = Scheduler(
    queue: Queue,
    current: Option<TaskId>,
    taskCount: nat,
    ticks: u64,
    tasks: Table)

  // ---- Interrupt frames ----

  /** Memory words by address; words never written read as zero. */
  type Stack = map<nat, u64>

  function WordAt(stack: Stack, address: nat): u64 {
    if address in stack then stack[address] else 0
  }

  predicate IsCanonicalAddress(a: u64) {
    Shr(a, 48) == 0 || Shr(a, 48) == 0xFFFF
  }

  predicate ValidFrame(stack: Stack, rsp: u64) {
    && rsp != 0
    && WordAt(stack, rsp + 15 * 8) == 0x20
    && WordAt(stack, rsp + 17 * 8) == 0x08
    && And(WordAt(stack, rsp + 18 * 8), 0x2) != 0
    && IsCanonicalAddress(WordAt(stack, rsp + 16 * 8))
    && 0x10_0000 <= WordAt(stack, rsp + 16 * 8) < 0x20_0000
  }

  /**
   A frame to return to: the timer's vector, the kernel's code segment, the bit of RFLAGS that is always set,
   and an instruction in the second MiB. The fifteen saved registers below may hold anything.
   */
  predicate KernelFrame(stack: Stack, rsp: u64) {
    && rsp != 0
    && WordAt(stack, rsp + 120) == 0x20
    && 0x10_0000 <= WordAt(stack, rsp + 128) < 0x20_0000
    && WordAt(stack, rsp + 136) == 0x08
    && WordAt(stack, rsp + 144) / 2 % 2 == 1
  }

  lemma BitOne(x: u64)
    ensures And(x, 0x2) != 0 <==> x / 2 % 2 == 1
  {
    AndDouble(x, 1);
    AndOne(x / 2);
  }

  lemma AndOne(x: nat)
    ensures And(x, 1) == x % 2
  {
    if x != 0 {
      assert And(x / 2, 0) == 0;
    }
  }

  lemma LowHalf(x: u64)
    ensures x < 0x20_0000 ==> Shr(x, 48) == 0
  {
    ShrIsDiv(x, 48);
    BigPower();
    if x < 0x20_0000 {
      QuotientIs(x, Pow2(48), 0, x);
    }
  }

  lemma BigPower()
    ensures Pow2(48) > 0x20_0000
  {
    assert Pow2(12) == 0x1000;
    assert Pow2(24) == 0x100_0000;
    assert Pow2(36) == 0x1000 * 0x100_0000;
    assert Pow2(48) == 0x1000 * Pow2(36);
  }

  /** Validation accepts exactly the kernel frames, for every stack. */
  lemma ValidFrameMeans(stack: Stack, rsp: u64)
    ensures ValidFrame(stack, rsp) <==> KernelFrame(stack, rsp)
  {
    hide And, Shr;
    BitOne(WordAt(stack, rsp + 144));
    LowHalf(WordAt(stack, rsp + 128));
  }

  // ---- The task table ----

  /** The first slot whose task has the id, or the number of slots. */
  function Find(tasks: Table, id: TaskId, from: nat): (i: nat)
    requires from <= |tasks|
    ensures from <= i <= |tasks|
    ensures i < |tasks| ==> tasks[i].Some? && tasks[i].value.id == id
    ensures forall j :: from <= j < i && tasks[j].Some? ==> tasks[j].value.id != id
    decreases |tasks| - from
  {
    if from == |tasks| || (tasks[from].Some? && tasks[from].value.id == id) then from
    else Find(tasks, id, from + 1)
  }

  function FreeSlot(tasks: Table, from: nat): (i: nat)
    requires from <= |tasks|
    ensures from <= i <= |tasks|
    ensures i < |tasks| ==> tasks[i].None?
    ensures forall j :: from <= j < i ==> tasks[j].Some?
    decreases |tasks| - from
  {
    if from == |tasks| || tasks[from].None? then from else FreeSlot(tasks, from + 1)
  }

  function TaskOf(tasks: Table, id: TaskId): Option<Task> {
    var i := Find(tasks, id, 0);
    if i < |tasks| then tasks[i] else None
  }

  /** Overwrites the task with the same id, if there is one. */
  function Put(tasks: Table, t: Task): Table {
    var i := Find(tasks, t.id, 0);
    if i < |tasks| then tasks[i := Some(t)] else tasks
  }

  /** The ids of the table, slot by slot. */
  function IdSlots(tasks: Table): (r: Slots)
    ensures |r| == |tasks|
    ensures forall i :: 0 <= i < |tasks| ==>
              r[i] == if tasks[i].Some? then Some(tasks[i].value.id) else None
  {
    seq(|tasks|, i requires 0 <= i < |tasks| => if tasks[i].Some? then Some(tasks[i].value.id) else None)
  }

  ghost function TaskIds(tasks: Table): set<TaskId> {
    Ids(IdSlots(tasks))
  }

  /** Queue and table hold the same ids, each once; both counts are their number; the current task is one of them. */
  ghost predicate Valid(s: Scheduler) {
    && s.queue.Valid()
    && |s.tasks| == MAX_SCHEDULER_TASKS
    && Distinct(IdSlots(s.tasks))
    && TaskIds(s.tasks) == Ids(s.queue.slots)
    && s.taskCount == |TaskIds(s.tasks)|
    && (s.current.Some? ==> s.current.value in TaskIds(s.tasks))
  }

  // ---- The operations ----

  function CreateTask(s: Scheduler, task: Task): (Scheduler, Option<TaskId>)
    requires s.queue.Valid()
  {
    if s.taskCount >= MAX_SCHEDULER_TASKS then (s, None)
    else
      var (q, ok) := Pushed(s.queue, task.id);
      if !ok then (s, None)
      else
        var i := FreeSlot(s.tasks, 0);
        if i < |s.tasks| then
          (s.(queue := q, tasks := s.tasks[i := Some(task)], taskCount := s.taskCount + 1), Some(task.id))
        else
          PushSpec(s.queue, task.id);
          (s.(queue := Removed(q, task.id).0), None)
  }

  function RemoveTask(s: Scheduler, id: TaskId): (Scheduler, bool)
    requires s.queue.Valid()
  {
    var (q, ok) := Removed(s.queue, id);
    if !ok then (s, false)
    else
      var i := Find(s.tasks, id, 0);
      var tasks := if i < |s.tasks| then s.tasks[i := None] else s.tasks;
      var current := if s.current == Some(id) then First(q.slots) else s.current;
      (s.(queue := q, tasks := tasks, taskCount := if s.taskCount > 0 then s.taskCount - 1 else 0, current := current), true)
  }

  function SetCurrent(s: Scheduler, id: TaskId): (Scheduler, bool) {
    if IndexOf(s.queue.slots, Some(id), 0) == |s.queue.slots| then (s, false)
    else (s.(current := Some(id)), true)
  }

  function Ticked(t: Task): Task {
    t.(totalTicks := (t.totalTicks + 1) % TWO64, timeSlice := (t.timeSlice + 1) % TWO64)
  }

  function Tick(s: Scheduler): Scheduler {
    var tasks :=
      if s.current.Some? && TaskOf(s.tasks, s.current.value).Some? then
        Put(s.tasks, Ticked(TaskOf(s.tasks, s.current.value).value))
      else s.tasks;
    s.(ticks := (s.ticks + 1) % TWO64, tasks := tasks)
  }

  function Schedule(s: Scheduler): Scheduler
    requires |s.queue.slots| == MAX_TASKS
  {
    if s.queue.count == 0 then s.(current := None)
    else
      var q := Rotated(s.queue);
      s.(queue := q, current := First(q.slots))
  }

  function SetState(tasks: Table, id: TaskId, state: TaskState): Table {
    match TaskOf(tasks, id)
    case None => tasks
    case Some(t) => Put(tasks, t.(state := state))
  }

  /** The task runs on with a fresh time slice. */
  function Resume(tasks: Table, id: TaskId): Table {
    match TaskOf(tasks, id)
    case None => tasks
    case Some(t) => Put(tasks, t.(state := Running, timeSlice := 0))
  }

  function SaveFrame(tasks: Table, t: Task, rsp: u64): Table {
    Put(tasks, t.(interruptRsp := rsp, state := Running))
  }

  /** What follows a scheduling decision: switch, stay, or abort the switch and stay. */
  function Decide(s: Scheduler, id: TaskId, stack: Stack): (Scheduler, u64) {
    match s.current
    case None => (s.(tasks := Resume(s.tasks, id)), 0)
    case Some(next) =>
      if next == id then (s.(tasks := Resume(s.tasks, id)), 0)
      else
        match TaskOf(s.tasks, next)
        case None => (s.(current := Some(id), tasks := Resume(s.tasks, id)), 0)
        case Some(t) =>
          if !ValidFrame(stack, t.interruptRsp) then
            (s.(current := Some(id), tasks := SetState(Resume(s.tasks, id), next, Ready)), 0)
          else
            (s.(tasks := Resume(SetState(s.tasks, id, Ready), next)), t.interruptRsp)
  }

  predicate SliceExpired(tasks: Table, id: TaskId) {
    TaskOf(tasks, id).Some? && TaskOf(tasks, id).value.timeSlice >= DEFAULT_TIME_SLICE_TICKS
  }

  function TimerInterrupt(s: Scheduler, rsp: u64, stack: Stack): (Scheduler, u64)
    requires |s.queue.slots| == MAX_TASKS
  {
    match s.current
    case None => (s, 0)
    case Some(id) =>
      match TaskOf(s.tasks, id)
      case None => (s, 0)
      case Some(t) =>
        var s1 := Tick(s.(tasks := SaveFrame(s.tasks, t, rsp)));
        if !SliceExpired(s1.tasks, id) then (s1, 0)
        else Decide(Schedule(s1), id, stack)
  }

  // ---- The table under updates ----

  lemma TaskOfMeans(tasks: Table, id: TaskId)
    ensures TaskOf(tasks, id).Some? <==> id in TaskIds(tasks)
    ensures TaskOf(tasks, id).Some? ==> TaskOf(tasks, id).value.id == id
  {
    IdsMeans(IdSlots(tasks), id);
    var i := Find(tasks, id, 0);
    if i < |tasks| {
      assert IdSlots(tasks)[i] == Some(id);
    }
  }

  /** Overwriting a task keeps every id in its slot and every other task as it is. */
  lemma PutSpec(tasks: Table, t: Task)
    ensures IdSlots(Put(tasks, t)) == IdSlots(tasks)
    ensures forall id: TaskId :: TaskOf(Put(tasks, t), id) ==
              if id == t.id && TaskOf(tasks, id).Some? then Some(t) else TaskOf(tasks, id)
  {
    var tasks' := Put(tasks, t);
    assert IdSlots(tasks') == IdSlots(tasks);
    forall id: TaskId
      ensures TaskOf(tasks', id) == if id == t.id && TaskOf(tasks, id).Some? then Some(t) else TaskOf(tasks, id)
    {
      assert Find(tasks', id, 0) == Find(tasks, id, 0) by { SameFind(tasks, tasks', id); }
    }
  }

  lemma {:induction false} FindIsIndexOf(tasks: Table, id: TaskId, from: nat)
    requires from <= |tasks|
    ensures Find(tasks, id, from) == IndexOf(IdSlots(tasks), Some(id), from)
    decreases |tasks| - from
  {
    if from < |tasks| {
      FindIsIndexOf(tasks, id, from + 1);
    }
  }

  lemma SameFind(a: Table, b: Table, id: TaskId)
    requires IdSlots(a) == IdSlots(b)
    ensures Find(a, id, 0) == Find(b, id, 0)
  {
    FindIsIndexOf(a, id, 0);
    FindIsIndexOf(b, id, 0);
  }

  // ---- Every operation keeps the scheduler valid ----

  /** Changing only what tasks carry, not which there are, keeps the state valid. */
  lemma SameIdsValid(s: Scheduler, tasks: Table, current: Option<TaskId>)
    requires Valid(s) && IdSlots(tasks) == IdSlots(s.tasks)
    requires current.Some? ==> current.value in TaskIds(s.tasks)
    ensures forall ticks: u64 :: Valid(s.(tasks := tasks, current := current, ticks := ticks))
  {
    hide Ids, Distinct, IdSlots;
    assert |tasks| == |IdSlots(tasks)|;
  }

  /**
   A task is accepted exactly when its id is new and fewer than eight tasks exist; it is then in queue and
   table. The code that would take it out of the queue again is never reached.
   */
  lemma CreateTaskSpec(s: Scheduler, task: Task)
    requires Valid(s)
    ensures var (s', r) := CreateTask(s, task);
            && Valid(s')
            && (r.Some? <==> task.id !in TaskIds(s.tasks) && |TaskIds(s.tasks)| < 8)
            && (r.None? ==> s' == s)
            && (r.Some? ==>
                  && r.value == task.id
                  && s'.current == s.current && s'.ticks == s.ticks
                  && TaskIds(s'.tasks) == TaskIds(s.tasks) + {task.id}
                  && (exists k: nat :: LowestHole(s.queue.slots, k) && s'.queue.slots == s.queue.slots[k := Some(task.id)])
                  && (forall id: TaskId :: TaskOf(s'.tasks, id) ==
                        if id == task.id then Some(task) else TaskOf(s.tasks, id)))
    ensures s.taskCount < MAX_SCHEDULER_TASKS && Pushed(s.queue, task.id).1 ==> FreeSlot(s.tasks, 0) < |s.tasks|
  {
    hide Ids, Distinct, IdSlots, Find;
    PushSpec(s.queue, task.id);
    assert |s.tasks| == |IdSlots(s.tasks)| by { SameLength(s.tasks); }
    HoleIffFewer(IdSlots(s.tasks));
    HoleIsFree(s.tasks);
    var i := FreeSlot(s.tasks, 0);
    if i < |s.tasks| && task.id !in TaskIds(s.tasks) {
      InsertedTasks(s.tasks, s.tasks[i := Some(task)], i, task);
    }
  }

  lemma SameLength(tasks: Table)
    ensures |tasks| == |IdSlots(tasks)|
  {
  }

  lemma HoleIsFree(tasks: Table)
    ensures None in IdSlots(tasks) ==> FreeSlot(tasks, 0) < |tasks|
  {
    if None in IdSlots(tasks) {
      var i :| 0 <= i < |IdSlots(tasks)| && IdSlots(tasks)[i] == None;
      assert tasks[i].None?;
    }
  }

  lemma InsertedTasks(tasks: Table, tasks': Table, i: nat, task: Task)
    requires i < |tasks| && tasks[i].None? && task.id !in TaskIds(tasks) && Distinct(IdSlots(tasks))
    requires tasks' == tasks[i := Some(task)]
    ensures forall id: TaskId :: TaskOf(tasks', id) == if id == task.id then Some(task) else TaskOf(tasks, id)
    ensures TaskIds(tasks') == TaskIds(tasks) + {task.id}
    ensures Distinct(IdSlots(tasks'))
  {
    hide Ids, Distinct;
    assert IdSlots(tasks') == IdSlots(tasks)[i := Some(task.id)];
    IdsAfterSet(IdSlots(tasks), i, task.id);
    forall id: TaskId
      ensures TaskOf(tasks', id) == if id == task.id then Some(task) else TaskOf(tasks, id)
    {
      TaskOfMeans(tasks, task.id);
      var j, j' := Find(tasks, id, 0), Find(tasks', id, 0);
      if id == task.id {
        assert tasks'[i] == Some(task);
        assert j == |tasks|;
        assert j' == i;
      } else if j < |tasks| {
        assert tasks'[j] == tasks[j];
      }
    }
  }

  lemma RemovedTasks(tasks: Table, i: nat, id0: TaskId)
    requires Distinct(IdSlots(tasks)) && i == Find(tasks, id0, 0) < |tasks|
    ensures forall id: TaskId :: TaskOf(tasks[i := None], id) == if id == id0 then None else TaskOf(tasks, id)
  {
    var tasks' := tasks[i := None];
    forall id: TaskId
      ensures TaskOf(tasks', id) == if id == id0 then None else TaskOf(tasks, id)
    {
      var j, j' := Find(tasks, id, 0), Find(tasks', id, 0);
      assert IdSlots(tasks)[i] == Some(id0);
      if j' < |tasks| {
        assert IdSlots(tasks)[j'] == Some(id);
      }
      if id != id0 && j < |tasks| {
        assert tasks'[j] == tasks[j];
      }
    }
  }

  /** A removed task is gone from queue and table; if it was current, the head of the queue becomes current. */
  lemma RemoveTaskSpec(s: Scheduler, id: TaskId)
    requires Valid(s)
    ensures var (s', ok) := RemoveTask(s, id);
            && Valid(s')
            && (ok <==> id in TaskIds(s.tasks))
            && (!ok ==> s' == s)
            && (ok ==>
                  && TaskIds(s'.tasks) == TaskIds(s.tasks) - {id}
                  && s'.ticks == s.ticks
                  && (s.current != Some(id) ==> s'.current == s.current)
                  && (s.current == Some(id) ==> s'.current == First(s'.queue.slots)
                                                && (s'.current.None? <==> TaskIds(s'.tasks) == {}))
                  && (forall k :: 0 <= k < MAX_TASKS ==>
                        s'.queue.slots[k] == if s.queue.slots[k] == Some(id) then None else s.queue.slots[k])
                  && (forall x: TaskId :: TaskOf(s'.tasks, x) == if x == id then None else TaskOf(s.tasks, x)))
  {
    RemoveSpec(s.queue, id);
    TaskOfMeans(s.tasks, id);
    var i := Find(s.tasks, id, 0);
    if i < |s.tasks| {
      var tasks := s.tasks[i := None];
      assert IdSlots(tasks) == IdSlots(s.tasks)[i := None];
      assert IdSlots(s.tasks)[i] == Some(id);
      CountPositive(IdSlots(s.tasks), i);
      IdsAfterClear(IdSlots(s.tasks), i, id);
      RemovedTasks(s.tasks, i, id);
      FirstSpec(Removed(s.queue, id).0.slots);
    }
  }

  lemma MembershipKeepsValid(s: Scheduler, task: Task, id: TaskId)
    requires Valid(s)
    ensures Valid(CreateTask(s, task).0) && Valid(RemoveTask(s, id).0)
  {
    CreateTaskSpec(s, task);
    RemoveTaskSpec(s, id);
  }

  lemma ScheduleSpec(s: Scheduler)
    requires Valid(s)
    ensures var s' := Schedule(s);
            && Valid(s') && s'.tasks == s.tasks && s'.ticks == s.ticks
            && s'.queue == Rotated(s.queue) && s'.current == First(s'.queue.slots)
            && (s'.current.None? <==> TaskIds(s.tasks) == {})
  {
    RotateSpec(s.queue);
    FirstSpec(Rotated(s.queue).slots);
  }

  lemma TickSpec(s: Scheduler)
    requires Valid(s)
    ensures Valid(Tick(s)) && IdSlots(Tick(s).tasks) == IdSlots(s.tasks)
    ensures Tick(s).queue == s.queue && Tick(s).current == s.current && Tick(s).ticks == (s.ticks + 1) % TWO64
    ensures forall id: TaskId :: TaskOf(Tick(s).tasks, id) ==
              if s.current == Some(id) && TaskOf(s.tasks, id).Some? then Some(Ticked(TaskOf(s.tasks, id).value))
              else TaskOf(s.tasks, id)
  {
    hide Valid, IdSlots, TaskOf, Put;
    if s.current.Some? && TaskOf(s.tasks, s.current.value).Some? {
      TaskOfMeans(s.tasks, s.current.value);
      PutSpec(s.tasks, Ticked(TaskOf(s.tasks, s.current.value).value));
    }
    CurrentKnown(s);
    SameIdsValid(s, Tick(s).tasks, s.current);
    assert Tick(s) == s.(tasks := Tick(s).tasks, current := s.current, ticks := Tick(s).ticks);
  }

  lemma CurrentKnown(s: Scheduler)
    requires Valid(s)
    ensures s.current.Some? ==> s.current.value in TaskIds(s.tasks) && TaskOf(s.tasks, s.current.value).Some?
  {
    if s.current.Some? {
      TaskOfMeans(s.tasks, s.current.value);
    }
  }

  lemma SetStateSpec(tasks: Table, id: TaskId, state: TaskState)
    ensures IdSlots(SetState(tasks, id, state)) == IdSlots(tasks)
    ensures forall x: TaskId :: TaskOf(SetState(tasks, id, state), x) ==
              if x == id && TaskOf(tasks, id).Some? then Some(TaskOf(tasks, id).value.(state := state)) else TaskOf(tasks, x)
  {
    hide Put, IdSlots, TaskOf;
    if TaskOf(tasks, id).Some? {
      TaskOfMeans(tasks, id);
      PutSpec(tasks, TaskOf(tasks, id).value.(state := state));
    }
  }

  lemma ResumeSpec(tasks: Table, id: TaskId)
    ensures IdSlots(Resume(tasks, id)) == IdSlots(tasks)
    ensures forall x: TaskId :: TaskOf(Resume(tasks, id), x) ==
              if x == id && TaskOf(tasks, id).Some?
              then Some(TaskOf(tasks, id).value.(state := Running, timeSlice := 0)) else TaskOf(tasks, x)
  {
    hide Put, IdSlots, TaskOf;
    if TaskOf(tasks, id).Some? {
      TaskOfMeans(tasks, id);
      PutSpec(tasks, TaskOf(tasks, id).value.(state := Running, timeSlice := 0));
    }
  }

  // ---- The timer interrupt, case by case ----

  /** The interrupted task with its frame saved and its tick counted. */
  function Saved(t: Task, rsp: u64): Task {
    Ticked(t.(interruptRsp := rsp, state := Running))
  }

  /** The state once the frame is saved and the tick counted. */
  function AfterTick(s: Scheduler, t: Task, rsp: u64): Scheduler {
    Tick(s.(tasks := SaveFrame(s.tasks, t, rsp)))
  }

  lemma AfterTickSpec(s: Scheduler, id: TaskId, rsp: u64)
    requires Valid(s) && s.current == Some(id)
    ensures TaskOf(s.tasks, id).Some?
    ensures var t := TaskOf(s.tasks, id).value;
            var s1 := AfterTick(s, t, rsp);
            && Valid(s1) && s1.current == s.current && s1.queue == s.queue && s1.ticks == (s.ticks + 1) % TWO64
            && IdSlots(s1.tasks) == IdSlots(s.tasks)
            && (forall x: TaskId :: TaskOf(s1.tasks, x) == if x == id then Some(Saved(t, rsp)) else TaskOf(s.tasks, x))
  {
    hide Valid, IdSlots, TaskOf, Put;
    CurrentKnown(s);
    TaskOfMeans(s.tasks, id);
    var t := TaskOf(s.tasks, id).value;
    var saved := t.(interruptRsp := rsp, state := Running);
    PutSpec(s.tasks, saved);
    SameIdsValid(s, Put(s.tasks, saved), s.current);
    var s0 := s.(tasks := Put(s.tasks, saved));
    assert s0 == s.(tasks := Put(s.tasks, saved), current := s.current, ticks := s.ticks);
    TickSpec(s0);
  }

  lemma SaveKeepsValid(s: Scheduler, id: TaskId, rsp: u64)
    requires Valid(s) && s.current == Some(id)
    ensures TaskOf(s.tasks, id).Some?
    ensures Valid(s.(tasks := SaveFrame(s.tasks, TaskOf(s.tasks, id).value, rsp)))
  {
    hide Valid, IdSlots, TaskOf, Put;
    CurrentKnown(s);
    TaskOfMeans(s.tasks, id);
    var saved := TaskOf(s.tasks, id).value.(interruptRsp := rsp, state := Running);
    PutSpec(s.tasks, saved);
    SameIdsValid(s, Put(s.tasks, saved), s.current);
    assert s.(tasks := Put(s.tasks, saved)) == s.(tasks := Put(s.tasks, saved), current := s.current, ticks := s.ticks);
  }

  /** After a decision the queue stays as scheduled, someone is current, and the current slice is zero. */
  lemma DecideSpec(s: Scheduler, id: TaskId, stack: Stack)
    requires Valid(s) && s.current.Some? && id in TaskIds(s.tasks)
    ensures var next := s.current.value;
            var (s', r) := Decide(s, id, stack);
            && TaskOf(s.tasks, next).Some? && TaskOf(s.tasks, id).Some?
            && (var switch := next != id && KernelFrame(stack, TaskOf(s.tasks, next).value.interruptRsp);
                var chosen := if switch || next == id then next else id;
                && Valid(s') && s'.queue == s.queue && s'.ticks == s.ticks && IdSlots(s'.tasks) == IdSlots(s.tasks)
                && s'.current == Some(chosen)
                && r == (if switch then TaskOf(s.tasks, next).value.interruptRsp else 0)
                && (forall x: TaskId :: TaskOf(s'.tasks, x) ==
                      if x == chosen then Some(TaskOf(s.tasks, x).value.(state := Running, timeSlice := 0))
                      else if x == id || x == next then Some(TaskOf(s.tasks, x).value.(state := Ready))
                      else TaskOf(s.tasks, x)))
  {
    hide Valid, IdSlots, TaskOf, Put, SetState, Resume, ValidFrame, KernelFrame;
    var next := s.current.value;
    CurrentKnown(s);
    ValidFrameMeans(stack, TaskOf(s.tasks, next).value.interruptRsp);
    TaskOfMeans(s.tasks, id);
    ResumeSpec(s.tasks, id);
    SetStateSpec(Resume(s.tasks, id), next, Ready);
    SetStateSpec(s.tasks, id, Ready);
    ResumeSpec(SetState(s.tasks, id, Ready), next);
    var (s', r) := Decide(s, id, stack);
    SameIdsValid(s, s'.tasks, s'.current);
    assert s' == s.(tasks := s'.tasks, current := s'.current, ticks := s.ticks);
  }

  /** Who is to run after an interrupt of task c: the head of the rotated queue once c has used five ticks, or c still. */
  function NextTask(s: Scheduler, c: TaskId, slice: u64): TaskId
    requires |s.queue.slots| == MAX_TASKS
  {
    if slice < 5 || First(Rotated(s.queue).slots).None? then c else First(Rotated(s.queue).slots).value
  }

  /**
   The whole timer interrupt. Without a current task nothing happens. Otherwise the interrupted task is charged
   one tick and its frame is saved. After its fifth tick the queue rotates, and the task then at its head is
   switched to exactly when it is another one with a kernel frame; the returned stack pointer is then that frame.
   */
  lemma TimerSpec(s: Scheduler, rsp: u64, stack: Stack)
    requires Valid(s)
    ensures |s.queue.slots| == MAX_TASKS
    ensures s.current.None? ==> TimerInterrupt(s, rsp, stack) == (s, 0)
    ensures s.current.Some? ==>
              var c := s.current.value;
              TaskOf(s.tasks, c).Some? &&
              (var t := TaskOf(s.tasks, c).value;
               var slice := (t.timeSlice + 1) % TWO64;
               var next := NextTask(s, c, slice);
               TaskOf(s.tasks, next).Some? &&
               (var n := TaskOf(s.tasks, next).value;
                var switch := next != c && KernelFrame(stack, n.interruptRsp);
                var (s', r) := TimerInterrupt(s, rsp, stack);
                && r == (if switch then n.interruptRsp else 0)
                && s'.current == Some(if switch then next else c)
                && s'.queue == (if slice < 5 then s.queue else Rotated(s.queue))
                && s'.ticks == (s.ticks + 1) % TWO64 && s'.taskCount == s.taskCount
                && TaskOf(s'.tasks, c) == Some(Task(c, if switch then Ready else Running,
                                                    if slice < 5 || switch then slice else 0, (t.totalTicks + 1) % TWO64, rsp))
                && (next != c ==> TaskOf(s'.tasks, next) ==
                                  Some(if switch then n.(state := Running, timeSlice := 0) else n.(state := Ready)))
                && (forall x: TaskId :: x != c && x != next ==> TaskOf(s'.tasks, x) == TaskOf(s.tasks, x))))
  {
    hide Valid, IdSlots, TaskOf, Decide, Schedule, Tick, SaveFrame, Ids, KernelFrame, First, Rotated;
    QueueLength(s);
    if s.current.Some? {
      var c := s.current.value;
      CurrentKnown(s);
      TaskOfMeans(s.tasks, c);
      AfterTickSpec(s, c, rsp);
      var s1 := AfterTick(s, TaskOf(s.tasks, c).value, rsp);
      if SliceExpired(s1.tasks, c) {
        ScheduleSpec(s1);
        CurrentKnown(s1);
        DecideSpec(Schedule(s1), c, stack);
      }
      SameCount(s, TimerInterrupt(s, rsp, stack).0);
    }
  }

  lemma SameCount(s: Scheduler, s': Scheduler)
    requires Valid(s)
    ensures Valid(s') && IdSlots(s'.tasks) == IdSlots(s.tasks) ==> s'.taskCount == s.taskCount
  {
  }

  lemma TimerKeepsValid(s: Scheduler, rsp: u64, stack: Stack)
    requires Valid(s)
    ensures var (s', _) := TimerInterrupt(s, rsp, stack);
            && Valid(s') && IdSlots(s'.tasks) == IdSlots(s.tasks)
            && (s.current.Some? ==> s'.current.Some?)
  {
    hide Valid, IdSlots, TaskOf, Decide, Schedule, Tick, SaveFrame, Ids;
    QueueLength(s);
    if s.current.Some? {
      var id := s.current.value;
      AfterTickSpec(s, id, rsp);
      CurrentKnown(s);
      var s1 := AfterTick(s, TaskOf(s.tasks, id).value, rsp);
      if SliceExpired(s1.tasks, id) {
        ScheduleSpec(s1);
        DecideSpec(Schedule(s1), id, stack);
      }
    }
  }

  lemma QueueLength(s: Scheduler)
    requires Valid(s)
    ensures |s.queue.slots| == MAX_TASKS
  {
  }
}
