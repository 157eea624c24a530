/**
 How long a queued task can wait: within 64 scheduling decisions, and so within 320 timer interrupts,
 every queued task is brought to the front of the queue and selected, whatever becomes of the switches to
 other tasks and of its own earlier selections. A slice counter at its maximum costs one interrupt more.
 */
module Starvation {
  import opened Words
  import opened RunQueues
  import opened RoundRobin
  import opened Scheduling

  datatype Input = Input(rsp: u64, stack: Stack)

  /** The state after a row of timer interrupts. */
  ghost function After(s: Scheduler, ins: seq<Input>): (s': Scheduler)
    requires Valid(s)
    ensures Valid(s') && IdSlots(s'.tasks) == IdSlots(s.tasks)
    decreases |ins|
  {
    if ins == [] then s
    else
      TimerKeepsValid(s, ins[0].rsp, ins[0].stack);
      After(TimerInterrupt(s, ins[0].rsp, ins[0].stack).0, ins[1..])
  }

  /** The current task's time slice counter. */
  ghost function Slice(s: Scheduler): u64
    requires Valid(s) && s.current.Some?
  {
    CurrentKnown(s);
    TaskOf(s.tasks, s.current.value).value.timeSlice
  }

  /** How many interrupts until the slice is used up; a counter about to wrap needs six. */
  function TicksLeft(slice: u64): nat {
    if slice == TWO64 - 1 then 6 else if slice >= 4 then 1 else 5 - slice
  }

  /** How many decisions until a queued task reaches the front. */
  ghost function TurnsLeft(q: Queue, id: TaskId): nat
    requires q.Valid() && id in Ids(q.slots)
  {
    IdsMeans(q.slots, id);
    if q.count <= 1 then 1 else Turn(IndexOf(q.slots, Some(id), 0), 0)
  }

  ghost function Turns(s: Scheduler, id: TaskId): nat
    requires Valid(s) && id in TaskIds(s.tasks)
  {
    TurnsLeft(s.queue, id)
  }

  /** How many interrupts until the task is at the front. */
  ghost function Wait(s: Scheduler, id: TaskId): nat
    requires Valid(s) && s.current.Some? && id in TaskIds(s.tasks)
  {
    5 * (TurnsLeft(s.queue, id) - 1) + TicksLeft(Slice(s))
  }

  /** The interrupt taken in this state ends in a scheduling decision. */
  ghost predicate Decides(s: Scheduler)
    requires Valid(s)
  {
    s.current.Some? && TicksLeft(Slice(s)) == 1
  }

  /** The decision is for the task. */
  ghost predicate Selects(s: Scheduler, id: TaskId)
    requires Valid(s)
  {
    Decides(s) && First(Rotated(s.queue).slots) == Some(id)
  }

  /** The task is in slot 0, or alone in the queue. */
  predicate AtFront(q: Queue, id: TaskId) {
    q.count <= 1 || (q.slots != [] && q.slots[0] == Some(id))
  }

  /** The decision finds the task in slot 0. */
  ghost predicate ComesToFront(s: Scheduler, id: TaskId)
    requires Valid(s)
  {
    Decides(s) && AtFront(Rotated(s.queue), id)
  }

  /** How many of the interrupts end in a decision. */
  ghost function Decisions(s: Scheduler, ins: seq<Input>): nat
    requires Valid(s)
    decreases |ins|
  {
    if ins == [] then 0
    else
      TimerKeepsValid(s, ins[0].rsp, ins[0].stack);
      (if Decides(s) then 1 else 0) + Decisions(TimerInterrupt(s, ins[0].rsp, ins[0].stack).0, ins[1..])
  }

  lemma TwoElements<T>(a: set<T>, x: T, y: T)
    requires x in a && y in a && x != y
    ensures |a| >= 2
  {
    assert a == {x, y} + (a - {x, y});
  }

  lemma SingleTask(q: Queue, id: TaskId)
    requires q.Valid() && id in Ids(q.slots) && q.count <= 1
    ensures First(q.slots) == Some(id)
  {
    FirstSpec(q.slots);
    var x := First(q.slots).value;
    if x != id {
      TwoElements(Ids(q.slots), x, id);
    }
  }

  lemma UniqueIndex(slots: Slots, id: TaskId, i: nat)
    requires Distinct(slots) && i < |slots| && slots[i] == Some(id)
    ensures IndexOf(slots, Some(id), 0) == i
  {
  }

  /** A decision either finds the task at the front or brings it one turn closer. */
  lemma RotationProgress(q: Queue, id: TaskId)
    requires q.Valid() && id in Ids(q.slots)
    ensures Rotated(q).Valid() && Ids(Rotated(q).slots) == Ids(q.slots)
    ensures AtFront(Rotated(q), id) ||
            (TurnsLeft(q, id) > 1 && TurnsLeft(Rotated(q), id) == TurnsLeft(q, id) - 1)
  {
    RotateSpec(q);
    IdsMeans(q.slots, id);
    var p := IndexOf(q.slots, Some(id), 0);
    if q.count <= 1 {
      SingleTask(q, id);
    } else {
      var r := Shifted(q.slots);
      var p' := if p == 0 then MAX_TASKS - 1 else p - 1;
      assert r[p'] == Some(id);
      if p != 1 {
        UniqueIndex(r, id, p');
      }
    }
  }

  /** A queued task at the front is the one selected. */
  lemma FrontIsFirst(q: Queue, id: TaskId)
    requires q.Valid() && id in Ids(q.slots) && AtFront(q, id)
    ensures First(q.slots) == Some(id)
  {
    if q.count <= 1 {
      SingleTask(q, id);
    } else {
      assert FirstOccupied(q.slots, 0) == 0;
    }
  }

  /** One timer interrupt: the task reaches the front, or it waits one interrupt less, by one turn at each decision. */
  lemma InterruptProgress(s: Scheduler, rsp: u64, stack: Stack, id: TaskId)
    requires Valid(s) && s.current.Some? && id in TaskIds(s.tasks)
    ensures var (s', _) := TimerInterrupt(s, rsp, stack);
            && Valid(s') && s'.current.Some? && id in TaskIds(s'.tasks)
            && (ComesToFront(s, id) || Wait(s', id) < Wait(s, id))
            && (ComesToFront(s, id) || Turns(s, id) == Turns(s', id) + if Decides(s) then 1 else 0)
  {
    hide AtFront, Valid, IdSlots, TaskOf, Decide, Tick, SaveFrame, Ids, First, Rotated, TurnsLeft, KernelFrame;
    var c := s.current.value;
    QueueLength(s);
    QueueHas(s, id);
    CurrentKnown(s);
    AfterTickSpec(s, c, rsp);
    var t := TaskOf(s.tasks, c).value;
    var s1 := AfterTick(s, t, rsp);
    TimerKeepsValid(s, rsp, stack);
    var (s', r) := TimerInterrupt(s, rsp, stack);
    SameTaskIds(s.tasks, s'.tasks);
    if SliceExpired(s1.tasks, c) {
      ScheduleSpec(s1);
      ScheduledQueue(s1);
      DecideSpec(Schedule(s1), c, stack);
      RotationProgress(s.queue, id);
    }
  }

  lemma SameTaskIds(a: Table, b: Table)
    requires IdSlots(a) == IdSlots(b)
    ensures TaskIds(a) == TaskIds(b)
  {
  }

  lemma QueueHas(s: Scheduler, id: TaskId)
    requires Valid(s) && id in TaskIds(s.tasks)
    ensures s.queue.Valid() && id in Ids(s.queue.slots)
  {
  }

  /** With a task queued, scheduling rotates and takes the head. */
  lemma ScheduledQueue(s: Scheduler)
    requires Valid(s) && s.current.Some?
    ensures Schedule(s).queue == Rotated(s.queue)
    ensures Schedule(s).current == First(Rotated(s.queue).slots)
  {
    assert s.current.value in Ids(s.queue.slots);
  }

  lemma WaitBound(s: Scheduler, id: TaskId)
    requires Valid(s) && s.current.Some? && id in TaskIds(s.tasks)
    ensures 1 <= Wait(s, id) <= if Slice(s) == TWO64 - 1 then 321 else 320
    ensures 1 <= Turns(s, id) <= 64
  {
    hide Valid, TaskOf;
    QueueHas(s, id);
  }

  /**
   Every queued task is brought to the front, and selected there, within `Wait` interrupts and within 64
   decisions, whatever frames the tasks selected before it had.
   */
  lemma {:induction false} FrontWithinWait(s: Scheduler, ins: seq<Input>, id: TaskId) returns (k: nat)
    requires Valid(s) && s.current.Some? && id in TaskIds(s.tasks)
    requires |ins| >= Wait(s, id)
    ensures k < Wait(s, id) <= if Slice(s) == TWO64 - 1 then 321 else 320
    ensures Decisions(s, ins[..k]) < Turns(s, id) <= 64
    ensures ComesToFront(After(s, ins[..k]), id) && Selects(After(s, ins[..k]), id)
    decreases |ins|
  {
    hide Valid, TimerInterrupt, Slice, TurnsLeft, TaskIds, AtFront;
    WaitBound(s, id);
    QueueLength(s);
    if ComesToFront(s, id) {
      k := 0;
      FrontSelects(s, id);
    } else {
      InterruptProgress(s, ins[0].rsp, ins[0].stack, id);
      var s1 := TimerInterrupt(s, ins[0].rsp, ins[0].stack).0;
      WaitBound(s1, id);
      var k1 := FrontWithinWait(s1, ins[1..], id);
      k := k1 + 1;
      assert ins[..k][0] == ins[0] && ins[..k][1..] == ins[1..][..k1];
    }
  }

  lemma FrontSelects(s: Scheduler, id: TaskId)
    requires Valid(s) && id in TaskIds(s.tasks) && ComesToFront(s, id)
    ensures Selects(s, id)
  {
    hide Rotated, First, AtFront, Decides;
    QueueHas(s, id);
    RotateSpec(s.queue);
    FrontIsFirst(Rotated(s.queue), id);
  }

  /** A slice counter at its maximum wraps to zero instead of expiring: that costs one more interrupt. */
  lemma WrappingSlice(s: Scheduler, rsp: u64, stack: Stack)
    requires Valid(s) && s.current.Some? && Slice(s) == TWO64 - 1
    ensures var (s', r) := TimerInterrupt(s, rsp, stack);
            && r == 0 && Valid(s') && s'.queue == s.queue && s'.current == s.current && Slice(s') == 0
            && IdSlots(s'.tasks) == IdSlots(s.tasks)
  {
    hide Valid, IdSlots, TaskOf, Decide, Tick, SaveFrame, Ids, Schedule;
    QueueLength(s);
    CurrentKnown(s);
    AfterTickSpec(s, s.current.value, rsp);
  }

  /** A selected task becomes current exactly when it is current already or its saved frame validates. */
  lemma SelectionOutcome(s: Scheduler, rsp: u64, stack: Stack, id: TaskId)
    requires Valid(s) && Selects(s, id)
    ensures TaskOf(s.tasks, id).Some?
    ensures var (s', r) := TimerInterrupt(s, rsp, stack);
            && (s'.current == Some(id) <==>
                  s.current == Some(id) || KernelFrame(stack, TaskOf(s.tasks, id).value.interruptRsp))
            && (s'.current == Some(id) && s.current != Some(id) ==> r == TaskOf(s.tasks, id).value.interruptRsp)
            && (s'.current != Some(id) ==> s'.current == s.current && r == 0)
  {
    hide Valid, IdSlots, TaskOf, Decide, Tick, SaveFrame, Ids, First, Rotated, KernelFrame;
    var c := s.current.value;
    QueueLength(s);
    CurrentKnown(s);
    AfterTickSpec(s, c, rsp);
    var s1 := AfterTick(s, TaskOf(s.tasks, c).value, rsp);
    ScheduleSpec(s1);
    ScheduledQueue(s1);
    DecideSpec(Schedule(s1), c, stack);
  }

  /**
   If the task's frame validates when the task reaches the front, it becomes current within 320 timer
   interrupts, or 321 from a slice counter at its maximum. Earlier selections of the task may fail.
   */
  lemma BecomesCurrent(s: Scheduler, ins: seq<Input>, id: TaskId) returns (k: nat)
    requires Valid(s) && s.current.Some? && id in TaskIds(s.tasks)
    requires |ins| >= Wait(s, id)
    requires forall k: nat :: k < Wait(s, id) && ComesToFront(After(s, ins[..k]), id) ==>
               var s1 := After(s, ins[..k]);
               s1.current != Some(id) && TaskOf(s1.tasks, id).Some? ==>
                 KernelFrame(ins[k].stack, TaskOf(s1.tasks, id).value.interruptRsp)
    ensures 1 <= k <= Wait(s, id) <= if Slice(s) == TWO64 - 1 then 321 else 320
    ensures Decisions(s, ins[..k - 1]) < 64
    ensures After(s, ins[..k]).current == Some(id)
  {
    hide Valid, TimerInterrupt, TurnsLeft, TaskIds, KernelFrame, After, TaskOf, Slice, Selects, ComesToFront, Wait, Decisions;
    var j := FrontWithinWait(s, ins, id);
    var s1 := After(s, ins[..j]);
    SelectionOutcome(s1, ins[j].rsp, ins[j].stack, id);
    k := j + 1;
    AfterOneMore(s, ins[..j], ins[j]);
    assert ins[..k] == ins[..j] + [ins[j]];
  }

  lemma {:induction false} AfterOneMore(s: Scheduler, ins: seq<Input>, last: Input)
    requires Valid(s)
    ensures |After(s, ins).queue.slots| == MAX_TASKS
    ensures After(s, ins + [last]) == TimerInterrupt(After(s, ins), last.rsp, last.stack).0
    decreases |ins|
  {
    hide Valid, TimerInterrupt;
    QueueLength(s);
    QueueLength(After(s, ins));
    if ins == [] {
      assert (ins + [last])[1..] == [];
      TimerKeepsValid(s, last.rsp, last.stack);
    } else {
      TimerKeepsValid(s, ins[0].rsp, ins[0].stack);
      assert (ins + [last])[1..] == ins[1..] + [last];
      AfterOneMore(TimerInterrupt(s, ins[0].rsp, ins[0].stack).0, ins[1..], last);
    }
  }
}
