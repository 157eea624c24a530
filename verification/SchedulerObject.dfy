/**
 The scheduler as an object: the task table and the run queue are scanned and updated in place.
 Every method is proved equal to its function in `Scheduling`.
 */
module SchedulerObject {
  import opened Words
  import opened RunQueues
  import S = Scheduling

  class Scheduler {
    const runQueue: RunQueue
    var current: Option<TaskId>
    var taskCount: nat
    var ticks: u64
    const tasks: array<Option<S.Task>>

    ghost function Value(): S.Scheduler
      reads this, runQueue, runQueue.tasks, tasks
    {
      S.Scheduler(runQueue.Value(), current, taskCount, ticks, tasks[..])
    }

    ghost predicate Valid()
      reads this, runQueue, runQueue.tasks, tasks
      ensures Valid() ==> runQueue.Valid() && tasks.Length == S.MAX_SCHEDULER_TASKS
    {
      runQueue.tasks.Length == MAX_TASKS && tasks.Length == S.MAX_SCHEDULER_TASKS && S.Valid(Value())
    }

    constructor ()
      ensures Valid() && fresh(runQueue) && fresh(runQueue.tasks) && fresh(tasks)
      ensures Value() == S.Scheduler(Queue(seq(MAX_TASKS, _ => None), 0), None, 0, 0,
                                     seq(S.MAX_SCHEDULER_TASKS, _ => None))
    {
      runQueue := new RunQueue();
      current := None;
      taskCount := 0;
      ticks := 0;
      tasks := new Option<S.Task>[S.MAX_SCHEDULER_TASKS](_ => None);
      new;
      assert tasks[..] == seq(S.MAX_SCHEDULER_TASKS, _ => None);
      assert Ids(runQueue.Value().slots) == {};
      assert S.TaskIds(tasks[..]) == {};
    }

    /** `task` and `task_mut`: the slot of a task, or the number of slots. */
    method FindTask(id: TaskId) returns (i: nat)
      requires tasks.Length == S.MAX_SCHEDULER_TASKS
      ensures i == S.Find(tasks[..], id, 0)
    {
      for j := 0 to S.MAX_SCHEDULER_TASKS
        invariant forall k :: 0 <= k < j && tasks[k].Some? ==> tasks[k].value.id != id
      {
        if tasks[j].Some? && tasks[j].value.id == id {
          return j;
        }
      }
      return S.MAX_SCHEDULER_TASKS;
    }

    /** Writes back a task found by its id. */
    method Store(i: nat, t: S.Task)
      requires i < tasks.Length && i == S.Find(tasks[..], t.id, 0)
      modifies tasks
      ensures tasks[..] == S.Put(old(tasks[..]), t)
    {
      tasks[i] := Some(t);
      assert tasks[..] == old(tasks[..])[i := Some(t)];
    }

    method CreateTask(task: S.Task) returns (r: Option<TaskId>)
      requires Valid()
      modifies this, runQueue, runQueue.tasks, tasks
      ensures Valid()
      ensures (Value(), r) == S.CreateTask(old(Value()), task)
    {
      hide S.Valid, Pushed, Removed, Ids, Distinct, S.IdSlots;
      S.MembershipKeepsValid(Value(), task, task.id);
      if taskCount >= S.MAX_SCHEDULER_TASKS {
        return None;
      }
      PushSpec(runQueue.Value(), task.id);
      var ok := runQueue.Push(task.id);
      if !ok {
        return None;
      }
      for j := 0 to S.MAX_SCHEDULER_TASKS
        invariant forall k :: 0 <= k < j ==> tasks[k].Some?
        invariant tasks[..] == old(tasks[..])
      {
        if tasks[j].None? {
          assert S.FreeSlot(tasks[..], 0) == j;
          tasks[j] := Some(task);
          assert tasks[..] == old(tasks[..])[j := Some(task)];
          taskCount := taskCount + 1;
          return Some(task.id);
        }
      }
      var _ := runQueue.Remove(task.id);
      return None;
    }

    method RemoveTask(id: TaskId) returns (ok: bool)
      requires Valid()
      modifies this, runQueue, runQueue.tasks, tasks
      ensures Valid()
      ensures (Value(), ok) == S.RemoveTask(old(Value()), id)
    {
      hide S.Valid, Pushed, Removed, First, Ids, S.IdSlots;
      S.MembershipKeepsValid(Value(), S.Task(id, S.Ready, 0, 0, 0), id);
      RemoveSpec(runQueue.Value(), id);
      ok := runQueue.Remove(id);
      if !ok {
        return;
      }
      var i := FindTask(id);
      if i < S.MAX_SCHEDULER_TASKS {
        tasks[i] := None;
        assert tasks[..] == old(tasks[..])[i := None];
      }
      if taskCount > 0 {
        taskCount := taskCount - 1;
      }
      if current == Some(id) {
        current := runQueue.FirstTask();
      }
    }

    method SetCurrent(id: TaskId) returns (ok: bool)
      requires Valid()
      modifies this`current
      ensures Valid()
      ensures (Value(), ok) == S.SetCurrent(old(Value()), id)
    {
      IdsMeans(runQueue.tasks[..], id);
      ok := runQueue.Contains(id);
      if ok {
        current := Some(id);
      }
    }

    method Tick()
      requires Valid()
      modifies this`ticks, tasks
      ensures Valid()
      ensures Value() == S.Tick(old(Value()))
    {
      hide S.Valid;
      S.TickSpec(Value());
      ticks := (ticks + 1) % TWO64;
      if current.Some? {
        var i := FindTask(current.value);
        if i < S.MAX_SCHEDULER_TASKS {
          Store(i, S.Ticked(tasks[i].value));
        }
      }
    }

    method Schedule()
      requires Valid()
      modifies this`current, runQueue.tasks
      ensures Valid()
      ensures Value() == S.Schedule(old(Value()))
    {
      hide S.Valid, First, Rotated;
      S.ScheduleSpec(Value());
      if runQueue.count == 0 {
        current := None;
        return;
      }
      runQueue.Rotate();
      current := runQueue.FirstTask();
    }

    /** The task, if present, runs on with a fresh slice. */
    method Resume(id: TaskId)
      requires tasks.Length == S.MAX_SCHEDULER_TASKS
      modifies tasks
      ensures tasks[..] == S.Resume(old(tasks[..]), id)
    {
      var i := FindTask(id);
      if i < S.MAX_SCHEDULER_TASKS {
        Store(i, tasks[i].value.(state := S.Running, timeSlice := 0));
      }
    }

    method SetState(id: TaskId, state: S.TaskState)
      requires tasks.Length == S.MAX_SCHEDULER_TASKS
      modifies tasks
      ensures tasks[..] == S.SetState(old(tasks[..]), id, state)
    {
      var i := FindTask(id);
      if i < S.MAX_SCHEDULER_TASKS {
        Store(i, tasks[i].value.(state := state));
      }
    }

    /** The part of `timer_interrupt` after the scheduling decision. */
    method Decide(id: TaskId, stack: S.Stack) returns (r: u64)
      requires tasks.Length == S.MAX_SCHEDULER_TASKS
      modifies this`current, tasks
      ensures (Value(), r) == S.Decide(old(Value()), id, stack)
    {
      hide S.Put, S.ValidFrame, S.Resume, S.SetState;
      if current.None? {
        Resume(id);
        return 0;
      }
      var next := current.value;
      if next == id {
        Resume(id);
        return 0;
      }
      var i := FindTask(next);
      if i == S.MAX_SCHEDULER_TASKS {
        current := Some(id);
        Resume(id);
        return 0;
      }
      var nextRsp := tasks[i].value.interruptRsp;
      if !S.ValidFrame(stack, nextRsp) {
        current := Some(id);
        Resume(id);
        SetState(next, S.Ready);
        return 0;
      }
      SetState(id, S.Ready);
      Resume(next);
      return nextRsp;
    }

    method TimerInterrupt(rsp: u64, stack: S.Stack) returns (r: u64)
      requires Valid()
      modifies this`current, this`ticks, runQueue.tasks, tasks
      ensures Valid()
      ensures (Value(), r) == S.TimerInterrupt(old(Value()), rsp, stack)
    {
      hide S.Valid, S.Put, S.Decide, S.Schedule, S.Tick;
      S.TimerKeepsValid(Value(), rsp, stack);
      if current.None? {
        return 0;
      }
      var id := current.value;
      var i := FindTask(id);
      if i == S.MAX_SCHEDULER_TASKS {
        return 0;
      }
      S.AfterTickSpec(Value(), id, rsp);
      S.SaveKeepsValid(Value(), id, rsp);
      Store(i, tasks[i].value.(interruptRsp := rsp, state := S.Running));
      Tick();
      i := FindTask(id);
      var expired := i < S.MAX_SCHEDULER_TASKS && tasks[i].value.timeSlice >= S.DEFAULT_TIME_SLICE_TICKS;
      if !expired {
        return 0;
      }
      Schedule();
      r := Decide(id, stack);
    }
  }
}
