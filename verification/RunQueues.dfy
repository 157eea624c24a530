/**
 The run queue: 64 slots with holes, scanned and shifted in place.
 */
module RunQueues {
  import opened Words

  const MAX_TASKS: nat := 64

  type TaskId = u64
  type Slots = seq<Option<TaskId>>

  /** The ids held in a row of slots. */
  ghost function Ids(slots: Slots): set<TaskId> {
    set i: nat | i < |slots| && slots[i].Some? :: slots[i].value
  }

  ghost predicate Distinct(slots: Slots) {
    forall i, j :: 0 <= i < j < |slots| && slots[i].Some? ==> slots[i] != slots[j]
  }

  /** The first slot at or after `from` that holds x, or the number of slots. */
  function IndexOf(slots: Slots, x: Option<TaskId>, from: nat): (i: nat)
    requires from <= |slots|
    ensures from <= i <= |slots|
    ensures i < |slots| ==> slots[i] == x
    ensures forall j :: from <= j < i ==> slots[j] != x
    decreases |slots| - from
  {
    if from == |slots| || slots[from] == x then from else IndexOf(slots, x, from + 1)
  }

  /** The first occupied slot at or after `from`, or the number of slots. */
  function FirstOccupied(slots: Slots, from: nat): (i: nat)
    requires from <= |slots|
    ensures from <= i <= |slots|
    ensures i < |slots| ==> slots[i].Some?
    ensures forall j :: from <= j < i ==> slots[j].None?
    decreases |slots| - from
  {
    if from == |slots| || slots[from].Some? then from else FirstOccupied(slots, from + 1)
  }

  datatype Queue = Queue(slots: Slots, count: nat) {
    /** The count is the number of queued ids, and no id is queued twice. */
    ghost predicate Valid() {
      |slots| == MAX_TASKS && Distinct(slots) && count == |Ids(slots)|
    }
  }

  function Pushed(q: Queue, id: TaskId): (Queue, bool) {
    if q.count >= MAX_TASKS || IndexOf(q.slots, Some(id), 0) < |q.slots| then (q, false)
    else
      var i := IndexOf(q.slots, None, 0);
      if i == |q.slots| then (q, false) else (Queue(q.slots[i := Some(id)], q.count + 1), true)
  }

  function Removed(q: Queue, id: TaskId): (Queue, bool)
    requires q.Valid()
  {
    var i := IndexOf(q.slots, Some(id), 0);
    if i == |q.slots| then (q, false)
    else
      CountPositive(q.slots, i);
      (Queue(q.slots[i := None], q.count - 1), true)
  }

  function First(slots: Slots): Option<TaskId> {
    var i := FirstOccupied(slots, 0);
    if i == |slots| then None else slots[i]
  }

  function Shifted(slots: Slots): Slots
    requires slots != []
  {
    slots[1..] + [slots[0]]
  }

  function Rotated(q: Queue): Queue
    requires |q.slots| == MAX_TASKS
  {
    if q.count <= 1 then q else q.(slots := Shifted(q.slots))
  }

  // ---- Id sets ----

  lemma CountPositive(slots: Slots, i: nat)
    requires i < |slots| && slots[i].Some?
    ensures slots[i].value in Ids(slots) && |Ids(slots)| > 0
  {
    assert slots[i].value in Ids(slots);
  }

  lemma IdsMeans(slots: Slots, id: TaskId)
    ensures id in Ids(slots) <==> Some(id) in slots
    ensures id in Ids(slots) <==> IndexOf(slots, Some(id), 0) < |slots|
  {
  }

  lemma IdsAfterSet(slots: Slots, i: nat, id: TaskId)
    requires i < |slots| && slots[i].None?
    ensures Ids(slots[i := Some(id)]) == Ids(slots) + {id}
    ensures Distinct(slots) && id !in Ids(slots) ==> Distinct(slots[i := Some(id)])
  {
    var slots' := slots[i := Some(id)];
    forall x: TaskId
      ensures Some(x) in slots' <==> Some(x) in slots || x == id
    {
      assert slots'[i] == Some(id);
      if Some(x) in slots {
        var j :| 0 <= j < |slots| && slots[j] == Some(x);
        assert slots'[j] == Some(x);
      }
    }
    forall x: TaskId { IdsMeans(slots, x); }
    forall x: TaskId { IdsMeans(slots', x); }
    if Distinct(slots) && id !in Ids(slots) {
      assert Some(id) !in slots;
    }
  }

  lemma IdsAfterClear(slots: Slots, i: nat, id: TaskId)
    requires i < |slots| && slots[i] == Some(id) && Distinct(slots)
    ensures Ids(slots[i := None]) == Ids(slots) - {id}
    ensures Distinct(slots[i := None])
  {
    var slots' := slots[i := None];
    forall x: TaskId
      ensures Some(x) in slots' <==> Some(x) in slots && x != id
    {
      if Some(x) in slots && x != id {
        var j :| 0 <= j < |slots| && slots[j] == Some(x);
        assert slots'[j] == Some(x);
      }
    }
    forall x: TaskId { IdsMeans(slots, x); }
    forall x: TaskId { IdsMeans(slots', x); }
  }

  lemma IdsShifted(slots: Slots)
    requires slots != [] && Distinct(slots)
    ensures Ids(Shifted(slots)) == Ids(slots) && Distinct(Shifted(slots))
  {
    var slots' := Shifted(slots);
    forall x: TaskId
      ensures Some(x) in slots' <==> Some(x) in slots
    {
      if Some(x) in slots {
        var j :| 0 <= j < |slots| && slots[j] == Some(x);
        assert slots'[if j == 0 then |slots| - 1 else j - 1] == Some(x);
      }
    }
    forall x: TaskId { IdsMeans(slots, x); }
    forall x: TaskId { IdsMeans(slots', x); }
  }

  /** Fewer distinct ids than slots exactly when some slot is empty. */
  lemma {:induction false} HoleIffFewer(slots: Slots)
    requires Distinct(slots)
    ensures |Ids(slots)| <= |slots|
    ensures |Ids(slots)| < |slots| <==> None in slots
  {
    if slots != [] {
      var n := |slots| - 1;
      var init := slots[..n];
      HoleIffFewer(init);
      assert slots == init + [slots[n]];
      forall x: TaskId { IdsMeans(slots, x); }
      forall x: TaskId { IdsMeans(init, x); }
      match slots[n]
      case None => assert Ids(slots) == Ids(init);
      case Some(id) =>
        assert Some(id) !in init;
        assert Ids(slots) == Ids(init) + {id};
    }
  }

  // ---- What the operations do to the id set ----

  ghost predicate LowestHole(slots: Slots, i: nat) {
    i < |slots| && slots[i].None? && forall j :: 0 <= j < i ==> slots[j].Some?
  }

  /** A push fails exactly for a queued id or a full queue, and otherwise puts the id into the lowest empty slot. */
  lemma PushSpec(q: Queue, id: TaskId)
    requires q.Valid()
    ensures var (q', ok) := Pushed(q, id);
            && q'.Valid()
            && (ok <==> id !in Ids(q.slots) && |Ids(q.slots)| < MAX_TASKS)
            && Ids(q'.slots) == (if ok then Ids(q.slots) + {id} else Ids(q.slots))
            && (ok ==> exists i: nat :: LowestHole(q.slots, i) && q' == Queue(q.slots[i := Some(id)], q.count + 1))
            && (!ok ==> q' == q)
  {
    IdsMeans(q.slots, id);
    HoleIffFewer(q.slots);
    var i := IndexOf(q.slots, None, 0);
    if i < |q.slots| {
      IdsAfterSet(q.slots, i, id);
      assert LowestHole(q.slots, i);
    }
  }

  function EmptyQueue(): Queue {
    Queue(seq(MAX_TASKS, _ => None), 0)
  }

  /** The queue after pushing ids one by one. */
  function PushedAll(ids: seq<TaskId>): Queue {
    if ids == [] then EmptyQueue() else Pushed(PushedAll(ids[..|ids| - 1]), ids[|ids| - 1]).0
  }

  /** Distinct ids pushed onto an empty queue fill its slots from the front, in order, so the first one is the head. */
  lemma {:induction false} PushesFillInOrder(ids: seq<TaskId>)
    requires |ids| <= MAX_TASKS && forall i, j :: 0 <= i < j < |ids| ==> ids[i] != ids[j]
    ensures var q := PushedAll(ids);
            && q.Valid() && q.count == |ids|
            && (forall k :: 0 <= k < MAX_TASKS ==> q.slots[k] == if k < |ids| then Some(ids[k]) else None)
            && First(q.slots) == if ids == [] then None else Some(ids[0])
  {
    hide Pushed, Ids, Distinct, FirstOccupied;
    if ids == [] {
      EmptyQueueIsValid();
    } else {
      var n := |ids| - 1;
      var q := PushedAll(ids[..n]);
      PushesFillInOrder(ids[..n]);
      forall k | 0 <= k < MAX_TASKS
        ensures (q.slots[k].Some? <==> k < n) && q.slots[k] != Some(ids[n])
      {
        assert q.slots[k] == if k < n then Some(ids[k]) else None;
      }
      PushNext(q, ids[n], n);
      HeadIsFirst(PushedAll(ids).slots);
    }
  }

  lemma EmptyQueueIsValid()
    ensures EmptyQueue().Valid() && First(EmptyQueue().slots) == None
  {
    assert Ids(EmptyQueue().slots) == {};
  }

  lemma HeadIsFirst(slots: Slots)
    requires slots != [] && slots[0].Some?
    ensures First(slots) == slots[0]
  {
  }

  lemma PushNext(q: Queue, id: TaskId, n: nat)
    requires q.Valid() && q.count == n < MAX_TASKS
    requires forall k :: 0 <= k < MAX_TASKS ==> (q.slots[k].Some? <==> k < n) && q.slots[k] != Some(id)
    ensures Pushed(q, id) == (Queue(q.slots[n := Some(id)], n + 1), true) && Pushed(q, id).0.Valid()
  {
    hide Pushed, Ids;
    IdsMeans(q.slots, id);
    PushSpec(q, id);
    var i: nat :| LowestHole(q.slots, i) && Pushed(q, id).0 == Queue(q.slots[i := Some(id)], q.count + 1);
    assert q.slots[i].None? && q.slots[n].None?;
    assert i == n;
  }

  lemma RemoveSpec(q: Queue, id: TaskId)
    requires q.Valid()
    ensures var (q', ok) := Removed(q, id);
            && q'.Valid()
            && (ok <==> id in Ids(q.slots))
            && Ids(q'.slots) == Ids(q.slots) - {id}
            && (forall k :: 0 <= k < MAX_TASKS ==> q'.slots[k] == if q.slots[k] == Some(id) then None else q.slots[k])
            && (!ok ==> q' == q)
  {
    IdsMeans(q.slots, id);
    var i := IndexOf(q.slots, Some(id), 0);
    if i < |q.slots| {
      IdsAfterClear(q.slots, i, id);
    }
  }

  /** With two or more ids every slot, holes included, moves one place forward; otherwise nothing moves. */
  lemma RotateSpec(q: Queue)
    requires q.Valid()
    ensures Rotated(q).Valid() && Ids(Rotated(q).slots) == Ids(q.slots)
    ensures forall k :: 0 <= k < 64 ==> Rotated(q).slots[k] == q.slots[if |Ids(q.slots)| <= 1 then k else (k + 1) % 64]
  {
    IdsShifted(q.slots);
  }

  lemma FirstSpec(slots: Slots)
    ensures First(slots).None? <==> Ids(slots) == {}
    ensures First(slots).Some? ==> First(slots).value in Ids(slots)
    ensures First(slots).Some? ==>
              exists i: nat :: i < |slots| && slots[i] == First(slots) && forall j :: 0 <= j < i ==> slots[j].None?
  {
    var i := FirstOccupied(slots, 0);
    if i < |slots| {
      CountPositive(slots, i);
    }
  }

  // ---- The queue as an object ----

  class RunQueue {
    const tasks: array<Option<TaskId>>
    var count: nat

    ghost function Value(): Queue
      reads this, tasks
    {
      Queue(tasks[..], count)
    }

    ghost predicate Valid()
      reads this, tasks
      ensures Valid() ==> tasks.Length == MAX_TASKS
    {
      tasks.Length == MAX_TASKS && Value().Valid()
    }

    constructor ()
      ensures Valid() && fresh(tasks)
      ensures Value() == Queue(seq(MAX_TASKS, _ => None), 0)
    {
      tasks := new Option<TaskId>[MAX_TASKS](_ => None);
      count := 0;
      new;
      assert tasks[..] == seq(MAX_TASKS, _ => None);
      assert Ids(tasks[..]) == {};
    }

    method Push(id: TaskId) returns (ok: bool)
      requires Valid()
      modifies this, tasks
      ensures Valid()
      ensures (Value(), ok) == Pushed(old(Value()), id)
    {
      hide Ids, Distinct;
      PushSpec(Value(), id);
      if count >= MAX_TASKS {
        return false;
      }
      for i := 0 to MAX_TASKS
        invariant forall j :: 0 <= j < i ==> tasks[j] != Some(id)
      {
        if tasks[i] == Some(id) {
          return false;
        }
      }
      for i := 0 to MAX_TASKS
        invariant forall j :: 0 <= j < i ==> tasks[j] != None
        invariant Value() == old(Value())
      {
        if tasks[i].None? {
          assert IndexOf(tasks[..], None, 0) == i;
          tasks[i] := Some(id);
          count := count + 1;
          assert tasks[..] == old(tasks[..])[i := Some(id)];
          return true;
        }
      }
      return false;
    }

    method Remove(id: TaskId) returns (ok: bool)
      requires Valid()
      modifies this, tasks
      ensures Valid()
      ensures (Value(), ok) == Removed(old(Value()), id)
    {
      hide Ids, Distinct;
      RemoveSpec(Value(), id);
      for i := 0 to MAX_TASKS
        invariant forall j :: 0 <= j < i ==> tasks[j] != Some(id)
        invariant Value() == old(Value())
      {
        if tasks[i] == Some(id) {
          assert IndexOf(tasks[..], Some(id), 0) == i;
          CountPositive(tasks[..], i);
          tasks[i] := None;
          count := count - 1;
          assert tasks[..] == old(tasks[..])[i := None];
          return true;
        }
      }
      return false;
    }

    method Contains(id: TaskId) returns (r: bool)
      requires Valid()
      ensures r <==> id in Ids(tasks[..])
    {
      IdsMeans(tasks[..], id);
      for i := 0 to MAX_TASKS
        invariant forall j :: 0 <= j < i ==> tasks[j] != Some(id)
      {
        if tasks[i] == Some(id) {
          assert tasks[..][i] == Some(id);
          return true;
        }
      }
      return false;
    }

    method FirstTask() returns (r: Option<TaskId>)
      requires Valid()
      ensures r == First(tasks[..])
    {
      for i := 0 to MAX_TASKS
        invariant forall j :: 0 <= j < i ==> tasks[j].None?
      {
        if tasks[i].Some? {
          assert FirstOccupied(tasks[..], 0) == i;
          return tasks[i];
        }
      }
      return None;
    }

    method Rotate()
      requires Valid()
      modifies tasks
      ensures Valid()
      ensures Value() == Rotated(old(Value()))
    {
      RotateSpec(Value());
      if count <= 1 {
        return;
      }
      var first := tasks[0];
      for index := 0 to MAX_TASKS - 1
        invariant forall j :: 0 <= j < index ==> tasks[j] == old(tasks[j + 1])
        invariant forall j :: index <= j < MAX_TASKS ==> tasks[j] == old(tasks[j])
      {
        tasks[index] := tasks[index + 1];
      }
      tasks[MAX_TASKS - 1] := first;
      assert tasks[..] == Shifted(old(tasks[..]));
    }
  }
}
