/**
 The IPC manager as objects: ring buffers updated in place behind slots of flags and generations.
 */
module IpcObject {
  import opened Words
  import opened Handles
  import I = Ipc

  /** `IpcMessage::new`: the payload copied byte by byte into a zeroed buffer. */
  method NewMessage(sender: u64, data: seq<bv8>) returns (r: Option<I.Message>)
    ensures r == I.NewMessage(sender, data)
  {
    if |data| > I.IPC_MESSAGE_SIZE {
      return None;
    }
    var message := I.EmptyMessage();
    message := message.(sender := sender, len := |data|);
    var index := 0;
    while index < |data|
      invariant 0 <= index <= |data|
      invariant message.sender == sender && message.len == |data|
      invariant |message.data| == I.IPC_MESSAGE_SIZE
      invariant message.data == data[..index] + I.EmptyMessage().data[index..]
    {
      message := message.(data := message.data[index := data[index]]);
      index := index + 1;
    }
    assert data[..|data|] == data;
    return Some(message);
  }

  /** The buffer position of the i-th queued message. */
  function At(head: nat, i: nat): (k: nat)
    ensures k < I.IPC_QUEUE_CAPACITY
  {
    (head + i) % I.IPC_QUEUE_CAPACITY
  }

  lemma AtStep(head: nat, i: nat)
    requires head < I.IPC_QUEUE_CAPACITY
    ensures At(head, 0) == head
    ensures At(if head + 1 == I.IPC_QUEUE_CAPACITY then 0 else head + 1, i) == At(head, i + 1)
    ensures At(head, i + 1) == if At(head, i) + 1 == I.IPC_QUEUE_CAPACITY then 0 else At(head, i) + 1
  {
  }

  lemma AtDistinct(head: nat, i: nat, j: nat)
    requires head < I.IPC_QUEUE_CAPACITY && i < j < I.IPC_QUEUE_CAPACITY
    ensures At(head, i) != At(head, j)
  {
  }

  /** A ring buffer of sixteen messages. */
  class IpcQueue {
    const messages: array<I.Message>
    var head: nat
    var tail: nat
    var count: nat

    ghost predicate Valid()
      reads this
    {
      && messages.Length == I.IPC_QUEUE_CAPACITY
      && head < I.IPC_QUEUE_CAPACITY && count <= I.IPC_QUEUE_CAPACITY
      && tail == At(head, count)
    }

    /** The queued messages, oldest first. */
    ghost function Contents(): (r: seq<I.Message>)
      requires Valid()
      reads this, messages
      ensures |r| == count
      ensures forall i :: 0 <= i < count ==> r[i] == messages[At(head, i)]
    {
      seq(count, i requires 0 <= i < count reads this, messages requires Valid() => messages[At(head, i)])
    }

    constructor ()
      ensures Valid() && fresh(messages) && Contents() == []
    {
      messages := new I.Message[I.IPC_QUEUE_CAPACITY](_ => I.EmptyMessage());
      head, tail, count := 0, 0, 0;
    }

    method Send(message: I.Message) returns (ok: bool)
      requires Valid()
      modifies this, messages
      ensures Valid()
      ensures ok <==> |old(Contents())| < I.IPC_QUEUE_CAPACITY
      ensures Contents() == if ok then old(Contents()) + [message] else old(Contents())
    {
      hide At;
      if count == I.IPC_QUEUE_CAPACITY {
        return false;
      }
      messages[tail] := message;
      tail := tail + 1;
      if tail == I.IPC_QUEUE_CAPACITY {
        tail := 0;
      }
      count := count + 1;
      AtStep(head, count - 1);
      forall i: nat | i < count - 1 { AtDistinct(head, i, count - 1); }
      assert Contents() == old(Contents()) + [message];
      return true;
    }

    method Receive() returns (r: Option<I.Message>)
      requires Valid()
      modifies this, messages
      ensures Valid()
      ensures r.Some? <==> old(Contents()) != []
      ensures r.Some? ==> r.value == old(Contents())[0] && Contents() == old(Contents())[1..]
      ensures r.None? ==> Contents() == old(Contents())
    {
      hide At;
      if count == 0 {
        return None;
      }
      var message := messages[head];
      messages[head] := I.EmptyMessage();
      head := head + 1;
      if head == I.IPC_QUEUE_CAPACITY {
        head := 0;
      }
      count := count - 1;
      ghost var was := old(head);
      AtStep(was, count);
      forall i: nat | i < count
        ensures At(head, i) == At(was, i + 1) && At(was, i + 1) != was
      {
        AtStep(was, i);
        AtDistinct(was, 0, i + 1);
      }
      assert Contents() == old(Contents())[1..];
      return Some(message);
    }
  }

  lemma RefusesDead(slots: seq<I.Slot>, h: u64)
    requires |slots| == I.MAX_IPC_ENDPOINTS && !I.NamesLive(slots, h)
    ensures I.Apply(slots, I.DestroyCall(h)) == (slots, I.Verdict(false))
  {
  }

  /** One slot of the endpoint table; its queue is created with the slot and never replaced. */
  datatype EndpointSlot = EndpointSlot(occupied: bool, generation: u32, queue: IpcQueue)

  /** The manager behind its lock: each method is one critical section, run alone. */
  class IpcManager {
    const slots: array<EndpointSlot>
    ghost const queues: seq<IpcQueue>

    /** Everything the manager may write: the slots, the queues and their buffers. */
    ghost function Footprint(): set<object> {
      var qs: set<object> := set q: IpcQueue | q in queues;
      var buffers: set<object> := set q: IpcQueue | q in queues :: q.messages;
      {slots} + qs + buffers
    }

    /** Sixteen slots, each with a queue and a buffer of its own. */
    ghost predicate Valid()
      reads this, slots, queues
    {
      && slots.Length == |queues| == I.MAX_IPC_ENDPOINTS
      && (forall i: nat :: i < |queues| ==> slots[i].queue == queues[i] && queues[i].Valid())
      && (forall i: nat, j: nat :: i < j < |queues| ==>
            queues[i] != queues[j] && queues[i].messages != queues[j].messages)
    }

    ghost function SlotValue(i: nat): I.Slot
      requires Valid() && i < slots.Length
      reads this, slots, queues, Footprint()
    {
      I.Slot(slots[i].occupied, slots[i].generation, slots[i].queue.Contents())
    }

    ghost function Value(): (r: seq<I.Slot>)
      requires Valid()
      reads this, slots, queues, Footprint()
      ensures |r| == I.MAX_IPC_ENDPOINTS
      ensures forall i: nat :: i < |r| ==> r[i] == SlotValue(i)
    {
      seq(I.MAX_IPC_ENDPOINTS, i requires 0 <= i < I.MAX_IPC_ENDPOINTS && Valid()
            reads this, slots, queues, Footprint() => SlotValue(i))
    }

    constructor ()
      ensures Valid() && fresh(Footprint())
      ensures Value() == I.EmptyTable()
    {
      var qs: seq<IpcQueue> := [];
      for k := 0 to I.MAX_IPC_ENDPOINTS
        invariant |qs| == k
        invariant forall i: nat :: i < k ==> fresh(qs[i]) && fresh(qs[i].messages) && qs[i].Valid() && qs[i].Contents() == []
        invariant forall i: nat, j: nat :: i < j < k ==> qs[i] != qs[j] && qs[i].messages != qs[j].messages
      {
        var queue := new IpcQueue();
        qs := qs + [queue];
      }
      queues := qs;
      slots := new EndpointSlot[I.MAX_IPC_ENDPOINTS](i requires 0 <= i < |qs| => EndpointSlot(false, 1, qs[i]));
    }

    method Create() returns (r: Option<u64>)
      requires Valid()
      modifies slots
      ensures Valid()
      ensures (Value(), I.Handle(r)) == I.Apply(old(Value()), I.CreateCall)
    {
      hide Pack;
      for index := 0 to I.MAX_IPC_ENDPOINTS
        invariant Valid() && Value() == old(Value())
        invariant slots[..] == old(slots[..])
        invariant forall j :: 0 <= j < index ==> slots[j].occupied
      {
        if !slots[index].occupied {
          ghost var v := Value();
          assert !v[index].occupied && forall j: nat :: j < index ==> v[j].occupied;
          assert I.FreeIndex(v, 0) == index;
          slots[index] := slots[index].(occupied := true);
          assert Value() == old(Value())[index := old(Value())[index].(occupied := true)];
          return Some(Pack(index, slots[index].generation));
        }
      }
      return None;
    }

    /** The checks made before and under the manager lock. */
    method Locate(h: u64) returns (r: Option<nat>)
      requires Valid()
      ensures r == if I.NamesLive(Value(), h) then Some(Index(h)) else None
    {
      hide Index, Generation;
      if h == INVALID {
        return None;
      }
      var index := Index(h);
      if index >= I.MAX_IPC_ENDPOINTS {
        return None;
      }
      if !slots[index].occupied || slots[index].generation != Generation(h) {
        return None;
      }
      return Some(index);
    }

    method IsValid(h: u64) returns (r: bool)
      requires Valid()
      ensures (Value(), I.Verdict(r)) == I.Apply(Value(), I.IsValidCall(h))
    {
      hide Index, Generation;
      var t := Locate(h);
      r := t.Some?;
    }

    method Send(h: u64, sender: u64, data: seq<bv8>) returns (ok: bool)
      requires Valid()
      modifies Footprint()
      ensures Valid()
      ensures (Value(), I.Verdict(ok)) == I.Apply(old(Value()), I.SendCall(h, sender, data))
    {
      hide Index, Generation, I.NewMessage;
      var message := NewMessage(sender, data);
      if message.None? {
        return false;
      }
      var t := Locate(h);
      if t.None? {
        return false;
      }
      ok := slots[t.value].queue.Send(message.value);
      QueueChanged(t.value);
    }

    method Receive(h: u64) returns (r: Option<I.Message>)
      requires Valid()
      modifies Footprint()
      ensures Valid()
      ensures (Value(), I.Received(r)) == I.Apply(old(Value()), I.ReceiveCall(h))
    {
      hide Index, Generation;
      var t := Locate(h);
      if t.None? {
        return None;
      }
      r := slots[t.value].queue.Receive();
      QueueChanged(t.value);
    }

    /** After a change to one queue, only its slot's value can differ. */
    twostate lemma QueueChanged(t: nat)
      requires old(Valid()) && t < slots.Length && unchanged(slots)
      requires queues[t].Valid()
      requires forall i: nat :: i < |queues| && i != t ==> unchanged(queues[i]) && unchanged(queues[i].messages)
      ensures Valid()
      ensures Value() == old(Value())[t := old(Value())[t].(queue := queues[t].Contents())]
    {
      forall i: nat | i < |queues| && i != t
        ensures queues[i].Contents() == old(queues[i].Contents())
      {
      }
    }

    method QueueLen(h: u64) returns (r: Option<nat>)
      requires Valid()
      ensures (Value(), I.Length(r)) == I.Apply(Value(), I.QueueLenCall(h))
    {
      hide Index, Generation;
      var t := Locate(h);
      if t.None? {
        return None;
      }
      r := Some(slots[t.value].queue.count);
      ghost var i := t.value;
      assert Value()[i := Value()[i].(queue := Value()[i].queue)] == Value();
    }

    method Destroy(h: u64) returns (ok: bool)
      requires Valid()
      modifies slots
      ensures Valid()
      ensures (Value(), I.Verdict(ok)) == I.Apply(old(Value()), I.DestroyCall(h))
    {
      hide Index, Generation, NextGeneration;
      var t := Locate(h);
      assert Value() == old(Value());
      if t.None? {
        RefusesDead(Value(), h);
        return false;
      }
      var i := t.value;
      assert Value()[i := Value()[i].(queue := Value()[i].queue)] == Value();
      assert |Value()[i].queue| == slots[i].queue.count;
      if slots[i].queue.count != 0 {
        return false;
      }
      slots[i] := slots[i].(occupied := false, generation := NextGeneration(slots[i].generation));
      assert Value() == old(Value())[i := I.Cleared(old(Value())[i])];
      return true;
    }

    method Count() returns (n: nat)
      requires Valid()
      ensures (Value(), I.Total(n)) == I.Apply(Value(), I.CountCall)
    {
      n := 0;
      for index := 0 to I.MAX_IPC_ENDPOINTS
        invariant n == I.CountOccupied(Value()[..index])
      {
        assert Value()[..index + 1][..index] == Value()[..index];
        if slots[index].occupied {
          n := n + 1;
        }
      }
      assert Value()[..I.MAX_IPC_ENDPOINTS] == Value();
    }
  }
}
