/**
 Endpoints, messages and the IPC manager as functions of the endpoint table, and the delivery guarantee
 over arbitrary histories of calls.
 */
module Ipc {
  import opened Words
  import opened Handles

  const MAX_IPC_ENDPOINTS: nat := 16
  const IPC_QUEUE_CAPACITY: nat := 16
  const IPC_MESSAGE_SIZE: nat := 256

  // ---- Messages ----

  /** A fixed-size buffer of which the first `len` bytes are the payload. */
  datatype Message = Message(sender: u64, len: nat, data: seq<bv8>)

  function EmptyMessage(): Message {
    Message(INVALID, 0, seq(IPC_MESSAGE_SIZE, _ => 0))
  }

  function NewMessage(sender: u64, data: seq<bv8>): (r: Option<Message>)
    ensures r.Some? <==> |data| <= IPC_MESSAGE_SIZE
    ensures r.Some? ==> |r.value.data| == IPC_MESSAGE_SIZE && r.value.len <= IPC_MESSAGE_SIZE
  {
    if |data| > IPC_MESSAGE_SIZE then None
    else Some(Message(sender, |data|, data + EmptyMessage().data[|data|..]))
  }

  function Payload(m: Message): seq<bv8>
    requires m.len <= |m.data|
  {
    m.data[..m.len]
  }

  /** Up to 256 bytes are accepted, and sender and payload come back out as they went in. */
  lemma MessageRoundTrip(sender: u64, data: seq<bv8>)
    ensures NewMessage(sender, data).Some? <==> |data| <= 256
    ensures |data| <= 256 ==>
              var m := NewMessage(sender, data).value;
              && m.sender == sender && m.len == |data| && Payload(m) == data
              && |m.data| == 256 && forall k :: |data| <= k < 256 ==> m.data[k] == 0
  {
  }

  // ---- The manager ----

  datatype Slot = Slot(occupied: bool, generation: u32, queue: seq<Message>)

  const EMPTY_SLOT: Slot := Slot(false, 1, [])

  /** Clearing frees the slot and moves to the next generation; the queue is not touched. */
  function Cleared(slot: Slot): Slot {
    slot.(occupied := false, generation := NextGeneration(slot.generation))
  }

  function FreeIndex(slots: seq<Slot>, from: nat): (i: nat)
    requires from <= |slots|
    ensures from <= i <= |slots|
    ensures i < |slots| ==> !slots[i].occupied
    ensures forall j :: from <= j < i ==> slots[j].occupied
    decreases |slots| - from
  {
    if from == |slots| || !slots[from].occupied then from else FreeIndex(slots, from + 1)
  }

  /** The checks made before any lock is taken. */
  predicate Plausible(h: u64) {
    h != INVALID && Index(h) < MAX_IPC_ENDPOINTS
  }

  /** The check made under the manager lock. */
  predicate Matches(slots: seq<Slot>, h: u64)
    requires |slots| == MAX_IPC_ENDPOINTS && Plausible(h)
  {
    slots[Index(h)].occupied && slots[Index(h)].generation == Generation(h)
  }

  datatype Call =
    | CreateCall
    | IsValidCall(h: u64)
    | SendCall(h: u64, sender: u64, data: seq<bv8>)
    | ReceiveCall(h: u64)
    | QueueLenCall(h: u64)
    | DestroyCall(h: u64)
    | CountCall

  datatype Reply =
    | Handle(handle: Option<u64>)
    | Verdict(ok: bool)
    | Received(message: Option<Message>)
    | Length(length: Option<nat>)
    | Total(count: nat)

  /** The reply of a call that fails its checks. */
  function Refusal(c: Call): Reply {
    match c
    case ReceiveCall(_) => Received(None)
    case QueueLenCall(_) => Length(None)
    case CreateCall => Handle(None)
    case _ => Verdict(false)
  }

  /** Calls that are refused before any lock is taken. */
  predicate RefusedEarly(c: Call) {
    match c
    case CreateCall => false
    case CountCall => false
    case SendCall(h, sender, data) => NewMessage(sender, data).None? || !Plausible(h)
    case _ => !Plausible(c.h)
  }

  /** Calls that go on to take the endpoint's queue lock. */
  predicate UsesQueue(c: Call) {
    c.SendCall? || c.ReceiveCall? || c.QueueLenCall? || c.DestroyCall?
  }

  function CountOccupied(slots: seq<Slot>): nat {
    if slots == [] then 0
    else CountOccupied(slots[..|slots| - 1]) + if slots[|slots| - 1].occupied then 1 else 0
  }

  /** What happens under the queue lock: the new queue and the reply. */
  function OnQueue(queue: seq<Message>, c: Call): (seq<Message>, Reply)
    requires UsesQueue(c) && !RefusedEarly(c)
  {
    match c
    case SendCall(_, sender, data) =>
      if |queue| == IPC_QUEUE_CAPACITY then (queue, Verdict(false))
      else (queue + [NewMessage(sender, data).value], Verdict(true))
    case ReceiveCall(_) =>
      if queue == [] then (queue, Received(None)) else (queue[1..], Received(Some(queue[0])))
    case QueueLenCall(_) => (queue, Length(Some(|queue|)))
    case DestroyCall(_) => (queue, Verdict(queue == []))
  }

  /** A whole call, run alone. */
  function Apply(slots: seq<Slot>, c: Call): (r: (seq<Slot>, Reply))
    requires |slots| == MAX_IPC_ENDPOINTS
    ensures |r.0| == MAX_IPC_ENDPOINTS
  {
    if RefusedEarly(c) then (slots, Refusal(c))
    else if c.CreateCall? then
      var i := FreeIndex(slots, 0);
      if i == |slots| then (slots, Handle(None))
      else (slots[i := slots[i].(occupied := true)], Handle(Some(Pack(i, slots[i].generation))))
    else if c.CountCall? then (slots, Total(CountOccupied(slots)))
    else if c.IsValidCall? then (slots, Verdict(Matches(slots, c.h)))
    else if !Matches(slots, c.h) then (slots, Refusal(c))
    else
      var i := Index(c.h);
      var (queue, reply) := OnQueue(slots[i].queue, c);
      var slot := slots[i].(queue := queue);
      (slots[i := if c.DestroyCall? && reply.ok then Cleared(slot) else slot], reply)
  }

  // ---- Histories ----

  datatype Happening =
    | Opened(index: nat)
    | Accepted(index: nat, message: Message)
    | Delivered(index: nat, message: Message)
    | Closed(index: nat)

  /** What a call and its reply say has happened. */
  function Observed(c: Call, r: Reply): seq<Happening> {
    match c
    case CreateCall => if r.Handle? && r.handle.Some? then [Opened(Index(r.handle.value))] else []
    case SendCall(h, sender, data) =>
      if r == Verdict(true) && NewMessage(sender, data).Some? then [Accepted(Index(h), NewMessage(sender, data).value)] else []
    case ReceiveCall(h) => if r.Received? && r.message.Some? then [Delivered(Index(h), r.message.value)] else []
    case DestroyCall(h) => if r == Verdict(true) then [Closed(Index(h))] else []
    case _ => []
  }

  /** The messages accepted by an endpoint since it was last opened. */
  function AcceptedBy(log: seq<Happening>, i: nat): seq<Message> {
    if log == [] then []
    else
      var before := AcceptedBy(log[..|log| - 1], i);
      match log[|log| - 1]
      case Opened(j) => if j == i then [] else before
      case Accepted(j, m) => if j == i then before + [m] else before
      case _ => before
  }

  /** The messages delivered by an endpoint since it was last opened. */
  function DeliveredBy(log: seq<Happening>, i: nat): seq<Message> {
    if log == [] then []
    else
      var before := DeliveredBy(log[..|log| - 1], i);
      match log[|log| - 1]
      case Opened(j) => if j == i then [] else before
      case Delivered(j, m) => if j == i then before + [m] else before
      case _ => before
  }

  function Closings(log: seq<Happening>, i: nat): nat {
    if log == [] then 0
    else Closings(log[..|log| - 1], i) + if log[|log| - 1] == Closed(i) then 1 else 0
  }

  /** How often an endpoint has been opened. */
  function Openings(log: seq<Happening>, i: nat): nat {
    if log == [] then 0
    else Openings(log[..|log| - 1], i) + if log[|log| - 1] == Opened(i) then 1 else 0
  }

  /** Openings minus closings of all endpoints. */
  function Outstanding(log: seq<Happening>): int {
    if log == [] then 0
    else
      var e := log[|log| - 1];
      Outstanding(log[..|log| - 1]) + (if e.Opened? then 1 else if e.Closed? then -1 else 0)
  }

  /**
   Delivery as a property of the history alone: every delivered message is the next one accepted in the
   same lifetime, and when an endpoint closes everything it accepted has been delivered.
   */
  ghost predicate InOrder(log: seq<Happening>) {
    forall k: nat :: k < |log| ==> InOrderAt(log, k)
  }

  ghost predicate InOrderAt(log: seq<Happening>, k: nat)
    requires k < |log|
  {
    var before := log[..k];
    var i := log[k].index;
    match log[k]
    case Delivered(_, m) => DeliveredBy(before, i) + [m] <= AcceptedBy(before, i)
    case Closed(_) => DeliveredBy(before, i) == AcceptedBy(before, i)
    case _ => true
  }

  /** Accepted messages are the delivered ones followed by the queued ones, and closed endpoints are empty. */
  ghost predicate SlotOk(slot: Slot, log: seq<Happening>, i: nat) {
    && AcceptedBy(log, i) == DeliveredBy(log, i) + slot.queue
    && |slot.queue| <= IPC_QUEUE_CAPACITY
    && (!slot.occupied ==> slot.queue == [])
    && Openings(log, i) == Closings(log, i) + (if slot.occupied then 1 else 0)
    && slot.generation == GenerationAfter(Closings(log, i))
  }

  ghost predicate Inv(slots: seq<Slot>, log: seq<Happening>) {
    && |slots| == MAX_IPC_ENDPOINTS
    && (forall i: nat :: i < |slots| ==> SlotOk(slots[i], log, i))
    && CountOccupied(slots) == Outstanding(log)
    && InOrder(log)
  }

  lemma LogStep(log: seq<Happening>, e: Happening, i: nat)
    ensures AcceptedBy(log + [e], i) ==
            (if e == Opened(i) then [] else AcceptedBy(log, i) + if e.Accepted? && e.index == i then [e.message] else [])
    ensures DeliveredBy(log + [e], i) ==
            (if e == Opened(i) then [] else DeliveredBy(log, i) + if e.Delivered? && e.index == i then [e.message] else [])
    ensures Closings(log + [e], i) == Closings(log, i) + if e == Closed(i) then 1 else 0
    ensures Openings(log + [e], i) == Openings(log, i) + if e == Opened(i) then 1 else 0
    ensures Outstanding(log + [e]) == Outstanding(log) + (if e.Opened? then 1 else if e.Closed? then -1 else 0)
  {
    assert (log + [e])[..|log|] == log;
  }

  lemma InOrderStep(log: seq<Happening>, e: Happening)
    requires InOrder(log)
    requires e.Delivered? ==> DeliveredBy(log, e.index) + [e.message] <= AcceptedBy(log, e.index)
    requires e.Closed? ==> DeliveredBy(log, e.index) == AcceptedBy(log, e.index)
    ensures InOrder(log + [e])
  {
    var log' := log + [e];
    forall k: nat | k < |log'|
      ensures InOrderAt(log', k)
    {
      assert log'[..k] == if k < |log| then log[..k] else log;
      assert k < |log| ==> InOrderAt(log, k);
    }
  }

  lemma {:induction false} CountAfterUpdate(slots: seq<Slot>, i: nat, slot: Slot)
    requires i < |slots|
    ensures CountOccupied(slots[i := slot]) ==
            CountOccupied(slots) - (if slots[i].occupied then 1 else 0) + (if slot.occupied then 1 else 0)
  {
    var n := |slots| - 1;
    if i < n {
      CountAfterUpdate(slots[..n], i, slot);
      assert slots[i := slot][..n] == slots[..n][i := slot];
    } else {
      assert slots[i := slot][..n] == slots[..n];
    }
  }

  /** A happening at one slot leaves what the others have accepted, delivered and queued alone. */
  lemma HappeningKeepsInv(slots: seq<Slot>, log: seq<Happening>, e: Happening, slot: Slot)
    requires Inv(slots, log) && e.index < |slots|
    requires SlotOk(slot, log + [e], e.index)
    requires e.Delivered? ==> DeliveredBy(log, e.index) + [e.message] <= AcceptedBy(log, e.index)
    requires e.Closed? ==> DeliveredBy(log, e.index) == AcceptedBy(log, e.index)
    ensures Inv(slots[e.index := slot], log + [e])
  {
    hide AcceptedBy, DeliveredBy, Openings, Closings, Outstanding, CountOccupied, InOrder, GenerationAfter;
    InOrderStep(log, e);
    LogStep(log, e, e.index);
    CountAfterUpdate(slots, e.index, slot);
    var slots' := slots[e.index := slot];
    forall j: nat | j < |slots'|
      ensures SlotOk(slots'[j], log + [e], j)
    {
      if j != e.index {
        LogStep(log, e, j);
        assert AcceptedBy(log, j) + [] == AcceptedBy(log, j) && DeliveredBy(log, j) + [] == DeliveredBy(log, j);
      }
    }
  }

  lemma CreateKeepsInv(slots: seq<Slot>, log: seq<Happening>)
    requires Inv(slots, log)
    ensures var (slots', r) := Apply(slots, CreateCall);
            && Inv(slots', log + Observed(CreateCall, r))
            && (r.handle.None? <==> forall i :: 0 <= i < |slots| ==> slots[i].occupied)
            && (r.handle.Some? ==>
                  && r.handle.value != INVALID && !NamesLive(slots, r.handle.value)
                  && NamesLive(slots', r.handle.value))
  {
    hide AcceptedBy, DeliveredBy, Openings, Closings, Outstanding, CountOccupied, InOrder, Pack, Index, Generation;
    var i := FreeIndex(slots, 0);
    if i < |slots| {
      UnpackPack(i, slots[i].generation);
      IssuedIsNotInvalid(i, slots[i].generation);
      LogStep(log, Opened(i), i);
      HappeningKeepsInv(slots, log, Opened(i), slots[i].(occupied := true));
    } else {
      assert log + [] == log;
    }
  }

  /** A handle that names a live endpoint. */
  predicate NamesLive(slots: seq<Slot>, h: u64) {
    |slots| == MAX_IPC_ENDPOINTS && Plausible(h) && Matches(slots, h)
  }

  lemma SendKeepsInv(slots: seq<Slot>, log: seq<Happening>, c: Call)
    requires Inv(slots, log) && c.SendCall?
    ensures var (slots', r) := Apply(slots, c);
            && Inv(slots', log + Observed(c, r))
            && (r == Verdict(true) <==>
                  NewMessage(c.sender, c.data).Some? && NamesLive(slots, c.h)
                  && |slots[Index(c.h)].queue| < IPC_QUEUE_CAPACITY)
  {
    hide AcceptedBy, DeliveredBy, Openings, Closings, Outstanding, CountOccupied, InOrder, Index, Generation, NewMessage;
    var (slots', r) := Apply(slots, c);
    if r == Verdict(true) {
      var i := Index(c.h);
      var m := NewMessage(c.sender, c.data).value;
      LogStep(log, Accepted(i, m), i);
      HappeningKeepsInv(slots, log, Accepted(i, m), slots[i].(queue := slots[i].queue + [m]));
    } else {
      assert log + [] == log;
      SameSlots(slots, slots', c);
    }
  }

  lemma SameSlots(slots: seq<Slot>, slots': seq<Slot>, c: Call)
    requires |slots| == MAX_IPC_ENDPOINTS && Apply(slots, c).0 == slots' && Observed(c, Apply(slots, c).1) == []
    requires !c.CreateCall?
    ensures slots' == slots
  {
    hide Index, Generation, NewMessage;
  }

  lemma PopSplit(accepted: seq<Message>, delivered: seq<Message>, queue: seq<Message>)
    requires accepted == delivered + queue && queue != []
    ensures accepted == (delivered + [queue[0]]) + queue[1..]
    ensures delivered + [queue[0]] <= accepted
  {
    assert queue == [queue[0]] + queue[1..];
  }

  lemma ReceiveShape(slots: seq<Slot>, c: Call)
    requires |slots| == MAX_IPC_ENDPOINTS && c.ReceiveCall?
    ensures var i := Index(c.h);
            Apply(slots, c) ==
            if NamesLive(slots, c.h) && slots[i].queue != [] then
              (slots[i := slots[i].(queue := slots[i].queue[1..])], Received(Some(slots[i].queue[0])))
            else (slots, Received(None))
  {
    hide Index, Generation;
    if NamesLive(slots, c.h) {
      assert slots[Index(c.h) := slots[Index(c.h)]] == slots;
    }
  }

  lemma ReceiveKeepsInv(slots: seq<Slot>, log: seq<Happening>, c: Call)
    requires Inv(slots, log) && c.ReceiveCall?
    ensures var (slots', r) := Apply(slots, c);
            && Inv(slots', log + Observed(c, r))
            && (r.message.Some? <==> NamesLive(slots, c.h) && slots[Index(c.h)].queue != [])
  {
    hide AcceptedBy, DeliveredBy, Openings, Closings, Outstanding, CountOccupied, InOrder, Index, Generation, GenerationAfter, Apply;
    ReceiveShape(slots, c);
    if NamesLive(slots, c.h) && slots[Index(c.h)].queue != [] {
      var i := Index(c.h);
      var q := slots[i].queue;
      var e := Delivered(i, q[0]);
      assert SlotOk(slots[i], log, i);
      PopSplit(AcceptedBy(log, i), DeliveredBy(log, i), q);
      LogStep(log, e, i);
      assert AcceptedBy(log, i) + [] == AcceptedBy(log, i);
      HappeningKeepsInv(slots, log, e, slots[i].(queue := q[1..]));
    } else {
      assert log + [] == log;
    }
  }

  /** Destroying succeeds exactly on a live, drained endpoint. */
  lemma DestroyKeepsInv(slots: seq<Slot>, log: seq<Happening>, c: Call)
    requires Inv(slots, log) && c.DestroyCall?
    ensures var (slots', r) := Apply(slots, c);
            && Inv(slots', log + Observed(c, r))
            && (r == Verdict(true) <==> NamesLive(slots, c.h) && slots[Index(c.h)].queue == [])
  {
    hide AcceptedBy, DeliveredBy, Openings, Closings, Outstanding, CountOccupied, InOrder, Index, Generation, GenerationAfter, NextGeneration;
    var (slots', r) := Apply(slots, c);
    if r == Verdict(true) {
      var i := Index(c.h);
      LogStep(log, Closed(i), i);
      GenerationStep(Closings(log, i));
      assert DeliveredBy(log, i) + [] == DeliveredBy(log, i) && AcceptedBy(log, i) + [] == AcceptedBy(log, i);
      HappeningKeepsInv(slots, log, Closed(i), Cleared(slots[i]));
    } else {
      assert log + [] == log;
      SameSlots(slots, slots', c);
    }
  }

  lemma ApplyKeepsInv(slots: seq<Slot>, log: seq<Happening>, c: Call)
    requires Inv(slots, log)
    ensures var (slots', r) := Apply(slots, c);
            Inv(slots', log + Observed(c, r))
  {
    hide Inv, Index, Generation;
    InvLength(slots, log);
    match c
    case CreateCall => CreateKeepsInv(slots, log);
    case SendCall(_, _, _) => SendKeepsInv(slots, log, c);
    case ReceiveCall(_) => ReceiveKeepsInv(slots, log, c);
    case DestroyCall(_) => DestroyKeepsInv(slots, log, c);
    case _ =>
      assert log + [] == log;
      SameSlots(slots, Apply(slots, c).0, c);
  }

  lemma InvLength(slots: seq<Slot>, log: seq<Happening>)
    requires Inv(slots, log)
    ensures |slots| == MAX_IPC_ENDPOINTS
  {
  }

  // ---- Replies from the history alone ----

  /** The handle names an endpoint that is open, in its present lifetime. */
  ghost predicate OpenHandle(log: seq<Happening>, h: u64) {
    var i := h % TWO32;
    && i < 16
    && Openings(log, i) == Closings(log, i) + 1
    && h / TWO32 == 1 + Closings(log, i) % PERIOD
  }

  /** The first endpoint at or after `from` that is not open. */
  ghost function LowestClosed(log: seq<Happening>, from: nat): (i: nat)
    requires from <= 16
    ensures from <= i <= 16
    ensures i < 16 ==> Openings(log, i) == Closings(log, i)
    ensures forall j: nat :: from <= j < i ==> Openings(log, j) != Closings(log, j)
    decreases 16 - from
  {
    if from == 16 || Openings(log, from) == Closings(log, from) then from else LowestClosed(log, from + 1)
  }

  /** What every call must answer after a given history. */
  ghost function HistoryReply(log: seq<Happening>, c: Call): Reply {
    match c
    case CreateCall =>
      var i := LowestClosed(log, 0);
      Handle(if i == 16 then None else Some((1 + Closings(log, i) % PERIOD) * TWO32 + i))
    case CountCall => Total(if Outstanding(log) < 0 then 0 else Outstanding(log))
    case IsValidCall(h) => Verdict(OpenHandle(log, h))
    case SendCall(h, _, data) =>
      var i := h % TWO32;
      Verdict(|data| <= 256 && OpenHandle(log, h) && |AcceptedBy(log, i)| - |DeliveredBy(log, i)| < 16)
    case ReceiveCall(h) =>
      var i := h % TWO32;
      Received(if OpenHandle(log, h) && |DeliveredBy(log, i)| < |AcceptedBy(log, i)|
               then Some(AcceptedBy(log, i)[|DeliveredBy(log, i)|]) else None)
    case QueueLenCall(h) =>
      var i := h % TWO32;
      Length(if OpenHandle(log, h) && |DeliveredBy(log, i)| <= |AcceptedBy(log, i)|
             then Some(|AcceptedBy(log, i)| - |DeliveredBy(log, i)|) else None)
    case DestroyCall(h) =>
      var i := h % TWO32;
      Verdict(OpenHandle(log, h) && AcceptedBy(log, i) == DeliveredBy(log, i))
  }

  lemma OpenMeansLive(slots: seq<Slot>, log: seq<Happening>, h: u64)
    requires Inv(slots, log)
    ensures NamesLive(slots, h) <==> OpenHandle(log, h)
    ensures Index(h) == h % TWO32
  {
    hide AcceptedBy, DeliveredBy, Openings, Closings, Outstanding, CountOccupied, InOrder, Generation;
    GenerationIs(h);
    if h % TWO32 < 16 {
      assert SlotOk(slots[h % TWO32], log, h % TWO32);
    }
  }

  lemma LowestIsFree(slots: seq<Slot>, log: seq<Happening>)
    requires Inv(slots, log)
    ensures FreeIndex(slots, 0) == LowestClosed(log, 0)
    ensures FreeIndex(slots, 0) < 16 ==> slots[FreeIndex(slots, 0)].generation == 1 + Closings(log, FreeIndex(slots, 0)) % PERIOD
  {
    hide AcceptedBy, DeliveredBy, Openings, Closings, Outstanding, CountOccupied, InOrder;
    var i, j := FreeIndex(slots, 0), LowestClosed(log, 0);
    if i < 16 {
      assert SlotOk(slots[i], log, i);
    }
    if j < 16 {
      assert SlotOk(slots[j], log, j);
    }
  }

  /** The split of the messages accepted by an open endpoint into those delivered and those queued. */
  lemma QueueFromHistory(slots: seq<Slot>, log: seq<Happening>, i: nat)
    requires Inv(slots, log) && i < 16
    ensures var d, a := DeliveredBy(log, i), AcceptedBy(log, i);
            && |d| <= |a| && |slots[i].queue| == |a| - |d| <= 16
            && (slots[i].queue == [] <==> a == d)
            && (slots[i].queue != [] ==> slots[i].queue[0] == a[|d|])
  {
    hide AcceptedBy, DeliveredBy, Openings, Closings, Outstanding, CountOccupied, InOrder;
    assert SlotOk(slots[i], log, i);
  }

  lemma CreateReply(slots: seq<Slot>, log: seq<Happening>)
    requires Inv(slots, log)
    ensures |slots| == MAX_IPC_ENDPOINTS && Apply(slots, CreateCall).1 == HistoryReply(log, CreateCall)
  {
    hide Closings, Generation, Index, Pack, OnQueue, SlotOk, Inv, OpenHandle;
    InvLength(slots, log);
    LowestIsFree(slots, log);
    var i := FreeIndex(slots, 0);
    if i < 16 {
      PackIs(i, slots[i].generation);
    }
  }

  lemma ValidReply(slots: seq<Slot>, log: seq<Happening>, h: u64)
    requires Inv(slots, log)
    ensures |slots| == MAX_IPC_ENDPOINTS && Apply(slots, IsValidCall(h)).1 == HistoryReply(log, IsValidCall(h))
  {
    hide Generation, Index, OnQueue, SlotOk, Inv, OpenHandle;
    InvLength(slots, log);
    OpenMeansLive(slots, log, h);
  }

  /** Every reply of the manager is the one that the history of openings, closings, sends and receives demands. */
  lemma RepliesFromHistory(slots: seq<Slot>, log: seq<Happening>, c: Call)
    requires Inv(slots, log)
    ensures |slots| == MAX_IPC_ENDPOINTS && Apply(slots, c).1 == HistoryReply(log, c)
  {
    hide Outstanding, CountOccupied, InOrder, SlotOk, OnQueue, OpenHandle, Index, Matches;
    match c
    case CreateCall => CreateReply(slots, log);
    case IsValidCall(h) => ValidReply(slots, log, h);
    case CountCall =>
    case _ => QueueReplies(slots, log, c);
  }

  lemma QueueReplies(slots: seq<Slot>, log: seq<Happening>, c: Call)
    requires Inv(slots, log) && UsesQueue(c)
    ensures |slots| == MAX_IPC_ENDPOINTS && Apply(slots, c).1 == HistoryReply(log, c)
  {
    hide AcceptedBy, DeliveredBy, Openings, Closings, Outstanding, CountOccupied, InOrder, Generation, Index, NewMessage,
      OpenHandle, SlotOk, EmptyMessage, Inv;
    InvLength(slots, log);
    HandleAndQueue(slots, log, c.h);
  }

  lemma HandleAndQueue(slots: seq<Slot>, log: seq<Happening>, h: u64)
    requires Inv(slots, log)
    ensures NamesLive(slots, h) <==> OpenHandle(log, h)
    ensures Index(h) == h % TWO32
    ensures OpenHandle(log, h) ==>
              var i := h % TWO32;
              var d, a := DeliveredBy(log, i), AcceptedBy(log, i);
              && i < |slots|
              && |d| <= |a| && |slots[i].queue| == |a| - |d| <= 16
              && (slots[i].queue == [] <==> a == d)
              && (slots[i].queue != [] ==> slots[i].queue[0] == a[|d|])
  {
    hide Inv, NamesLive, Index;
    InvLength(slots, log);
    OpenMeansLive(slots, log, h);
    if OpenHandle(log, h) {
      QueueFromHistory(slots, log, h % TWO32);
    }
  }

  // ---- Runs ----

  /** The endpoint table and the log after a run of calls, one at a time. */
  ghost function Run(slots: seq<Slot>, log: seq<Happening>, calls: seq<Call>): (r: (seq<Slot>, seq<Happening>))
    requires Inv(slots, log)
    ensures Inv(r.0, r.1) && log <= r.1
    decreases |calls|
  {
    if calls == [] then (slots, log)
    else
      InvLength(slots, log);
      ApplyKeepsInv(slots, log, calls[0]);
      var (slots', r) := Apply(slots, calls[0]);
      Run(slots', log + Observed(calls[0], r), calls[1..])
  }

  ghost function EmptyTable(): seq<Slot> {
    seq(MAX_IPC_ENDPOINTS, _ => EMPTY_SLOT)
  }

  lemma EmptyInv()
    ensures Inv(EmptyTable(), [])
  {
    NoneOccupied(EmptyTable());
  }

  lemma {:induction false} NoneOccupied(slots: seq<Slot>)
    requires forall i :: 0 <= i < |slots| ==> !slots[i].occupied
    ensures CountOccupied(slots) == 0
  {
    if slots != [] {
      NoneOccupied(slots[..|slots| - 1]);
    }
  }

  /**
   Over every run of calls: each delivered message is the next one accepted in the same lifetime of its
   endpoint, an endpoint closes only when everything it accepted has been delivered, and at any time the
   messages accepted in the current lifetime are those delivered followed by those queued. Whatever is called
   next answers what the history demands.
   */
  lemma DeliveryGuarantee(calls: seq<Call>)
    ensures Inv(EmptyTable(), [])
    ensures var (slots, log) := Run(EmptyTable(), [], calls);
            && InOrder(log)
            && |slots| == MAX_IPC_ENDPOINTS
            && (forall c: Call :: Apply(slots, c).1 == HistoryReply(log, c))
            && (forall i: nat :: i < |slots| ==>
                  && AcceptedBy(log, i) == DeliveredBy(log, i) + slots[i].queue
                  && (!slots[i].occupied ==> AcceptedBy(log, i) == DeliveredBy(log, i)))
  {
    hide Run, AcceptedBy, DeliveredBy, InOrder, Closings, Openings, Outstanding, CountOccupied;
    EmptyInv();
    var (slots, log) := Run(EmptyTable(), [], calls);
    InvLength(slots, log);
    forall c: Call
      ensures Apply(slots, c).1 == HistoryReply(log, c)
    {
      RepliesFromHistory(slots, log, c);
    }
    forall i: nat | i < |slots|
      ensures AcceptedBy(log, i) == DeliveredBy(log, i) + slots[i].queue
      ensures !slots[i].occupied ==> AcceptedBy(log, i) == DeliveredBy(log, i)
    {
      assert SlotOk(slots[i], log, i);
      assert DeliveredBy(log, i) + [] == DeliveredBy(log, i);
    }
  }

  lemma {:induction false} ClosingsGrow(log: seq<Happening>, log': seq<Happening>, i: nat)
    requires log <= log'
    ensures Closings(log, i) <= Closings(log', i)
    decreases |log'|
  {
    if log != log' {
      assert log <= log'[..|log'| - 1];
      ClosingsGrow(log, log'[..|log'| - 1], i);
    }
  }

  /**
   An endpoint handle is valid in a later state exactly when its slot is occupied and has been closed a
   multiple of 2^32 - 1 times since the handle was issued.
   */
  lemma HandleValidity(slots: seq<Slot>, log: seq<Happening>, calls: seq<Call>)
    requires Inv(slots, log) && Apply(slots, CreateCall).1.handle.Some?
    ensures var (slots1, r) := Apply(slots, CreateCall);
            var h := r.handle.value;
            var i := Index(h);
            var log1 := log + [Opened(i)];
            && Inv(slots1, log1)
            && (var (slots2, log2) := Run(slots1, log1, calls);
                && |slots2| == MAX_IPC_ENDPOINTS && i < |slots2| && Closings(log1, i) <= Closings(log2, i)
                && (NamesLive(slots2, h) <==>
                      slots2[i].occupied && (Closings(log2, i) - Closings(log1, i)) % PERIOD == 0))
  {
    hide Run, AcceptedBy, DeliveredBy, InOrder, Closings, Openings, Outstanding, CountOccupied, Pack, Index, Generation, GenerationAfter;
    CreateKeepsInv(slots, log);
    var (slots1, r) := Apply(slots, CreateCall);
    var h := r.handle.value;
    var i := Index(h);
    var log1 := log + [Opened(i)];
    var (slots2, log2) := Run(slots1, log1, calls);
    ClosingsGrow(log1, log2, i);
    GenerationRecurs(Closings(log1, i), Closings(log2, i));
    assert SlotOk(slots1[i], log1, i) && SlotOk(slots2[i], log2, i);
  }
}
