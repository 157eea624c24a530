/**
 The IPC manager under concurrency: any number of threads, interleaved at the granularity of lock
 operations and critical-section statements, with two levels of spin locks.
 */
module IpcConcurrency {
  import opened Words
  import opened Handles
  import opened Ipc

  /** Where a thread is in its current call. */
  datatype Pc =
    | Idle
    | SpinManager(call: Call)
    | InManager(call: Call)
    | SpinQueue(call: Call)
    | InQueue(call: Call)
    | LeaveQueue(call: Call, reply: Reply)
    | ClearSlot(call: Call)
    | LeaveManager(call: Call, reply: Reply)
    | Returned(call: Call, reply: Reply)

  /** One finished call, in the order in which the manager lock was given up. */
  datatype Entry = Entry(thread: nat, call: Call, reply: Reply)

  /** The two lock levels, the table they protect, the threads, and the log of finished calls. */
  datatype State = State(
    manager: bool,
    queueLocks: seq<bool>,
    slots: seq<Slot>,
    pcs: map<nat, Pc>,
    log: seq<Entry>)

  predicate Shaped(s: State) {
    |s.queueLocks| == MAX_IPC_ENDPOINTS && |s.slots| == MAX_IPC_ENDPOINTS
  }

  /** A call that has passed the early checks and names a slot. */
  predicate Queued(c: Call) {
    UsesQueue(c) && !RefusedEarly(c)
  }

  function SlotOf(c: Call): (i: nat)
    requires Queued(c)
    ensures i < MAX_IPC_ENDPOINTS
  {
    Index(c.h)
  }

  /** The statements of a critical section under the manager lock alone. */
  function ManagerSection(slots: seq<Slot>, c: Call): (seq<Slot>, Pc)
    requires |slots| == MAX_IPC_ENDPOINTS && !RefusedEarly(c)
  {
    if UsesQueue(c) then
      if Matches(slots, c.h) then (slots, SpinQueue(c)) else (slots, LeaveManager(c, Refusal(c)))
    else
      var (slots', reply) := Apply(slots, c);
      (slots', LeaveManager(c, reply))
  }

  /** One atomic step of a thread; `call` is what an idle thread starts. A failed compare-and-swap changes nothing. */
  function Step(s: State, t: nat, call: Call): State
    requires Shaped(s) && t in s.pcs
  {
    match s.pcs[t]
    case Idle =>
      if RefusedEarly(call) then
        s.(pcs := s.pcs[t := Returned(call, Refusal(call))], log := s.log + [Entry(t, call, Refusal(call))])
      else s.(pcs := s.pcs[t := SpinManager(call)])
    case SpinManager(c) =>
      if s.manager then s else s.(manager := true, pcs := s.pcs[t := InManager(c)])
    case InManager(c) =>
      if RefusedEarly(c) then s
      else
        var (slots, pc) := ManagerSection(s.slots, c);
        s.(slots := slots, pcs := s.pcs[t := pc])
    case SpinQueue(c) =>
      if !Queued(c) || s.queueLocks[SlotOf(c)] then s
      else s.(queueLocks := s.queueLocks[SlotOf(c) := true], pcs := s.pcs[t := InQueue(c)])
    case InQueue(c) =>
      if !Queued(c) then s
      else
        var i := SlotOf(c);
        var (queue, reply) := OnQueue(s.slots[i].queue, c);
        s.(slots := s.slots[i := s.slots[i].(queue := queue)], pcs := s.pcs[t := LeaveQueue(c, reply)])
    case LeaveQueue(c, reply) =>
      if !Queued(c) then s
      else
        var pc := if c.DestroyCall? && reply == Verdict(true) then ClearSlot(c) else LeaveManager(c, reply);
        s.(queueLocks := s.queueLocks[SlotOf(c) := false], pcs := s.pcs[t := pc])
    case ClearSlot(c) =>
      if !Queued(c) then s
      else
        var i := SlotOf(c);
        s.(slots := s.slots[i := Cleared(s.slots[i])], pcs := s.pcs[t := LeaveManager(c, Verdict(true))])
    case LeaveManager(c, reply) =>
      s.(manager := false, pcs := s.pcs[t := Returned(c, reply)], log := s.log + [Entry(t, c, reply)])
    case Returned(_, _) => s.(pcs := s.pcs[t := Idle])
  }

  // ---- Who holds what ----

  predicate HoldsManager(pc: Pc) {
    pc.InManager? || pc.SpinQueue? || pc.InQueue? || pc.LeaveQueue? || pc.ClearSlot? || pc.LeaveManager?
  }

  predicate HoldsQueue(pc: Pc, i: nat) {
    (pc.InQueue? || pc.LeaveQueue?) && Queued(pc.call) && SlotOf(pc.call) == i
  }

  predicate Holder(s: State, t: nat) {
    t in s.pcs && HoldsManager(s.pcs[t])
  }

  /** A call in progress has passed its early checks. */
  predicate PcOk(pc: Pc) {
    match pc
    case Idle => true
    case Returned(_, _) => true
    case SpinManager(c) => !RefusedEarly(c)
    case InManager(c) => !RefusedEarly(c)
    case LeaveManager(c, _) => !RefusedEarly(c)
    case _ => Queued(pc.call)
  }

  /** At most one thread holds the manager lock, which is set exactly when someone does; likewise each queue lock. */
  ghost predicate LocksOk(s: State) {
    && Shaped(s)
    && (forall t :: t in s.pcs ==> PcOk(s.pcs[t]))
    && (forall t, u :: Holder(s, t) && Holder(s, u) ==> t == u)
    && (s.manager <==> exists t :: Holder(s, t))
    && (forall i: nat :: i < MAX_IPC_ENDPOINTS ==>
          (s.queueLocks[i] <==> exists t :: t in s.pcs && HoldsQueue(s.pcs[t], i)))
  }

  /** A queue-lock holder holds the manager lock. */
  lemma QueueHolderHoldsManager(pc: Pc, i: nat)
    requires HoldsQueue(pc, i)
    ensures HoldsManager(pc)
  {
  }

  // ---- The sequential run that the log describes ----

  /** The table after the logged calls, run one at a time. */
  function Replay(log: seq<Entry>): (slots: seq<Slot>)
    ensures |slots| == MAX_IPC_ENDPOINTS
  {
    if log == [] then seq(MAX_IPC_ENDPOINTS, _ => EMPTY_SLOT)
    else Apply(Replay(log[..|log| - 1]), log[|log| - 1].call).0
  }

  /** Every logged reply is the one the sequential run gives. */
  ghost predicate RepliesMatch(log: seq<Entry>) {
    forall k: nat :: k < |log| ==> log[k].reply == Apply(Replay(log[..k]), log[k].call).1
  }

  /** What the holder's position says about the table, against the table of the sequential run. */
  ghost predicate Explains(slots: seq<Slot>, pc: Pc, seqSlots: seq<Slot>)
    requires |slots| == |seqSlots| == MAX_IPC_ENDPOINTS && PcOk(pc)
  {
    match pc
    case InManager(_) => slots == seqSlots
    case SpinQueue(c) => slots == seqSlots && Matches(slots, c.h)
    case InQueue(c) => slots == seqSlots && Matches(slots, c.h)
    case LeaveQueue(c, reply) =>
      if c.DestroyCall? && reply == Verdict(true) then
        slots == seqSlots && Matches(slots, c.h) && slots[SlotOf(c)].queue == []
      else Apply(seqSlots, c) == (slots, reply)
    case ClearSlot(c) =>
      c.DestroyCall? && slots == seqSlots && Matches(slots, c.h) && slots[SlotOf(c)].queue == []
    case LeaveManager(c, reply) => Apply(seqSlots, c) == (slots, reply)
    case _ => true
  }

  ghost predicate Inv(s: State) {
    && LocksOk(s)
    && RepliesMatch(s.log)
    && (!s.manager ==> s.slots == Replay(s.log))
    && (forall t :: Holder(s, t) ==> Explains(s.slots, s.pcs[t], Replay(s.log)))
  }

  lemma LogGrows(log: seq<Entry>, e: Entry)
    requires RepliesMatch(log) && e.reply == Apply(Replay(log), e.call).1
    ensures RepliesMatch(log + [e])
    ensures Replay(log + [e]) == Apply(Replay(log), e.call).0
  {
    hide Apply;
    var log' := log + [e];
    assert log'[..|log|] == log;
    forall k: nat | k < |log'|
      ensures log'[k].reply == Apply(Replay(log'[..k]), log'[k].call).1
    {
      assert log'[..k] == if k < |log| then log[..k] else log;
    }
  }

  // ---- Locks ----

  /** A step that moves one thread between non-holding positions, or keeps what it holds. */
  lemma MoveKeepsLocks(s: State, s': State, t: nat)
    requires LocksOk(s) && t in s.pcs && s'.pcs.Keys == s.pcs.Keys && Shaped(s')
    requires s' == s.(slots := s'.slots, log := s'.log, pcs := s.pcs[t := s'.pcs[t]])
    requires PcOk(s'.pcs[t]) && HoldsManager(s'.pcs[t]) == HoldsManager(s.pcs[t])
    requires forall i: nat :: HoldsQueue(s'.pcs[t], i) == HoldsQueue(s.pcs[t], i)
    ensures LocksOk(s')
  {
    hide HoldsManager, HoldsQueue, PcOk, SlotOf;
    assert forall u :: Holder(s', u) <==> Holder(s, u);
    assert forall u, i: nat :: u in s.pcs ==> HoldsQueue(s'.pcs[u], i) == HoldsQueue(s.pcs[u], i);
    assert s.manager ==> exists u :: Holder(s', u) by {
      if s.manager {
        var u :| Holder(s, u);
        assert Holder(s', u);
      }
    }
    forall i: nat | i < MAX_IPC_ENDPOINTS
      ensures s'.queueLocks[i] <==> exists u :: u in s'.pcs && HoldsQueue(s'.pcs[u], i)
    {
      if s.queueLocks[i] {
        var u :| u in s.pcs && HoldsQueue(s.pcs[u], i);
        assert u in s'.pcs && HoldsQueue(s'.pcs[u], i);
      }
    }
  }

  lemma AcquireManager(s: State, t: nat)
    requires LocksOk(s) && t in s.pcs && s.pcs[t].SpinManager? && !s.manager
    ensures LocksOk(s.(manager := true, pcs := s.pcs[t := InManager(s.pcs[t].call)]))
  {
    hide SlotOf;
    var s' := s.(manager := true, pcs := s.pcs[t := InManager(s.pcs[t].call)]);
    assert forall u :: !Holder(s, u);
    assert Holder(s', t);
    forall u | Holder(s', u)
      ensures u == t
    {
      assert u != t ==> Holder(s, u);
    }
    QueueLocksUnchanged(s, s', t);
  }

  lemma ReleaseManager(s: State, t: nat, log: seq<Entry>)
    requires LocksOk(s) && t in s.pcs && s.pcs[t].LeaveManager?
    ensures LocksOk(s.(manager := false, pcs := s.pcs[t := Returned(s.pcs[t].call, s.pcs[t].reply)], log := log))
  {
    hide SlotOf;
    var s' := s.(manager := false, pcs := s.pcs[t := Returned(s.pcs[t].call, s.pcs[t].reply)], log := log);
    assert Holder(s, t);
    assert forall u :: !Holder(s', u) by {
      forall u ensures !Holder(s', u) {
        assert u != t ==> (Holder(s', u) <==> Holder(s, u));
      }
    }
    QueueLocksUnchanged(s, s', t);
  }

  /** A thread that holds no queue lock before or after leaves the queue locks explained. */
  lemma QueueLocksUnchanged(s: State, s': State, t: nat)
    requires LocksOk(s) && t in s.pcs && s'.queueLocks == s.queueLocks && t in s'.pcs && s'.pcs == s.pcs[t := s'.pcs[t]]
    requires forall i: nat :: !HoldsQueue(s.pcs[t], i) && !HoldsQueue(s'.pcs[t], i)
    ensures forall i: nat :: i < MAX_IPC_ENDPOINTS ==>
              (s'.queueLocks[i] <==> exists u :: u in s'.pcs && HoldsQueue(s'.pcs[u], i))
  {
    hide HoldsQueue;
    forall i: nat | i < MAX_IPC_ENDPOINTS
      ensures s'.queueLocks[i] <==> exists u :: u in s'.pcs && HoldsQueue(s'.pcs[u], i)
    {
      if s.queueLocks[i] {
        var u :| u in s.pcs && HoldsQueue(s.pcs[u], i);
        assert u in s'.pcs && HoldsQueue(s'.pcs[u], i);
      }
      if u :| u in s'.pcs && HoldsQueue(s'.pcs[u], i) {
        assert u in s.pcs && HoldsQueue(s.pcs[u], i);
      }
    }
  }

  /** Only the holder of the manager lock can hold a queue lock. */
  lemma OnlyHolderHoldsQueues(s: State, t: nat, u: nat, i: nat)
    requires LocksOk(s) && Holder(s, t) && u in s.pcs && HoldsQueue(s.pcs[u], i)
    ensures u == t
  {
    QueueHolderHoldsManager(s.pcs[u], i);
    assert Holder(s, u);
  }

  lemma AcquireQueue(s: State, t: nat)
    requires LocksOk(s) && t in s.pcs && s.pcs[t].SpinQueue? && !s.queueLocks[SlotOf(s.pcs[t].call)]
    ensures var c := s.pcs[t].call;
            LocksOk(s.(queueLocks := s.queueLocks[SlotOf(c) := true], pcs := s.pcs[t := InQueue(c)]))
  {
    var c := s.pcs[t].call;
    var i0 := SlotOf(c);
    var s' := s.(queueLocks := s.queueLocks[i0 := true], pcs := s.pcs[t := InQueue(c)]);
    assert Holder(s, t) && Holder(s', t);
    assert forall u :: Holder(s', u) <==> Holder(s, u);
    forall i: nat | i < MAX_IPC_ENDPOINTS
      ensures s'.queueLocks[i] <==> exists u :: u in s'.pcs && HoldsQueue(s'.pcs[u], i)
    {
      if i == i0 {
        assert HoldsQueue(s'.pcs[t], i);
      } else {
        assert forall u :: u in s.pcs && u != t ==> !HoldsQueue(s.pcs[u], i) by {
          forall u | u in s.pcs && u != t ensures !HoldsQueue(s.pcs[u], i) {
            if HoldsQueue(s.pcs[u], i) { OnlyHolderHoldsQueues(s, t, u, i); }
          }
        }
        assert !s.queueLocks[i];
      }
    }
  }

  lemma ReleaseQueue(s: State, t: nat, pc: Pc)
    requires LocksOk(s) && t in s.pcs && s.pcs[t].LeaveQueue? && PcOk(pc)
    requires pc.ClearSlot? || pc.LeaveManager?
    ensures LocksOk(s.(queueLocks := s.queueLocks[SlotOf(s.pcs[t].call) := false], pcs := s.pcs[t := pc]))
  {
    var c := s.pcs[t].call;
    var i0 := SlotOf(c);
    var s' := s.(queueLocks := s.queueLocks[i0 := false], pcs := s.pcs[t := pc]);
    assert Holder(s, t) && Holder(s', t);
    assert forall u :: Holder(s', u) <==> Holder(s, u);
    forall i: nat | i < MAX_IPC_ENDPOINTS
      ensures s'.queueLocks[i] <==> exists u :: u in s'.pcs && HoldsQueue(s'.pcs[u], i)
    {
      assert forall u :: u in s'.pcs ==> !HoldsQueue(s'.pcs[u], i) by {
        forall u | u in s'.pcs ensures !HoldsQueue(s'.pcs[u], i) {
          if u != t && HoldsQueue(s.pcs[u], i) { OnlyHolderHoldsQueues(s, t, u, i); }
        }
      }
      if i != i0 {
        assert forall u :: u in s.pcs ==> !HoldsQueue(s.pcs[u], i) by {
          forall u | u in s.pcs ensures !HoldsQueue(s.pcs[u], i) {
            if u != t && HoldsQueue(s.pcs[u], i) { OnlyHolderHoldsQueues(s, t, u, i); }
          }
        }
        assert !s.queueLocks[i];
      }
    }
  }

  // ---- Every step keeps the invariant ----

  /** Steps of a thread that holds nothing leave the explanation of the holder alone. */
  lemma OutsiderKeepsExplanation(s: State, s': State, t: nat)
    requires Inv(s) && t in s.pcs && !HoldsManager(s.pcs[t]) && t in s'.pcs && !HoldsManager(s'.pcs[t])
    requires s'.pcs == s.pcs[t := s'.pcs[t]] && s'.slots == s.slots && s'.manager == s.manager
    requires LocksOk(s') && RepliesMatch(s'.log) && Replay(s'.log) == Replay(s.log)
    ensures Inv(s')
  {
    hide LocksOk, RepliesMatch, Replay, Explains, HoldsManager, PcOk;
    LocksShape(s);
    LocksShape(s');
    forall u | Holder(s', u)
      ensures Explains(s'.slots, s'.pcs[u], Replay(s'.log))
    {
      assert u != t && Holder(s, u);
    }
  }

  lemma LocksShape(s: State)
    requires LocksOk(s)
    ensures Shaped(s) && forall t :: t in s.pcs ==> PcOk(s.pcs[t])
  {
  }

  /** Steps of the holder only have to explain the table for the holder's new position. */
  lemma HolderStep(s: State, s': State, t: nat)
    requires LocksOk(s') && Holder(s', t) && RepliesMatch(s'.log)
    requires Explains(s'.slots, s'.pcs[t], Replay(s'.log))
    ensures Inv(s')
  {
    hide RepliesMatch, Replay, Explains, HoldsManager, PcOk, HoldsQueue;
  }

  lemma IdleStep(s: State, t: nat, call: Call)
    requires Inv(s) && t in s.pcs && s.pcs[t].Idle?
    ensures Inv(Step(s, t, call))
  {
    hide LocksOk, RepliesMatch, Replay, Explains, RefusedEarly;
    LocksShape(s);
    var s' := Step(s, t, call);
    assert PcOk(s'.pcs[t]) && !HoldsManager(s'.pcs[t]);
    MoveKeepsLocks(s, s', t);
    if RefusedEarly(call) {
      LogGrows(s.log, Entry(t, call, Refusal(call)));
    }
    OutsiderKeepsExplanation(s, s', t);
  }

  lemma ReturnedStep(s: State, t: nat, call: Call)
    requires Inv(s) && t in s.pcs && s.pcs[t].Returned?
    ensures Inv(Step(s, t, call))
  {
    hide LocksOk, RepliesMatch, Replay, Explains, RefusedEarly;
    LocksShape(s);
    var s' := Step(s, t, call);
    MoveKeepsLocks(s, s', t);
    OutsiderKeepsExplanation(s, s', t);
  }

  lemma SpinManagerStep(s: State, t: nat, call: Call)
    requires Inv(s) && t in s.pcs && s.pcs[t].SpinManager?
    ensures Inv(Step(s, t, call))
  {
    hide LocksOk, RepliesMatch, Replay, RefusedEarly;
    LocksShape(s);
    if !s.manager {
      AcquireManager(s, t);
      HolderStep(s, Step(s, t, call), t);
    }
  }

  lemma InManagerStep(s: State, t: nat, call: Call)
    requires Inv(s) && t in s.pcs && s.pcs[t].InManager?
    ensures Inv(Step(s, t, call))
  {
    hide LocksOk, RepliesMatch, Replay, RefusedEarly, Matches;
    LocksShape(s);
    assert Holder(s, t);
    var s' := Step(s, t, call);
    MoveKeepsLocks(s, s', t);
    HolderStep(s, s', t);
  }

  lemma SpinQueueStep(s: State, t: nat, call: Call)
    requires Inv(s) && t in s.pcs && s.pcs[t].SpinQueue?
    ensures Inv(Step(s, t, call))
  {
    hide LocksOk, RepliesMatch, Replay, RefusedEarly, Matches;
    LocksShape(s);
    assert Holder(s, t);
    if !s.queueLocks[SlotOf(s.pcs[t].call)] {
      AcquireQueue(s, t);
      HolderStep(s, Step(s, t, call), t);
    }
  }

  lemma InQueueStep(s: State, t: nat, call: Call)
    requires Inv(s) && t in s.pcs && s.pcs[t].InQueue?
    ensures Inv(Step(s, t, call))
  {
    hide LocksOk, RepliesMatch, Replay, RefusedEarly, Matches, NewMessage;
    LocksShape(s);
    assert Holder(s, t);
    var s' := Step(s, t, call);
    MoveKeepsLocks(s, s', t);
    var c := s.pcs[t].call;
    var i := SlotOf(c);
    assert s.slots[i := s.slots[i]] == s.slots;
    HolderStep(s, s', t);
  }

  lemma LeaveQueueStep(s: State, t: nat, call: Call)
    requires Inv(s) && t in s.pcs && s.pcs[t].LeaveQueue?
    ensures Inv(Step(s, t, call))
  {
    hide LocksOk, RepliesMatch, Replay, RefusedEarly, Matches, Apply;
    LocksShape(s);
    assert Holder(s, t);
    var s' := Step(s, t, call);
    ReleaseQueue(s, t, s'.pcs[t]);
    HolderStep(s, s', t);
  }

  lemma ClearSlotStep(s: State, t: nat, call: Call)
    requires Inv(s) && t in s.pcs && s.pcs[t].ClearSlot?
    ensures Inv(Step(s, t, call))
  {
    hide LocksOk, RepliesMatch, Replay, RefusedEarly, Matches;
    LocksShape(s);
    assert Holder(s, t);
    var s' := Step(s, t, call);
    MoveKeepsLocks(s, s', t);
    HolderStep(s, s', t);
  }

  lemma LeaveManagerStep(s: State, t: nat, call: Call)
    requires Inv(s) && t in s.pcs && s.pcs[t].LeaveManager?
    ensures Inv(Step(s, t, call))
  {
    hide RepliesMatch, Replay, RefusedEarly, Apply, HoldsQueue;
    LocksShape(s);
    assert Holder(s, t);
    var s' := Step(s, t, call);
    var e := Entry(t, s.pcs[t].call, s.pcs[t].reply);
    LogGrows(s.log, e);
    ReleaseManager(s, t, s'.log);
    assert forall u :: !Holder(s', u);
  }

  lemma StepKeepsInv(s: State, t: nat, call: Call)
    requires Inv(s) && t in s.pcs
    ensures Shaped(s) && Inv(Step(s, t, call)) && Step(s, t, call).pcs.Keys == s.pcs.Keys
  {
    hide LocksOk, RepliesMatch, Replay, Explains, RefusedEarly, Matches, Apply, OnQueue;
    LocksShape(s);
    match s.pcs[t]
    case Idle => IdleStep(s, t, call);
    case SpinManager(_) => SpinManagerStep(s, t, call);
    case InManager(_) => InManagerStep(s, t, call);
    case SpinQueue(_) => SpinQueueStep(s, t, call);
    case InQueue(_) => InQueueStep(s, t, call);
    case LeaveQueue(_, _) => LeaveQueueStep(s, t, call);
    case ClearSlot(_) => ClearSlotStep(s, t, call);
    case LeaveManager(_, _) => LeaveManagerStep(s, t, call);
    case Returned(_, _) => ReturnedStep(s, t, call);
  }

  // ---- What callers see ----

  /** A thread's latest logged call. */
  function Latest(log: seq<Entry>, t: nat): Option<Entry> {
    if log == [] then None
    else if log[|log| - 1].thread == t then Some(log[|log| - 1])
    else Latest(log[..|log| - 1], t)
  }

  /** What a returning thread hands to its caller is the reply logged for the very call it made. */
  ghost predicate CallersSeeLog(s: State) {
    forall t :: t in s.pcs && s.pcs[t].Returned? ==> Latest(s.log, t) == Some(Entry(t, s.pcs[t].call, s.pcs[t].reply))
  }

  /** The calls that the log records for a thread, in order. */
  function LoggedBy(log: seq<Entry>, t: nat): seq<Call> {
    if log == [] then []
    else LoggedBy(log[..|log| - 1], t) + if log[|log| - 1].thread == t then [log[|log| - 1].call] else []
  }

  /** The call that a thread has begun and that is not logged yet. */
  function InProgress(pc: Pc): seq<Call> {
    if pc.Idle? || pc.Returned? then [] else [pc.call]
  }

  /** The call that a step begins. */
  function Begins(s: State, t: nat, call: Call): seq<Call>
    requires t in s.pcs
  {
    if s.pcs[t].Idle? then [call] else []
  }

  function CallsOf(s: State, t: nat): seq<Call>
    requires t in s.pcs
  {
    LoggedBy(s.log, t) + InProgress(s.pcs[t])
  }

  lemma LogAfter(log: seq<Entry>, e: Entry, t: nat)
    ensures Latest(log + [e], t) == if e.thread == t then Some(e) else Latest(log, t)
    ensures LoggedBy(log + [e], t) == LoggedBy(log, t) + if e.thread == t then [e.call] else []
  {
    assert (log + [e])[..|log|] == log;
  }

  /** A step moves one thread. It either logs the thread's call as it returns, or leaves the log alone. */
  lemma StepShape(s: State, t: nat, call: Call)
    requires Shaped(s) && t in s.pcs
    ensures var s' := Step(s, t, call);
            && t in s'.pcs && s'.pcs == s.pcs[t := s'.pcs[t]]
            && (var calls := InProgress(s.pcs[t]) + Begins(s, t, call);
                if s'.pcs[t].Returned? then
                  s'.log == s.log + [Entry(t, s'.pcs[t].call, s'.pcs[t].reply)] && calls == [s'.pcs[t].call]
                else s'.log == s.log && calls == InProgress(s'.pcs[t]))
  {
    hide RefusedEarly, Matches, Apply, OnQueue, Refusal, Queued, SlotOf;
  }

  lemma StepKeepsCallers(s: State, t: nat, call: Call)
    requires Shaped(s) && t in s.pcs && CallersSeeLog(s)
    ensures CallersSeeLog(Step(s, t, call))
  {
    hide Step, Latest, LoggedBy, InProgress, Begins;
    var s' := Step(s, t, call);
    StepShape(s, t, call);
    forall u | u in s'.pcs && s'.pcs[u].Returned?
      ensures Latest(s'.log, u) == Some(Entry(u, s'.pcs[u].call, s'.pcs[u].reply))
    {
      if s'.pcs[t].Returned? {
        LogAfter(s.log, s'.log[|s.log|], u);
      }
    }
  }

  /** A step adds to a thread's calls exactly the call it begins; the log only grows. */
  lemma StepKeepsCalls(s: State, t: nat, call: Call, u: nat)
    requires Shaped(s) && t in s.pcs && u in s.pcs
    ensures var s' := Step(s, t, call);
            && s.log <= s'.log && u in s'.pcs
            && CallsOf(s', u) == CallsOf(s, u) + if u == t then Begins(s, t, call) else []
  {
    hide Step, Latest, LoggedBy, Begins;
    var s' := Step(s, t, call);
    StepShape(s, t, call);
    if s'.pcs[t].Returned? {
      LogAfter(s.log, s'.log[|s.log|], u);
    }
  }

  // ---- Progress ----

  /** How many of its own steps the holder of the manager lock still needs to give it up. */
  function Rank(pc: Pc): nat {
    match pc
    case InManager(_) => 6
    case SpinQueue(_) => 5
    case InQueue(_) => 4
    case LeaveQueue(_, _) => 3
    case ClearSlot(_) => 2
    case LeaveManager(_, _) => 1
    case _ => 0
  }

  /** The holder never waits: each of its steps brings it closer to releasing the manager lock. */
  lemma HolderAdvances(s: State, t: nat, call: Call)
    requires Inv(s) && Holder(s, t)
    ensures Shaped(s) && t in Step(s, t, call).pcs
    ensures Rank(Step(s, t, call).pcs[t]) < Rank(s.pcs[t]) <= 6
  {
    hide RepliesMatch, Replay, Explains, RefusedEarly, Matches, Apply, OnQueue;
    if s.pcs[t].SpinQueue? {
      var i := SlotOf(s.pcs[t].call);
      if s.queueLocks[i] {
        var u :| u in s.pcs && HoldsQueue(s.pcs[u], i);
        OnlyHolderHoldsQueues(s, t, u, i);
      }
    }
  }

  /** No reachable state is a deadlock: if any call is in progress, some thread's next step changes the state. */
  lemma NoDeadlock(s: State, t: nat, call: Call) returns (u: nat)
    requires Inv(s) && t in s.pcs && !s.pcs[t].Idle?
    ensures u in s.pcs && !s.pcs[u].Idle? && Shaped(s) && Step(s, u, call) != s
  {
    hide RepliesMatch, Replay, Explains, RefusedEarly, Matches, Apply, OnQueue;
    if s.manager {
      u :| Holder(s, u);
      HolderAdvances(s, u, call);
    } else {
      u := t;
      assert !Holder(s, t);
      assert s.pcs[t].SpinManager? || s.pcs[t].Returned?;
      assert Step(s, u, call).pcs[u] != s.pcs[u];
    }
  }

  // ---- Runs ----

  /** A schedule: which thread steps next, and what it calls if it is idle. */
  datatype Choice = Choice(thread: nat, call: Call)

  ghost function Run(s: State, schedule: seq<Choice>): (s': State)
    requires Inv(s) && CallersSeeLog(s) && forall k :: 0 <= k < |schedule| ==> schedule[k].thread in s.pcs
    ensures Inv(s') && CallersSeeLog(s') && s'.pcs.Keys == s.pcs.Keys && s.log <= s'.log
    decreases |schedule|
  {
    if schedule == [] then s
    else
      StepKeepsInv(s, schedule[0].thread, schedule[0].call);
      StepKeepsCallers(s, schedule[0].thread, schedule[0].call);
      StepKeepsCalls(s, schedule[0].thread, schedule[0].call, schedule[0].thread);
      assert forall k :: 0 <= k < |schedule[1..]| ==> schedule[1..][k] == schedule[k + 1];
      Run(Step(s, schedule[0].thread, schedule[0].call), schedule[1..])
  }

  /** The calls that a thread begins over a schedule, in order. */
  ghost function Begun(s: State, schedule: seq<Choice>, t: nat): seq<Call>
    requires Inv(s) && CallersSeeLog(s) && forall k :: 0 <= k < |schedule| ==> schedule[k].thread in s.pcs
    decreases |schedule|
  {
    if schedule == [] then []
    else
      var c := schedule[0];
      StepKeepsInv(s, c.thread, c.call);
      StepKeepsCallers(s, c.thread, c.call);
      assert forall k :: 0 <= k < |schedule[1..]| ==> schedule[1..][k] == schedule[k + 1];
      (if c.thread == t then Begins(s, t, c.call) else []) + Begun(Step(s, c.thread, c.call), schedule[1..], t)
  }

  /** Every thread's logged calls, and the one in progress, are exactly the calls it has begun, in order. */
  lemma {:induction false} RunKeepsCalls(s: State, schedule: seq<Choice>, t: nat)
    requires Inv(s) && CallersSeeLog(s) && t in s.pcs && forall k :: 0 <= k < |schedule| ==> schedule[k].thread in s.pcs
    ensures CallsOf(Run(s, schedule), t) == CallsOf(s, t) + Begun(s, schedule, t)
    decreases |schedule|
  {
    hide Inv, CallersSeeLog, Step, CallsOf, Shaped, Begins;
    if schedule != [] {
      var c := schedule[0];
      StepKeepsInv(s, c.thread, c.call);
      StepKeepsCallers(s, c.thread, c.call);
      StepKeepsCalls(s, c.thread, c.call, t);
      assert forall k :: 0 <= k < |schedule[1..]| ==> schedule[1..][k] == schedule[k + 1];
      RunKeepsCalls(Step(s, c.thread, c.call), schedule[1..], t);
    }
  }

  ghost function Start(threads: set<nat>): State {
    State(false, seq(MAX_IPC_ENDPOINTS, _ => false), seq(MAX_IPC_ENDPOINTS, _ => EMPTY_SLOT),
          map t | t in threads :: Idle, [])
  }

  lemma StartInv(threads: set<nat>)
    ensures Inv(Start(threads)) && CallersSeeLog(Start(threads)) && Start(threads).pcs.Keys == threads
  {
    assert forall t :: !Holder(Start(threads), t);
  }

  /** What the log of a sequential run says has happened. */
  function Happenings(log: seq<Entry>): seq<Happening> {
    if log == [] then []
    else
      var e := log[|log| - 1];
      Happenings(log[..|log| - 1]) + Observed(e.call, e.reply)
  }

  lemma {:induction false} ReplayKeepsInv(log: seq<Entry>)
    requires RepliesMatch(log)
    ensures Ipc.Inv(Replay(log), Happenings(log))
  {
    hide Apply, Observed, Ipc.Inv;
    if log == [] {
      EmptyInv();
      assert Replay(log) == EmptyTable();
    } else {
      var n := |log| - 1;
      var before := log[..n];
      assert forall k: nat :: k < n ==> before[..k] == log[..k] && before[k] == log[k];
      ReplayKeepsInv(before);
      ApplyKeepsInv(Replay(before), Happenings(before), log[n].call);
    }
  }

  /** Every logged reply is the one that the happenings before it demand. */
  ghost predicate HistoryMatches(log: seq<Entry>) {
    forall k: nat :: k < |log| ==> log[k].reply == HistoryReply(Happenings(log[..k]), log[k].call)
  }

  lemma RepliesAreHistoric(log: seq<Entry>)
    requires RepliesMatch(log)
    ensures HistoryMatches(log)
  {
    hide Apply, Ipc.Inv, Replay, Happenings, HistoryReply;
    forall k: nat | k < |log|
      ensures log[k].reply == HistoryReply(Happenings(log[..k]), log[k].call)
    {
      assert RepliesMatch(log[..k]) by {
        assert forall j: nat :: j < k ==> log[..k][..j] == log[..j] && log[..k][j] == log[j];
      }
      ReplayKeepsInv(log[..k]);
      RepliesFromHistory(Replay(log[..k]), Happenings(log[..k]), log[k].call);
    }
  }

  /**
   For any set of threads and any schedule: at most one thread holds the manager lock, a queue-lock holder
   holds it too, each thread's logged calls and the one in progress are exactly those it began, in order, every
   reply is the one the sequential run of the logged calls gives, the one the history before it demands and the
   one the caller gets, the table is the one that run leaves whenever the manager lock is free, and deliveries
   are in order.
   */
  lemma EveryInterleavingIsSequential(threads: set<nat>, schedule: seq<Choice>)
    requires forall k :: 0 <= k < |schedule| ==> schedule[k].thread in threads
    ensures Inv(Start(threads)) && CallersSeeLog(Start(threads))
    ensures forall k :: 0 <= k < |schedule| ==> schedule[k].thread in Start(threads).pcs
    ensures var s := Run(Start(threads), schedule);
            && (forall t, u :: Holder(s, t) && Holder(s, u) ==> t == u)
            && (forall t, i: nat :: t in s.pcs && HoldsQueue(s.pcs[t], i) ==> Holder(s, t))
            && (s.manager <==> exists t :: Holder(s, t))
            && (forall t :: t in threads ==>
                  t in s.pcs && LoggedBy(s.log, t) + InProgress(s.pcs[t]) == Begun(Start(threads), schedule, t))
            && RepliesMatch(s.log) && HistoryMatches(s.log) && CallersSeeLog(s)
            && (!s.manager ==> s.slots == Replay(s.log))
            && InOrder(Happenings(s.log))
  {
    hide Inv, Run, Begun, Replay, RepliesMatch, Happenings, InOrder, Start, CallersSeeLog, Holder, HoldsQueue, LoggedBy, InProgress,
      HistoryMatches;
    StartInv(threads);
    var s := Run(Start(threads), schedule);
    InvMeans(s);
    forall t | t in threads
      ensures t in s.pcs && LoggedBy(s.log, t) + InProgress(s.pcs[t]) == Begun(Start(threads), schedule, t)
    {
      RunKeepsCalls(Start(threads), schedule, t);
      StartCalls(threads, t);
    }
    RepliesAreHistoric(s.log);
    ReplayKeepsInv(s.log);
    assert InOrder(Happenings(s.log)) by { InvInOrder(Replay(s.log), Happenings(s.log)); }
  }

  lemma StartCalls(threads: set<nat>, t: nat)
    requires t in threads
    ensures t in Start(threads).pcs && CallsOf(Start(threads), t) == []
  {
  }

  lemma InvInOrder(slots: seq<Slot>, happenings: seq<Happening>)
    requires Ipc.Inv(slots, happenings)
    ensures InOrder(happenings)
  {
  }

  lemma InvMeans(s: State)
    requires Inv(s)
    ensures forall t, u :: Holder(s, t) && Holder(s, u) ==> t == u
    ensures forall t, i: nat :: t in s.pcs && HoldsQueue(s.pcs[t], i) ==> Holder(s, t)
    ensures s.manager <==> exists t :: Holder(s, t)
    ensures RepliesMatch(s.log) && (!s.manager ==> s.slots == Replay(s.log))
  {
    hide RepliesMatch, Replay, Explains, PcOk;
  }
}
