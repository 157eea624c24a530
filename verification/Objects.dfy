/**
 The kernel object table: reference counts and generation handles over arbitrary histories of calls.
 */
module Objects {
  import opened Words
  import opened Handles

  const MAX_KERNEL_OBJECTS: nat := 64

  datatype ObjectType = Process | Thread | AddressSpace | IpcEndpoint | File | Device | Event

  datatype Record = Record(kind: ObjectType, references: u32)

  datatype Slot = Slot(occupied: bool, generation: u32, record: Option<Record>)

  const EMPTY_SLOT: Slot := Slot(false, 1, None)

  function Cleared(slot: Slot): Slot {
    Slot(false, NextGeneration(slot.generation), None)
  }

  // ---- The operations ----

  function FreeIndex(slots: seq<Slot>, from: nat): (i: nat)
    requires from <= |slots|
    ensures from <= i <= |slots|
    ensures i < |slots| ==> !slots[i].occupied
    ensures forall j :: from <= j < i ==> slots[j].occupied
    decreases |slots| - from
  {
    if from == |slots| || !slots[from].occupied then from else FreeIndex(slots, from + 1)
  }

  /** The slot a handle refers to, if it refers to a live object. */
  function Target(slots: seq<Slot>, h: u64): (r: Option<nat>)
    ensures r.Some? ==> r.value < |slots| && slots[r.value].occupied
  {
    var i := Index(h);
    if h == INVALID || i >= |slots| then None
    else if !slots[i].occupied || slots[i].generation != Generation(h) then None
    else Some(i)
  }

  function CreateSpec(slots: seq<Slot>, kind: ObjectType): (seq<Slot>, Option<u64>)
    requires |slots| == MAX_KERNEL_OBJECTS
  {
    var i := FreeIndex(slots, 0);
    if i == |slots| then (slots, None)
    else (slots[i := Slot(true, slots[i].generation, Some(Record(kind, 1)))], Some(Pack(i, slots[i].generation)))
  }

  function GetTypeSpec(slots: seq<Slot>, h: u64): Option<ObjectType> {
    match Target(slots, h)
    case None => None
    case Some(i) => if slots[i].record.Some? then Some(slots[i].record.value.kind) else None
  }

  function RetainSpec(slots: seq<Slot>, h: u64): (seq<Slot>, bool) {
    match Target(slots, h)
    case None => (slots, false)
    case Some(i) =>
      match slots[i].record
      case None => (slots, false)
      case Some(r) =>
        if r.references == TWO32 - 1 then (slots, false)
        else (slots[i := slots[i].(record := Some(r.(references := r.references + 1)))], true)
  }

  function ReleaseSpec(slots: seq<Slot>, h: u64): (seq<Slot>, bool) {
    match Target(slots, h)
    case None => (slots, false)
    case Some(i) =>
      match slots[i].record
      case None => (slots, true)
      case Some(r) =>
        if r.references == 0 then (slots, false)
        else
          var slot := slots[i].(record := Some(r.(references := r.references - 1)));
          (slots[i := if r.references == 1 then Cleared(slot) else slot], true)
  }

  function DestroySpec(slots: seq<Slot>, h: u64): (seq<Slot>, bool) {
    match Target(slots, h)
    case None => (slots, false)
    case Some(i) => (slots[i := Cleared(slots[i])], true)
  }

  function CountSpec(slots: seq<Slot>): nat {
    if slots == [] then 0
    else CountSpec(slots[..|slots| - 1]) + if slots[|slots| - 1].occupied then 1 else 0
  }

  // ---- Histories ----

  datatype Op = CreateOp(kind: ObjectType) | RetainOp(h: u64) | ReleaseOp(h: u64) | DestroyOp(h: u64)

  /** What happened to a slot. */
  datatype Happening = Creation(index: nat, kind: ObjectType) | Retention(index: nat) | Releasing(index: nat) | Clearing(index: nat)

  function Step(slots: seq<Slot>, op: Op): (seq<Slot>, seq<Happening>)
    requires |slots| == MAX_KERNEL_OBJECTS
  {
    match op
    case CreateOp(kind) =>
      var (slots', r) := CreateSpec(slots, kind);
      (slots', if r.Some? then [Creation(Index(r.value), kind)] else [])
    case RetainOp(h) =>
      var (slots', ok) := RetainSpec(slots, h);
      (slots', if ok then [Retention(Index(h))] else [])
    case ReleaseOp(h) =>
      var (slots', ok) := ReleaseSpec(slots, h);
      var gone := ok && !slots'[Index(h)].occupied;
      (slots', if gone then [Releasing(Index(h)), Clearing(Index(h))] else if ok then [Releasing(Index(h))] else [])
    case DestroyOp(h) =>
      var (slots', ok) := DestroySpec(slots, h);
      (slots', if ok then [Clearing(Index(h))] else [])
  }

  /** How often a slot has been cleared. */
  function Clears(log: seq<Happening>, i: nat): nat {
    if log == [] then 0
    else Clears(log[..|log| - 1], i) + if log[|log| - 1] == Clearing(i) then 1 else 0
  }

  /** How often a slot has been given to a new object. */
  function Creations(log: seq<Happening>, i: nat): nat {
    if log == [] then 0
    else
      var e := log[|log| - 1];
      Creations(log[..|log| - 1], i) + if e.Creation? && e.index == i then 1 else 0
  }

  /** One plus the retains minus the releases since the slot's object was created. */
  function Balance(log: seq<Happening>, i: nat): int {
    if log == [] then 0
    else
      var before := Balance(log[..|log| - 1], i);
      match log[|log| - 1]
      case Creation(j, _) => if j == i then 1 else before
      case Retention(j) => if j == i then before + 1 else before
      case Releasing(j) => if j == i then before - 1 else before
      case Clearing(_) => before
  }

  /** The type that the slot's latest object was created with. */
  function LatestKind(log: seq<Happening>, i: nat): Option<ObjectType> {
    if log == [] then None
    else
      var e := log[|log| - 1];
      if e.Creation? && e.index == i then Some(e.kind) else LatestKind(log[..|log| - 1], i)
  }

  /** Objects created minus slots cleared. */
  function Outstanding(log: seq<Happening>): int {
    if log == [] then 0
    else
      var before := Outstanding(log[..|log| - 1]);
      match log[|log| - 1]
      case Creation(_, _) => before + 1
      case Clearing(_) => before - 1
      case _ => before
  }

  predicate SlotOk(slot: Slot, log: seq<Happening>, i: nat) {
    && slot.generation == GenerationAfter(Clears(log, i))
    && (slot.occupied <==> slot.record.Some?)
    && Creations(log, i) == Clears(log, i) + (if slot.occupied then 1 else 0)
    && (slot.occupied ==> slot.record.value.references == Balance(log, i) && slot.record.value.references >= 1)
    && (slot.occupied ==> LatestKind(log, i) == Some(slot.record.value.kind))
  }

  /** The table agrees with its history. */
  ghost predicate Inv(slots: seq<Slot>, log: seq<Happening>) {
    && |slots| == MAX_KERNEL_OBJECTS
    && (forall i: nat :: i < |slots| ==> SlotOk(slots[i], log, i))
    && CountSpec(slots) == Outstanding(log)
  }

  lemma LogStep(log: seq<Happening>, e: Happening, i: nat)
    ensures Clears(log + [e], i) == Clears(log, i) + if e == Clearing(i) then 1 else 0
    ensures Balance(log + [e], i) ==
            (if e.Creation? && e.index == i then 1
             else Balance(log, i) + (if e == Retention(i) then 1 else if e == Releasing(i) then -1 else 0))
    ensures Creations(log + [e], i) == Creations(log, i) + if e.Creation? && e.index == i then 1 else 0
    ensures LatestKind(log + [e], i) == if e.Creation? && e.index == i then Some(e.kind) else LatestKind(log, i)
    ensures Outstanding(log + [e]) == Outstanding(log) + (if e.Creation? then 1 else if e.Clearing? then -1 else 0)
  {
    assert (log + [e])[..|log|] == log;
  }

  lemma {:induction false} CountAfterUpdate(slots: seq<Slot>, i: nat, slot: Slot)
    requires i < |slots|
    ensures CountSpec(slots[i := slot]) ==
            CountSpec(slots) - (if slots[i].occupied then 1 else 0) + (if slot.occupied then 1 else 0)
  {
    var n := |slots| - 1;
    if i < n {
      CountAfterUpdate(slots[..n], i, slot);
      assert slots[i := slot][..n] == slots[..n][i := slot];
    } else {
      assert slots[i := slot][..n] == slots[..n];
    }
  }

  /** One happening at one slot: the table agrees again if that slot and the count do. */
  lemma HappeningKeepsInv(slots: seq<Slot>, slots': seq<Slot>, log: seq<Happening>, e: Happening)
    requires |slots| == |slots'| == MAX_KERNEL_OBJECTS && e.index < |slots|
    requires forall j: nat :: j < |slots| && j != e.index ==> slots'[j] == slots[j] && SlotOk(slots[j], log, j)
    ensures forall j: nat :: j < |slots| && j != e.index ==> SlotOk(slots'[j], log + [e], j)
  {
    forall j: nat | j < |slots| && j != e.index
      ensures SlotOk(slots'[j], log + [e], j)
    {
      LogStep(log, e, j);
    }
  }

  lemma CreateKeepsInv(slots: seq<Slot>, log: seq<Happening>, kind: ObjectType)
    requires Inv(slots, log)
    ensures var (slots', r) := CreateSpec(slots, kind);
            && (r.None? ==> slots' == slots && CountSpec(slots) == MAX_KERNEL_OBJECTS)
            && (r.Some? ==>
                  && r.value != INVALID
                  && Index(r.value) < |slots| && !slots[Index(r.value)].occupied
                  && Target(slots', r.value) == Some(Index(r.value))
                  && Inv(slots', log + [Creation(Index(r.value), kind)]))
  {
    hide Clears, Creations, Balance, LatestKind, Outstanding, CountSpec, Pack, Index, Generation;
    var i := FreeIndex(slots, 0);
    if i < |slots| {
      var g := slots[i].generation;
      UnpackPack(i, g);
      IssuedIsNotInvalid(i, g);
      var e := Creation(i, kind);
      var slots' := slots[i := Slot(true, g, Some(Record(kind, 1)))];
      HappeningKeepsInv(slots, slots', log, e);
      LogStep(log, e, i);
      CountAfterUpdate(slots, i, slots'[i]);
    } else {
      AllOccupied(slots);
    }
  }

  lemma {:induction false} AllOccupied(slots: seq<Slot>)
    requires forall i :: 0 <= i < |slots| ==> slots[i].occupied
    ensures CountSpec(slots) == |slots|
  {
    if slots != [] {
      AllOccupied(slots[..|slots| - 1]);
    }
  }

  lemma RetainKeepsInv(slots: seq<Slot>, log: seq<Happening>, h: u64)
    requires Inv(slots, log)
    ensures var (slots', ok) := RetainSpec(slots, h);
            && (ok <==> Target(slots, h).Some? && Balance(log, Index(h)) < TWO32 - 1)
            && (!ok ==> slots' == slots)
            && (ok ==> Inv(slots', log + [Retention(Index(h))]))
  {
    hide Clears, Creations, Balance, LatestKind, Outstanding, CountSpec, Pack, Index, Generation;
    var (slots', ok) := RetainSpec(slots, h);
    if ok {
      var e := Retention(Index(h));
      HappeningKeepsInv(slots, slots', log, e);
      LogStep(log, e, e.index);
      CountAfterUpdate(slots, e.index, slots'[e.index]);
    }
  }

  lemma ClearKeepsInv(slots: seq<Slot>, log: seq<Happening>, i: nat)
    requires |slots| == MAX_KERNEL_OBJECTS && i < |slots| && slots[i].occupied
    requires forall j: nat :: j < |slots| && j != i ==> SlotOk(slots[j], log, j)
    requires slots[i].generation == GenerationAfter(Clears(log, i)) && CountSpec(slots) == Outstanding(log)
    requires Creations(log, i) == Clears(log, i) + 1
    ensures Inv(slots[i := Cleared(slots[i])], log + [Clearing(i)])
  {
    hide Clears, Creations, Balance, LatestKind, Outstanding, CountSpec, GenerationAfter, NextGeneration;
    var e := Clearing(i);
    var slots' := slots[i := Cleared(slots[i])];
    HappeningKeepsInv(slots, slots', log, e);
    LogStep(log, e, i);
    GenerationStep(Clears(log, i));
    CountAfterUpdate(slots, i, slots'[i]);
  }

  /** A release that leaves references keeps the slot; the one that reaches zero clears it. */
  lemma ReleaseKeepsInv(slots: seq<Slot>, log: seq<Happening>, h: u64)
    requires Inv(slots, log)
    ensures var (slots', ok) := ReleaseSpec(slots, h);
            var i := Index(h);
            && (!ok ==> slots' == slots && Target(slots, h).None?)
            && (ok ==>
                  && Target(slots, h) == Some(i)
                  && (Balance(log, i) == 1 ==>
                        !slots'[i].occupied && Inv(slots', log + [Releasing(i)] + [Clearing(i)]))
                  && (Balance(log, i) != 1 ==>
                        slots'[i].occupied && Inv(slots', log + [Releasing(i)])))
  {
    hide Clears, Creations, Balance, LatestKind, Outstanding, CountSpec, Pack, Index, Generation;
    var (slots', ok) := ReleaseSpec(slots, h);
    if ok {
      var i := Index(h);
      var e := Releasing(i);
      var r := slots[i].record.value;
      var mid := slots[i := slots[i].(record := Some(r.(references := r.references - 1)))];
      HappeningKeepsInv(slots, mid, log, e);
      LogStep(log, e, i);
      CountAfterUpdate(slots, i, mid[i]);
      if r.references == 1 {
        ClearKeepsInv(mid, log + [e], i);
        assert slots' == mid[i := Cleared(mid[i])];
      } else {
        assert slots' == mid;
      }
    }
  }

  lemma DestroyKeepsInv(slots: seq<Slot>, log: seq<Happening>, h: u64)
    requires Inv(slots, log)
    ensures var (slots', ok) := DestroySpec(slots, h);
            && (ok <==> Target(slots, h).Some?)
            && (!ok ==> slots' == slots)
            && (ok ==> !slots'[Index(h)].occupied && Inv(slots', log + [Clearing(Index(h))]))
  {
    hide Clears, Creations, Balance, LatestKind, Outstanding, CountSpec, Pack, Index, Generation;
    if Target(slots, h).Some? {
      ClearKeepsInv(slots, log, Target(slots, h).value);
    }
  }

  lemma StepKeepsInv(slots: seq<Slot>, log: seq<Happening>, op: Op)
    requires Inv(slots, log)
    ensures var (slots', es) := Step(slots, op);
            Inv(slots', log + es)
  {
    hide Inv, CreateSpec, RetainSpec, ReleaseSpec, DestroySpec, Index, Balance, Target, Pack;
    assert log + [] == log;
    InvLength(slots, log);
    match op
    case CreateOp(kind) =>
      CreateKeepsInv(slots, log, kind);
      var r := CreateSpec(slots, kind).1;
      assert log + Step(slots, op).1 == if r.Some? then log + [Creation(Index(r.value), kind)] else log;
    case RetainOp(h) => RetainKeepsInv(slots, log, h);
    case ReleaseOp(h) =>
      ReleaseKeepsInv(slots, log, h);
      assert log + [Releasing(Index(h))] + [Clearing(Index(h))] == log + [Releasing(Index(h)), Clearing(Index(h))];
    case DestroyOp(h) => DestroyKeepsInv(slots, log, h);
  }

  // ---- Answers from the history alone ----

  /** The handle names an object that is alive, in its slot's present generation. */
  ghost predicate LiveHandle(log: seq<Happening>, h: u64) {
    var i := h % TWO32;
    && i < 64
    && Creations(log, i) == Clears(log, i) + 1
    && h / TWO32 == 1 + Clears(log, i) % PERIOD
  }

  /** The first slot at or after `from` that holds no object. */
  ghost function LowestVacant(log: seq<Happening>, from: nat): (i: nat)
    requires from <= 64
    ensures from <= i <= 64
    ensures i < 64 ==> Creations(log, i) == Clears(log, i)
    ensures forall j: nat :: from <= j < i ==> Creations(log, j) != Clears(log, j)
    decreases 64 - from
  {
    if from == 64 || Creations(log, from) == Clears(log, from) then from else LowestVacant(log, from + 1)
  }

  lemma LiveMeansTarget(slots: seq<Slot>, log: seq<Happening>, h: u64)
    requires Inv(slots, log)
    ensures Target(slots, h) == if LiveHandle(log, h) then Some(h % TWO32) else None
  {
    hide Clears, Creations, Balance, LatestKind, Outstanding, CountSpec, Generation;
    GenerationIs(h);
    if h % TWO32 < 64 {
      assert SlotOk(slots[h % TWO32], log, h % TWO32);
    }
  }

  lemma LowestIsVacant(slots: seq<Slot>, log: seq<Happening>)
    requires Inv(slots, log)
    ensures FreeIndex(slots, 0) == LowestVacant(log, 0)
    ensures FreeIndex(slots, 0) < 64 ==> slots[FreeIndex(slots, 0)].generation == 1 + Clears(log, FreeIndex(slots, 0)) % PERIOD
  {
    hide Clears, Creations, Balance, LatestKind, Outstanding, CountSpec;
    var i, j := FreeIndex(slots, 0), LowestVacant(log, 0);
    if i < 64 {
      assert SlotOk(slots[i], log, i);
    }
    if j < 64 {
      assert SlotOk(slots[j], log, j);
    }
  }

  /** Every answer of the table is the one that the history of creations, retains, releases and clears demands. */
  lemma AnswersFromHistory(slots: seq<Slot>, log: seq<Happening>, kind: ObjectType, h: u64)
    requires Inv(slots, log)
    ensures |slots| == MAX_KERNEL_OBJECTS
    ensures CreateSpec(slots, kind).1 ==
            (var i := LowestVacant(log, 0);
             if i == 64 then None else Some((1 + Clears(log, i) % PERIOD) * TWO32 + i))
    ensures Target(slots, h).Some? <==> LiveHandle(log, h)
    ensures GetTypeSpec(slots, h) == if LiveHandle(log, h) then LatestKind(log, h % TWO32) else None
    ensures RetainSpec(slots, h).1 <==> LiveHandle(log, h) && Balance(log, h % TWO32) < 0xFFFF_FFFF
    ensures ReleaseSpec(slots, h).1 <==> LiveHandle(log, h)
    ensures DestroySpec(slots, h).1 <==> LiveHandle(log, h)
    ensures CountSpec(slots) == Outstanding(log)
  {
    hide Clears, Creations, Balance, LatestKind, Outstanding, CountSpec, Generation, Index, Pack, LiveHandle, Target, RetainSpec,
      ReleaseSpec, DestroySpec, GetTypeSpec, SlotOk;
    LowestIsVacant(slots, log);
    var i := FreeIndex(slots, 0);
    if i < 64 {
      PackIs(i, slots[i].generation);
    }
    HandleAnswers(slots, log, h);
  }

  lemma HandleAnswers(slots: seq<Slot>, log: seq<Happening>, h: u64)
    requires Inv(slots, log)
    ensures Target(slots, h).Some? <==> LiveHandle(log, h)
    ensures GetTypeSpec(slots, h) == if LiveHandle(log, h) then LatestKind(log, h % TWO32) else None
    ensures RetainSpec(slots, h).1 <==> LiveHandle(log, h) && Balance(log, h % TWO32) < 0xFFFF_FFFF
    ensures ReleaseSpec(slots, h).1 <==> LiveHandle(log, h)
    ensures DestroySpec(slots, h).1 <==> LiveHandle(log, h)
  {
    hide Clears, Creations, Balance, LatestKind, Outstanding, CountSpec, Generation, Index, LiveHandle, Target;
    LiveMeansTarget(slots, log, h);
    if LiveHandle(log, h) {
      assert SlotOk(slots[h % TWO32], log, h % TWO32);
    }
  }

  lemma InvLength(slots: seq<Slot>, log: seq<Happening>)
    requires Inv(slots, log)
    ensures |slots| == MAX_KERNEL_OBJECTS
  {
  }

  /** The table and its log after a run. */
  ghost function Run(slots: seq<Slot>, log: seq<Happening>, ops: seq<Op>): (r: (seq<Slot>, seq<Happening>))
    requires Inv(slots, log)
    ensures Inv(r.0, r.1) && log <= r.1
    decreases |ops|
  {
    if ops == [] then (slots, log)
    else
      var (slots', es) := Step(slots, ops[0]);
      StepKeepsInv(slots, log, ops[0]);
      Run(slots', log + es, ops[1..])
  }

  ghost function EmptyTable(): seq<Slot> {
    seq(MAX_KERNEL_OBJECTS, _ => EMPTY_SLOT)
  }

  lemma EmptyInv()
    ensures Inv(EmptyTable(), [])
  {
    NoneOccupied(EmptyTable());
  }

  lemma {:induction false} NoneOccupied(slots: seq<Slot>)
    requires forall i :: 0 <= i < |slots| ==> !slots[i].occupied
    ensures CountSpec(slots) == 0
  {
    if slots != [] {
      NoneOccupied(slots[..|slots| - 1]);
    }
  }

  /**
   Over every history: a live object's reference count is one plus its retains minus its releases and is
   never zero, a slot is occupied exactly when it holds a record, its generation counts its clears, and
   `count` is creations minus clears.
   */
  lemma HistoryDeterminesTable(ops: seq<Op>)
    ensures Inv(EmptyTable(), [])
    ensures var (slots, log) := Run(EmptyTable(), [], ops);
            && |slots| == MAX_KERNEL_OBJECTS
            && (forall i: nat :: i < |slots| ==>
                  && slots[i].generation == 1 + Clears(log, i) % PERIOD
                  && (slots[i].occupied <==> slots[i].record.Some?)
                  && (slots[i].occupied ==> slots[i].record.value.references == Balance(log, i) >= 1
                                            && LatestKind(log, i) == Some(slots[i].record.value.kind)))
            && CountSpec(slots) == Outstanding(log)
  {
    hide Run, Clears, Balance, Outstanding, CountSpec;
    EmptyInv();
  }

  lemma {:induction false} ClearsGrow(log: seq<Happening>, log': seq<Happening>, i: nat)
    requires log <= log'
    ensures Clears(log, i) <= Clears(log', i)
    decreases |log'|
  {
    if log == log' {
    } else {
      assert log <= log'[..|log'| - 1];
      ClearsGrow(log, log'[..|log'| - 1], i);
    }
  }

  /**
   A handle issued when its slot had been cleared c times is valid in a later state exactly when the slot is
   occupied and has been cleared a multiple of 2^32 - 1 times since: a handle once invalidated stays invalid
   until exactly that many clears have happened.
   */
  lemma HandleValidity(slots: seq<Slot>, log: seq<Happening>, kind: ObjectType, ops: seq<Op>)
    requires Inv(slots, log) && CreateSpec(slots, kind).1.Some?
    ensures var (slots1, r) := CreateSpec(slots, kind);
            var h := r.value;
            var i := Index(h);
            var log1 := log + [Creation(i, kind)];
            && Inv(slots1, log1)
            && (var (slots2, log2) := Run(slots1, log1, ops);
                && |slots2| == MAX_KERNEL_OBJECTS && i < |slots2| && Clears(log1, i) <= Clears(log2, i)
                && (Target(slots2, h).Some? <==>
                      slots2[i].occupied && (Clears(log2, i) - Clears(log1, i)) % PERIOD == 0))
  {
    hide Run, Clears, Balance, Outstanding, CountSpec, Pack, Index, Generation, GenerationAfter;
    CreateKeepsInv(slots, log, kind);
    var (slots1, r) := CreateSpec(slots, kind);
    var h := r.value;
    var i := Index(h);
    var log1 := log + [Creation(i, kind)];
    var (slots2, log2) := Run(slots1, log1, ops);
    ClearsGrow(log1, log2, i);
    GenerationRecurs(Clears(log1, i), Clears(log2, i));
  }

  // ---- The table as an object ----

  /** The table behind its lock: each method is one critical section. */
  class ObjectTable {
    const slots: array<Slot>

    ghost predicate Shaped()
      reads this
    {
      slots.Length == MAX_KERNEL_OBJECTS
    }

    constructor ()
      ensures Shaped() && fresh(slots) && slots[..] == EmptyTable()
    {
      slots := new Slot[MAX_KERNEL_OBJECTS](_ => EMPTY_SLOT);
      new;
      assert slots[..] == EmptyTable();
    }

    method Create(kind: ObjectType) returns (r: Option<u64>)
      requires Shaped()
      modifies slots
      ensures (slots[..], r) == CreateSpec(old(slots[..]), kind)
    {
      for i := 0 to MAX_KERNEL_OBJECTS
        invariant forall j :: 0 <= j < i ==> slots[j].occupied
        invariant slots[..] == old(slots[..])
      {
        if !slots[i].occupied {
          assert FreeIndex(slots[..], 0) == i;
          slots[i] := Slot(true, slots[i].generation, Some(Record(kind, 1)));
          assert slots[..] == old(slots[..])[i := slots[i]];
          return Some(Pack(i, slots[i].generation));
        }
      }
      return None;
    }

    /** The checks every handle operation starts with. */
    method Locate(h: u64) returns (r: Option<nat>)
      requires Shaped()
      ensures r == Target(slots[..], h)
    {
      if h == INVALID {
        return None;
      }
      var i := Index(h);
      if i >= MAX_KERNEL_OBJECTS {
        return None;
      }
      if !slots[i].occupied || slots[i].generation != Generation(h) {
        return None;
      }
      return Some(i);
    }

    method IsValid(h: u64) returns (r: bool)
      requires Shaped()
      ensures r <==> Target(slots[..], h).Some?
    {
      var t := Locate(h);
      r := t.Some?;
    }

    method GetType(h: u64) returns (r: Option<ObjectType>)
      requires Shaped()
      ensures r == GetTypeSpec(slots[..], h)
    {
      var t := Locate(h);
      if t.None? || slots[t.value].record.None? {
        return None;
      }
      return Some(slots[t.value].record.value.kind);
    }

    method Retain(h: u64) returns (ok: bool)
      requires Shaped()
      modifies slots
      ensures (slots[..], ok) == RetainSpec(old(slots[..]), h)
    {
      var t := Locate(h);
      if t.None? || slots[t.value].record.None? {
        return false;
      }
      var i := t.value;
      var record := slots[i].record.value;
      if record.references == TWO32 - 1 {
        return false;
      }
      slots[i] := slots[i].(record := Some(record.(references := record.references + 1)));
      assert slots[..] == old(slots[..])[i := slots[i]];
      return true;
    }

    method Release(h: u64) returns (ok: bool)
      requires Shaped()
      modifies slots
      ensures (slots[..], ok) == ReleaseSpec(old(slots[..]), h)
    {
      var t := Locate(h);
      if t.None? {
        return false;
      }
      var i := t.value;
      var shouldDestroy := false;
      if slots[i].record.Some? {
        var record := slots[i].record.value;
        if record.references == 0 {
          return false;
        }
        slots[i] := slots[i].(record := Some(record.(references := record.references - 1)));
        shouldDestroy := record.references == 1;
      }
      if shouldDestroy {
        slots[i] := Cleared(slots[i]);
      }
      assert slots[..] == old(slots[..])[i := slots[i]];
      return true;
    }

    method Destroy(h: u64) returns (ok: bool)
      requires Shaped()
      modifies slots
      ensures (slots[..], ok) == DestroySpec(old(slots[..]), h)
    {
      var t := Locate(h);
      if t.None? {
        return false;
      }
      slots[t.value] := Cleared(slots[t.value]);
      assert slots[..] == old(slots[..])[t.value := slots[t.value]];
      return true;
    }

    method Count() returns (n: nat)
      requires Shaped()
      ensures n == CountSpec(slots[..])
    {
      n := 0;
      for i := 0 to MAX_KERNEL_OBJECTS
        invariant n == CountSpec(slots[..i])
      {
        assert slots[..i + 1][..i] == slots[..i];
        if slots[i].occupied {
          n := n + 1;
        }
      }
      assert slots[..MAX_KERNEL_OBJECTS] == slots[..];
    }
  }
}
