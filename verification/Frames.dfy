/**
 The physical frame allocator as two sets of frame numbers: what one call of
 `allocate_frame` or `free_frame` does, and what holds over every sequence of calls.
 The bitmap implementation in `FrameAllocator` is proved equal to these functions.
 */
module Frames {
  import opened Words

  const FRAME_SIZE: nat := 4096
  const MAX_FRAMES: nat := 0x10_0000

  /** `used` frames are reserved or handed out; `owned` ones were handed out. */
  datatype FrameState = FrameState(used: set<nat>, owned: set<nat>) {
    ghost predicate Valid() {
      owned <= used <= AllFrames()
    }

    ghost function Free(): set<nat> {
      AllFrames() - used
    }
  }

  predicate IsFrame(f: nat) {
    f < MAX_FRAMES
  }

  ghost function AllFrames(): set<nat> {
    set f: nat | f < MAX_FRAMES && IsFrame(f)
  }

  /** The lowest frame at or above `from` that is not in `used`, or MAX_FRAMES. */
  function Lowest(used: set<nat>, from: nat): (f: nat)
    requires from <= MAX_FRAMES
    ensures from <= f <= MAX_FRAMES
    ensures f < MAX_FRAMES ==> f !in used
    ensures forall g: nat :: from <= g < f ==> g in used
    decreases MAX_FRAMES - from
  {
    if from == MAX_FRAMES || from !in used then from else Lowest(used, from + 1)
  }

  function Allocate(s: FrameState): (FrameState, Option<u64>) {
    var f := Lowest(s.used, 0);
    if f == MAX_FRAMES then (s, None)
    else (FrameState(s.used + {f}, s.owned + {f}), Some(f * FRAME_SIZE))
  }

  function Release(s: FrameState, address: u64): FrameState {
    var f := address / FRAME_SIZE;
    if address % FRAME_SIZE != 0 || f >= MAX_FRAMES || f !in s.owned then s
    else FrameState(s.used - {f}, s.owned - {f})
  }

  /** `address` is a frame that the allocator handed out and has not taken back. */
  predicate Owns(s: FrameState, address: nat) {
    && address % FRAME_SIZE == 0
    && address / FRAME_SIZE < MAX_FRAMES
    && address / FRAME_SIZE in s.owned
  }

  /** Allocation fails exactly when nothing is free; otherwise it moves the lowest free frame. */
  lemma AllocateTakesLowest(s: FrameState)
    requires s.Valid()
    ensures var (s', r) := Allocate(s);
            && s'.Valid()
            && (r.None? <==> s.Free() == {})
            && (r.None? ==> s' == s)
            && (r.Some? ==>
                  && !Owns(s, r.value) && Owns(s', r.value)
                  && r.value / FRAME_SIZE in s.Free()
                  && s'.Free() == s.Free() - {r.value / FRAME_SIZE}
                  && |s'.Free()| == |s.Free()| - 1
                  && s'.used == s.used + {r.value / FRAME_SIZE}
                  && s'.owned == s.owned + {r.value / FRAME_SIZE}
                  && (forall g :: g in s.Free() ==> r.value / FRAME_SIZE <= g))
  {
    var f := Lowest(s.used, 0);
    if f < MAX_FRAMES {
      assert f in s.Free();
    }
  }

  /** A release either returns exactly one handed-out frame or, for any other address, does nothing. */
  lemma ReleaseReturnsOne(s: FrameState, address: u64)
    requires s.Valid()
    ensures var s' := Release(s, address);
            var f := address / 4096;
            && s'.Valid()
            && (Owns(s, address) <==> address % 4096 == 0 && f in s.owned)
            && (!Owns(s, address) ==> s' == s)
            && (Owns(s, address) ==>
                  && s' == FrameState(s.used - {f}, s.owned - {f})
                  && s'.Free() == s.Free() + {f}
                  && |s'.Free()| == |s.Free()| + 1
                  && !Owns(s', address))
  {
    if Owns(s, address) {
      var s' := Release(s, address);
      assert s'.Free() == s.Free() + {address / FRAME_SIZE};
      assert address / FRAME_SIZE !in s.Free();
    }
  }

  lemma OwnsAfterAllocate(s: FrameState, a: nat)
    requires s.Valid()
    ensures var (s', r) := Allocate(s);
            Owns(s', a) <==> Owns(s, a) || r == Some(a)
  {
    var f := Lowest(s.used, 0);
    if a % FRAME_SIZE == 0 && a / FRAME_SIZE == f {
      assert a == f * FRAME_SIZE;
    }
  }

  lemma OwnsAfterRelease(s: FrameState, address: u64, a: nat)
    requires s.Valid()
    ensures Owns(Release(s, address), a) <==> Owns(s, a) && a != address
  {
    if Owns(s, a) && a / FRAME_SIZE == address / FRAME_SIZE && address % FRAME_SIZE == 0 {
      assert a == a / FRAME_SIZE * FRAME_SIZE;
      assert address == address / FRAME_SIZE * FRAME_SIZE;
    }
  }

  // ---- Runs ----

  datatype Call = AllocateCall | ReleaseCall(address: u64)

  /** What a call answered: the address handed out, if any. */
  datatype Event = Event(call: Call, answer: Option<u64>)

  function Step(s: FrameState, c: Call): (FrameState, Event) {
    match c
    case AllocateCall => var (s', r) := Allocate(s); (s', Event(c, r))
    case ReleaseCall(a) => (Release(s, a), Event(c, None))
  }

  function Run(s: FrameState, calls: seq<Call>): (FrameState, seq<Event>) {
    if calls == [] then (s, [])
    else
      var (s1, before) := Run(s, calls[..|calls| - 1]);
      var (s2, e) := Step(s1, calls[|calls| - 1]);
      (s2, before + [e])
  }

  /** The addresses handed out and not yet given back, read off the log alone. */
  function Live(log: seq<Event>): set<u64> {
    if log == [] then {}
    else
      var e := log[|log| - 1];
      var before := Live(log[..|log| - 1]);
      match e.call
      case AllocateCall => if e.answer.Some? then before + {e.answer.value} else before
      case ReleaseCall(a) => before - {a}
  }

  /** The log accounts for the owned frames. */
  ghost predicate Accounts(s: FrameState, log: seq<Event>) {
    s.Valid() && forall a: u64 :: a in Live(log) <==> Owns(s, a)
  }

  lemma StepReserved(s: FrameState, c: Call)
    requires s.Valid()
    ensures Step(s, c).0.Valid()
    ensures Step(s, c).0.used - Step(s, c).0.owned == s.used - s.owned
  {
    if c.AllocateCall? {
      AllocateTakesLowest(s);
    } else {
      ReleaseReturnsOne(s, c.address);
    }
  }

  lemma StepOwns(s: FrameState, c: Call, a: u64)
    requires s.Valid()
    ensures var (s', e) := Step(s, c);
            Owns(s', a) <==> if c.AllocateCall? then Owns(s, a) || e.answer == Some(a)
                             else Owns(s, a) && a != c.address
  {
    if c.AllocateCall? {
      OwnsAfterAllocate(s, a);
    } else {
      OwnsAfterRelease(s, c.address, a);
    }
  }

  lemma StepAccounts(s: FrameState, log: seq<Event>, c: Call)
    requires Accounts(s, log)
    ensures var (s', e) := Step(s, c);
            && Accounts(s', log + [e])
            && (c.AllocateCall? && e.answer.Some? ==> e.answer.value !in Live(log))
  {
    var (s', e) := Step(s, c);
    assert (log + [e])[..|log|] == log;
    StepReserved(s, c);
    forall a: u64
      ensures a in Live(log + [e]) <==> Owns(s', a)
    {
      StepOwns(s, c, a);
    }
    if c.AllocateCall? {
      AllocateTakesLowest(s);
    }
  }

  /**
   Over every run of calls from a state with nothing handed out: the owned set is exactly
   what the log says is live, reserved frames stay reserved, and no live address is handed out again.
   */
  lemma {:induction false} RunKeepsLiveFrames(s: FrameState, calls: seq<Call>)
    requires s.Valid() && s.owned == {}
    ensures var (s', log) := Run(s, calls);
            && Accounts(s', log)
            && |log| == |calls|
            && s'.used - s'.owned == s.used
            && (forall i :: 0 <= i < |log| && log[i].call.AllocateCall? && log[i].answer.Some? ==>
                  log[i].answer.value !in Live(log[..i]))
  {
    if calls != [] {
      var n := |calls| - 1;
      RunKeepsLiveFrames(s, calls[..n]);
      var (s1, before) := Run(s, calls[..n]);
      var (s2, log) := Run(s, calls);
      StepAccounts(s1, before, calls[n]);
      StepReserved(s1, calls[n]);
      assert log[..n] == before;
      forall i | 0 <= i < |log| && log[i].call.AllocateCall? && log[i].answer.Some?
        ensures log[i].answer.value !in Live(log[..i])
      {
        if i < n {
          assert log[..i] == before[..i] && log[i] == before[i];
        }
      }
    }
  }
}
