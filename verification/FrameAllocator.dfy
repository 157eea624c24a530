/**
 The bitmap frame allocator, updated in place, and its proof against the frame-set functions.
 */
module FrameAllocator {
  import opened Words
  import opened Frames

  const BITMAP_SIZE: nat := 0x2_0000
  const MAX_PHYSICAL_MEMORY: nat := 0x1_0000_0000
  const LOW_MEMORY: nat := 0x10_0000

  /** One E820 entry. */
  datatype MemoryMapEntry = MemoryMapEntry(base: u64, length: u64, kind: u32)

  // ---- Bits ----

  function Mask(k: nat): bv8
    requires k < 8
  {
    (1 as bv8) << k
  }

  predicate Bit(bytes: seq<bv8>, frame: nat)
    requires |bytes| == BITMAP_SIZE && frame < MAX_FRAMES
  {
    bytes[frame / 8] & Mask(frame % 8) != 0
  }

  /** The frames whose bit is set. */
  ghost function Bits(bytes: seq<bv8>): set<nat>
    requires |bytes| == BITMAP_SIZE
  {
    set f: nat | f < MAX_FRAMES && Bit(bytes, f)
  }

  lemma MaskValues(k: nat)
    requires k < 8
    ensures Mask(k) == if k == 0 then 1 else if k == 1 then 2 else if k == 2 then 4 else if k == 3 then 8
                       else if k == 4 then 16 else if k == 5 then 32 else if k == 6 then 64 else 128
  {
    if k == 0 {} else if k == 1 {} else if k == 2 {} else if k == 3 {}
    else if k == 4 {} else if k == 5 {} else if k == 6 {} else {}
  }

  lemma SetMask(b: bv8, k: nat, j: nat)
    requires k < 8 && j < 8
    ensures (b | Mask(k)) & Mask(j) != 0 <==> k == j || b & Mask(j) != 0
  {
    MaskValues(k);
    MaskValues(j);
  }

  lemma ClearMask(b: bv8, k: nat, j: nat)
    requires k < 8 && j < 8
    ensures (b & !Mask(k)) & Mask(j) != 0 <==> k != j && b & Mask(j) != 0
  {
    MaskValues(k);
    MaskValues(j);
  }

  lemma BitAfterSet(bytes: seq<bv8>, frame: nat, f: nat)
    requires |bytes| == BITMAP_SIZE && frame < MAX_FRAMES && f < MAX_FRAMES
    ensures Bit(bytes[frame / 8 := bytes[frame / 8] | Mask(frame % 8)], f) <==> f == frame || Bit(bytes, f)
  {
    hide Mask;
    if f / 8 == frame / 8 {
      SetMask(bytes[frame / 8], frame % 8, f % 8);
    }
  }

  lemma BitAfterClear(bytes: seq<bv8>, frame: nat, f: nat)
    requires |bytes| == BITMAP_SIZE && frame < MAX_FRAMES && f < MAX_FRAMES
    ensures Bit(bytes[frame / 8 := bytes[frame / 8] & !Mask(frame % 8)], f) <==> f != frame && Bit(bytes, f)
  {
    hide Mask;
    if f / 8 == frame / 8 {
      ClearMask(bytes[frame / 8], frame % 8, f % 8);
    }
  }

  /** Setting and clearing a bit adds and removes exactly one frame. */
  lemma BitsAfterSet(bytes: seq<bv8>, frame: nat)
    requires |bytes| == BITMAP_SIZE && frame < MAX_FRAMES
    ensures Bits(bytes[frame / 8 := bytes[frame / 8] | Mask(frame % 8)]) == Bits(bytes) + {frame}
  {
    hide Mask, Bit;
    forall f: nat | f < MAX_FRAMES { BitAfterSet(bytes, frame, f); }
  }

  lemma BitsAfterClear(bytes: seq<bv8>, frame: nat)
    requires |bytes| == BITMAP_SIZE && frame < MAX_FRAMES
    ensures Bits(bytes[frame / 8 := bytes[frame / 8] & !Mask(frame % 8)]) == Bits(bytes) - {frame}
  {
    hide Mask, Bit;
    forall f: nat | f < MAX_FRAMES { BitAfterClear(bytes, frame, f); }
  }

  method TestBit(bitmap: array<bv8>, frame: nat) returns (set': bool)
    requires bitmap.Length == BITMAP_SIZE && frame < MAX_FRAMES
    ensures set' <==> frame in Bits(bitmap[..])
  {
    var byte := bitmap[frame / 8];
    var mask := Mask(frame % 8);
    set' := byte & mask != 0;
    assert bitmap[..][frame / 8] == byte;
  }

  method SetBit(bitmap: array<bv8>, frame: nat)
    requires bitmap.Length == BITMAP_SIZE && frame < MAX_FRAMES
    modifies bitmap
    ensures Bits(bitmap[..]) == old(Bits(bitmap[..])) + {frame}
  {
    BitsAfterSet(bitmap[..], frame);
    bitmap[frame / 8] := bitmap[frame / 8] | Mask(frame % 8);
    assert bitmap[..] == old(bitmap[..])[frame / 8 := old(bitmap[frame / 8]) | Mask(frame % 8)];
  }

  method ClearBit(bitmap: array<bv8>, frame: nat)
    requires bitmap.Length == BITMAP_SIZE && frame < MAX_FRAMES
    modifies bitmap
    ensures Bits(bitmap[..]) == old(Bits(bitmap[..])) - {frame}
  {
    BitsAfterClear(bitmap[..], frame);
    bitmap[frame / 8] := bitmap[frame / 8] & !Mask(frame % 8);
    assert bitmap[..] == old(bitmap[..])[frame / 8 := old(bitmap[frame / 8]) & !Mask(frame % 8)];
  }

  /** `write_bytes`: every byte of the bitmap set to one value. */
  method Fill(bitmap: array<bv8>, value: bv8)
    requires bitmap.Length == BITMAP_SIZE
    modifies bitmap
    ensures forall i :: 0 <= i < BITMAP_SIZE ==> bitmap[i] == value
  {
    for i := 0 to BITMAP_SIZE
      invariant forall j :: 0 <= j < i ==> bitmap[j] == value
    {
      bitmap[i] := value;
    }
  }

  lemma FilledBits(bytes: seq<bv8>)
    requires |bytes| == BITMAP_SIZE
    ensures (forall i :: 0 <= i < |bytes| ==> bytes[i] == 0xFF) ==> Bits(bytes) == AllFrames()
    ensures (forall i :: 0 <= i < |bytes| ==> bytes[i] == 0) ==> Bits(bytes) == {}
  {
    forall f: nat | f < MAX_FRAMES
      ensures bytes[f / 8] == 0xFF ==> Bit(bytes, f)
      ensures bytes[f / 8] == 0 ==> !Bit(bytes, f)
    {
      MaskValues(f % 8);
    }
  }

  // ---- Alignment ----

  function AlignDown(value: u64): u64 {
    value - value % FRAME_SIZE
  }

  /** Rounds up; the sum wraps at 2^64 when the value lies in the last, partial frame of the address space. */
  function AlignUp(value: u64): u64 {
    if value % FRAME_SIZE == 0 then value else (value + (FRAME_SIZE - value % FRAME_SIZE)) % TWO64
  }

  predicate Wraps(value: u64) {
    value > TWO64 - FRAME_SIZE
  }

  /** A frame starts inside [AlignDown(start), AlignUp(end)). */
  predicate InReserved(start: u64, end: u64, f: nat) {
    AlignDown(start) <= f * FRAME_SIZE < AlignUp(end)
  }

  ghost function ReservedBelow(start: u64, end: u64, limit: nat): set<nat> {
    set f: nat | f < MAX_FRAMES && InReserved(start, end, f) && f * FRAME_SIZE < limit
  }

  lemma ReservedStep(start: u64, end: u64, address: nat)
    requires address % FRAME_SIZE == 0 && AlignDown(start) <= address < AlignUp(end)
    ensures ReservedBelow(start, end, address + FRAME_SIZE) ==
            ReservedBelow(start, end, address) +
            if address / FRAME_SIZE < MAX_FRAMES then {address / FRAME_SIZE} else {}
  {
    hide AlignDown, AlignUp;
  }

  lemma ReservedEnds(start: u64, end: u64, address: nat)
    ensures address <= AlignDown(start) ==> ReservedBelow(start, end, address) == {}
    ensures address >= AlignUp(end) ==> ReservedBelow(start, end, address) == ReservedBelow(start, end, TWO64)
  {
    hide AlignDown, AlignUp;
  }

  /** A frame that the release loop frees for an entry. */
  predicate Releases(e: MemoryMapEntry, f: nat) {
    && e.kind == 1 && e.base + e.length < TWO64
    && AlignUp(e.base) <= f * FRAME_SIZE < AlignDown(e.base + e.length)
  }

  ghost function ReleasedBelow(e: MemoryMapEntry, limit: nat): set<nat> {
    set f: nat | f < MAX_FRAMES && Releases(e, f) && f * FRAME_SIZE < limit
  }

  lemma Aligned(a: u64, b: u64)
    ensures AlignDown(a) % FRAME_SIZE == 0 && AlignUp(b) % FRAME_SIZE == 0
  {
  }

  lemma NothingReleased(e: MemoryMapEntry)
    ensures e.kind != 1 || e.base + e.length >= TWO64 || AlignUp(e.base) >= AlignDown(e.base + e.length) ==>
              ReleasedBelow(e, MAX_PHYSICAL_MEMORY) == {}
  {
    hide AlignDown, AlignUp;
  }

  lemma ReleasedStep(e: MemoryMapEntry, address: nat)
    requires e.kind == 1 && e.base + e.length < TWO64 && address % FRAME_SIZE == 0
    requires AlignUp(e.base) <= address < AlignDown(e.base + e.length)
    ensures ReleasedBelow(e, address + FRAME_SIZE) ==
            ReleasedBelow(e, address) + if address / FRAME_SIZE < MAX_FRAMES then {address / FRAME_SIZE} else {}
  {
    hide AlignDown, AlignUp;
  }

  lemma ReleasedEnds(e: MemoryMapEntry, address: nat)
    requires e.base + e.length < TWO64
    ensures address <= AlignUp(e.base) ==> ReleasedBelow(e, address) == {}
    ensures address >= MAX_PHYSICAL_MEMORY || address >= AlignDown(e.base + e.length) ==>
              ReleasedBelow(e, address) == ReleasedBelow(e, MAX_PHYSICAL_MEMORY)
  {
    hide AlignDown, AlignUp;
  }

  /** The frames released by the first n entries. */
  ghost function ReleasedByFirst(entries: seq<MemoryMapEntry>, n: nat): set<nat>
    requires n <= |entries|
  {
    if n == 0 then {} else ReleasedByFirst(entries, n - 1) + ReleasedBelow(entries[n - 1], MAX_PHYSICAL_MEMORY)
  }

  lemma {:induction false} ReleasedByFirstMeans(entries: seq<MemoryMapEntry>, n: nat, f: nat)
    requires n <= |entries|
    ensures f in ReleasedByFirst(entries, n) <==>
            f < MAX_FRAMES && exists i :: 0 <= i < n && Releases(entries[i], f)
  {
    hide Releases;
    if n > 0 {
      ReleasedByFirstMeans(entries, n - 1, f);
    }
  }

  ghost predicate ReleasedBySome(entries: seq<MemoryMapEntry>, f: nat) {
    exists i :: 0 <= i < |entries| && Releases(entries[i], f)
  }

  /** The frames that are free once initialisation is complete. */
  ghost function InitialFree(entries: seq<MemoryMapEntry>, kernelStart: u64, kernelEnd: u64): set<nat> {
    set f: nat | f < MAX_FRAMES && ReleasedBySome(entries, f) && f * FRAME_SIZE >= LOW_MEMORY
                 && !InReserved(kernelStart, kernelEnd, f)
  }

  ghost function LowFrames(): set<nat> {
    set f: nat | f < MAX_FRAMES && f * FRAME_SIZE < LOW_MEMORY
  }

  lemma LowRanges()
    ensures ReservedBelow(0x0_0000, 0x10_0000, TWO64) == LowFrames()
    ensures ReservedBelow(0x0_8000, 0x0_C000, TWO64) <= LowFrames()
    ensures ReservedBelow(0x2_0000, 0x2_4000, TWO64) <= LowFrames()
    ensures ReservedBelow(0x6_0000, 0x6_1000, TWO64) <= LowFrames()
    ensures ReservedBelow(0x7_0000, 0x7_1000, TWO64) <= LowFrames()
    ensures ReservedBelow(0x9_0000, 0x9_1000, TWO64) <= LowFrames()
  {
  }

  lemma FreeAtLast(entries: seq<MemoryMapEntry>, kernelStart: u64, kernelEnd: u64)
    ensures InitialFree(entries, kernelStart, kernelEnd) ==
            FrameState(AllFrames() - ReleasedByFirst(entries, |entries|) + LowFrames()
                       + ReservedBelow(kernelStart, kernelEnd, TWO64), {}).Free()
  {
    hide Releases, InReserved;
    forall f: nat | f < MAX_FRAMES
      ensures f in ReleasedByFirst(entries, |entries|) <==> ReleasedBySome(entries, f)
    {
      ReleasedByFirstMeans(entries, |entries|, f);
    }
  }

  // ---- The allocator ----

  class FrameAllocator {
    const frameBitmap: array<bv8>
    const allocatedBitmap: array<bv8>
    var freeFrames: nat

    ghost predicate Shaped()
      reads this
    {
      && frameBitmap.Length == BITMAP_SIZE && allocatedBitmap.Length == BITMAP_SIZE
      && frameBitmap != allocatedBitmap
    }

    /** The pair of frame sets that the bitmaps stand for. */
    ghost function State(): FrameState
      requires Shaped()
      reads this, frameBitmap, allocatedBitmap
    {
      FrameState(Bits(frameBitmap[..]), Bits(allocatedBitmap[..]))
    }

    /** Owned frames are used, and the counter equals the number of clear bits. */
    ghost predicate Valid()
      reads this, frameBitmap, allocatedBitmap
      ensures Valid() ==> Shaped()
    {
      Shaped() && State().Valid() && freeFrames == |State().Free()|
    }

    constructor ()
      ensures Shaped() && fresh(frameBitmap) && fresh(allocatedBitmap)
    {
      frameBitmap := new bv8[BITMAP_SIZE];
      allocatedBitmap := new bv8[BITMAP_SIZE];
      freeFrames := 0;
    }

    method AllocateFrame() returns (r: Option<u64>)
      requires Valid()
      modifies this, frameBitmap, allocatedBitmap
      ensures Valid()
      ensures (State(), r) == Allocate(old(State()))
    {
      hide Bits, Bit, Mask, Lowest;
      AllocateTakesLowest(State());
      for frame := 0 to MAX_FRAMES
        invariant Valid() && State() == old(State())
        invariant forall g: nat :: g < frame ==> g in State().used
      {
        var used := TestBit(frameBitmap, frame);
        if !used {
          assert Lowest(State().used, 0) == frame;
          SetBit(frameBitmap, frame);
          SetBit(allocatedBitmap, frame);
          freeFrames := freeFrames - 1;
          return Some(frame * FRAME_SIZE);
        }
      }
      return None;
    }

    method FreeFrame(address: u64)
      requires Valid()
      modifies this, frameBitmap, allocatedBitmap
      ensures Valid()
      ensures State() == Release(old(State()), address)
    {
      hide Bits, Bit, Mask;
      if address % FRAME_SIZE != 0 {
        return;
      }
      var frame := address / FRAME_SIZE;
      if frame >= MAX_FRAMES {
        return;
      }
      var handedOut := TestBit(allocatedBitmap, frame);
      if !handedOut {
        return;
      }
      ReleaseReturnsOne(State(), address);
      ClearBit(frameBitmap, frame);
      ClearBit(allocatedBitmap, frame);
      freeFrames := freeFrames + 1;
    }

    /** Marks a frame used and counts it, unless it already is. */
    method Reserve(frame: nat)
      requires Valid() && frame < MAX_FRAMES
      modifies this, frameBitmap
      ensures Valid()
      ensures State() == FrameState(old(State()).used + {frame}, old(State()).owned)
    {
      hide Bits, Bit, Mask;
      var used := TestBit(frameBitmap, frame);
      if !used {
        SetBit(frameBitmap, frame);
        FreeAfterUse(old(State()), State(), frame);
        freeFrames := freeFrames - 1;
      }
    }

    /** Marks a frame free and counts it, unless it already is. */
    method Unreserve(frame: nat)
      requires Valid() && frame < MAX_FRAMES && State().owned == {}
      modifies this, frameBitmap
      ensures Valid()
      ensures State() == FrameState(old(State()).used - {frame}, {})
    {
      hide Bits, Bit, Mask;
      var used := TestBit(frameBitmap, frame);
      if used {
        ClearBit(frameBitmap, frame);
        FreeAfterRelease(old(State()), State(), frame);
        freeFrames := freeFrames + 1;
      }
    }

    method ReserveRange(start: u64, end: u64)
      requires Valid()
      modifies this, frameBitmap
      ensures Valid()
      ensures State() == FrameState(old(State()).used + ReservedBelow(start, end, TWO64), old(State()).owned)
    {
      hide Bits, ReservedBelow, AlignDown, AlignUp, AllFrames, Valid;
      ghost var before := State();
      var first := AlignDown(start);
      var last := AlignUp(end);
      var address := first;
      Aligned(start, end);
      ReservedEnds(start, end, address);
      while address < last
        invariant address % FRAME_SIZE == 0 && first <= address
        invariant first <= last ==> address <= last
        invariant Valid() && State() == FrameState(before.used + ReservedBelow(start, end, address), before.owned)
      {
        var frame := address / FRAME_SIZE;
        ReservedStep(start, end, address);
        if frame < MAX_FRAMES {
          Reserve(frame);
        }
        address := address + FRAME_SIZE;
      }
      ReservedEnds(start, end, address);
    }

    /** The release loop for one memory-map entry. */
    method ReleaseEntry(e: MemoryMapEntry)
      requires Valid() && State().owned == {}
      modifies this, frameBitmap
      ensures Valid()
      ensures State() == FrameState(old(State()).used - ReleasedBelow(e, MAX_PHYSICAL_MEMORY), {})
    {
      hide Bits, ReleasedBelow, AlignDown, AlignUp, AllFrames, Valid;
      ghost var used := State().used;
      NothingReleased(e);
      if e.kind != 1 {
        return;
      }
      var regionStart := AlignUp(e.base);
      if e.base + e.length >= TWO64 {
        return;
      }
      var regionEnd := AlignDown(e.base + e.length);
      if regionStart >= regionEnd {
        return;
      }
      Aligned(e.base + e.length, e.base);
      var limit := if regionEnd < MAX_PHYSICAL_MEMORY then regionEnd else MAX_PHYSICAL_MEMORY;
      var address := regionStart;
      ReleasedEnds(e, address);
      while address < limit
        invariant address % FRAME_SIZE == 0 && regionStart <= address
        invariant Valid() && State() == FrameState(used - ReleasedBelow(e, address), {})
      {
        var frame := address / FRAME_SIZE;
        ReleasedStep(e, address);
        if frame < MAX_FRAMES {
          Unreserve(frame);
        }
        address := address + FRAME_SIZE;
      }
      ReleasedEnds(e, address);
    }

    /** Every frame reserved, none handed out. */
    method Reset()
      requires Shaped()
      modifies this, frameBitmap, allocatedBitmap
      ensures Valid() && State() == FrameState(AllFrames(), {})
    {
      hide Bits;
      Fill(frameBitmap, 0xFF);
      Fill(allocatedBitmap, 0x00);
      FilledBits(frameBitmap[..]);
      FilledBits(allocatedBitmap[..]);
      freeFrames := 0;
      assert State().Free() == {};
    }

    /** The fixed ranges: all lie in the first MiB, which the first call reserves whole. */
    method ReserveBootRanges()
      requires Valid()
      modifies this, frameBitmap
      ensures Valid()
      ensures State() == FrameState(old(State()).used + LowFrames(), old(State()).owned)
    {
      hide Bits, ReservedBelow, Valid, AllFrames;
      LowRanges();
      ReserveRange(0x0_0000, 0x10_0000);
      ReserveRange(0x0_8000, 0x0_C000);
      ReserveRange(0x2_0000, 0x2_4000);
      ReserveRange(0x6_0000, 0x6_1000);
      ReserveRange(0x7_0000, 0x7_1000);
      ReserveRange(0x9_0000, 0x9_1000);
    }

    /** After initialisation exactly the frames of `InitialFree` are free and nothing is handed out. */
    method Initialize(memoryMap: seq<MemoryMapEntry>, kernelStart: u64, kernelEnd: u64)
      requires Shaped()
      modifies this, frameBitmap, allocatedBitmap
      ensures Valid()
      ensures State().Free() == InitialFree(memoryMap, kernelStart, kernelEnd)
      ensures State().owned == {}
    {
      hide Bits, ReservedBelow, InitialFree, ReleasedBySome, Valid, AllFrames, LowFrames;
      Reset();
      for i := 0 to |memoryMap|
        invariant Valid() && State() == FrameState(AllFrames() - ReleasedByFirst(memoryMap, i), {})
      {
        ReleaseEntry(memoryMap[i]);
      }
      ReserveBootRanges();
      ReserveRange(kernelStart, kernelEnd);
      FreeAtLast(memoryMap, kernelStart, kernelEnd);
    }
  }

  lemma FreeAfterUse(s: FrameState, s': FrameState, f: nat)
    requires f < MAX_FRAMES && f !in s.used && s'.used == s.used + {f}
    ensures |s'.Free()| == |s.Free()| - 1
  {
    assert s'.Free() == s.Free() - {f};
    assert f in s.Free();
  }

  lemma FreeAfterRelease(s: FrameState, s': FrameState, f: nat)
    requires f < MAX_FRAMES && f in s.used && s'.used == s.used - {f}
    ensures |s'.Free()| == |s.Free()| + 1
  {
    assert s'.Free() == s.Free() + {f};
    assert f !in s.Free();
  }
}
