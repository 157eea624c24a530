/**
 Which frames are free after initialisation, stated directly over the firmware's memory map and
 the kernel's extent, and exactly when the alignment arithmetic meets that statement.
 */
module BootMemory {
  import opened Words
  import opened Frames
  import opened FrameAllocator

  /** The whole frame lies in a usable entry that does not run past the address space. */
  predicate WhollyInside(e: MemoryMapEntry, f: nat) {
    && e.kind == 1 && e.base + e.length < TWO64
    && e.base <= f * FRAME_SIZE && f * FRAME_SIZE + FRAME_SIZE <= e.base + e.length
  }

  ghost predicate Usable(entries: seq<MemoryMapEntry>, f: nat) {
    exists i :: 0 <= i < |entries| && WhollyInside(entries[i], f)
  }

  /** The frame and the range [start, end) have a byte in common. */
  predicate Meets(start: u64, end: u64, f: nat) {
    start < f * FRAME_SIZE + FRAME_SIZE && f * FRAME_SIZE < end
  }

  /** The frames that should be free: below 4 GiB, at or above 1 MiB, usable, and clear of the kernel. */
  ghost function IntendedFree(entries: seq<MemoryMapEntry>, kernelStart: u64, kernelEnd: u64): set<nat> {
    set f: nat | f < MAX_FRAMES && f * FRAME_SIZE >= LOW_MEMORY && Usable(entries, f) && !Meets(kernelStart, kernelEnd, f)
  }

  lemma ReleasesMeans(e: MemoryMapEntry, f: nat)
    requires f < MAX_FRAMES
    ensures !Wraps(e.base) ==> (Releases(e, f) <==> WhollyInside(e, f))
    ensures Wraps(e.base) && e.kind == 1 && e.base + e.length < TWO64 ==> Releases(e, f)
    ensures WhollyInside(e, f) ==> !Wraps(e.base)
  {
    if e.base + e.length < TWO64 {
      BelowAlignDown(e.base + e.length, f);
      if Wraps(e.base) {
        LastFrame(e.base);
        LastFrame(e.base + e.length);
      } else {
        AboveAlignUp(e.base, f);
      }
    }
  }

  lemma BelowAlignDown(v: u64, f: nat)
    ensures f * FRAME_SIZE < AlignDown(v) <==> f * FRAME_SIZE + FRAME_SIZE <= v
    ensures AlignDown(v) <= f * FRAME_SIZE <==> v < f * FRAME_SIZE + FRAME_SIZE
  {
    assert AlignDown(v) == v / FRAME_SIZE * FRAME_SIZE;
  }

  lemma AboveAlignUp(v: u64, f: nat)
    requires !Wraps(v)
    ensures AlignUp(v) <= f * FRAME_SIZE <==> v <= f * FRAME_SIZE
  {
    var q, r := v / FRAME_SIZE, v % FRAME_SIZE;
    assert v == q * FRAME_SIZE + r;
    if r != 0 {
      assert v + (FRAME_SIZE - r) == (q + 1) * FRAME_SIZE;
    }
  }

  lemma LastFrame(v: u64)
    requires Wraps(v)
    ensures AlignUp(v) == 0 && AlignDown(v) == TWO64 - FRAME_SIZE
  {
    assert v / FRAME_SIZE == TWO64 / FRAME_SIZE - 1;
  }

  lemma InReservedMeans(start: u64, end: u64, f: nat)
    ensures !Wraps(end) ==> (InReserved(start, end, f) <==> Meets(start, end, f))
    ensures Wraps(end) ==> !InReserved(start, end, f)
  {
    BelowAlignDown(start, f);
    if Wraps(end) {
      LastFrame(end);
    } else {
      AboveAlignUp(end, f);
    }
  }

  /** Some usable entry starts in the last, partial frame of the address space and does not overflow. */
  ghost predicate WrappingEntry(entries: seq<MemoryMapEntry>) {
    exists i :: 0 <= i < |entries| && Wraps(entries[i].base) && entries[i].kind == 1
                && entries[i].base + entries[i].length < TWO64
  }

  lemma ReleasedMeans(entries: seq<MemoryMapEntry>, f: nat)
    requires f < MAX_FRAMES
    ensures ReleasedBySome(entries, f) <==> Usable(entries, f) || WrappingEntry(entries)
  {
    hide Releases, WhollyInside, Wraps;
    forall i | 0 <= i < |entries| {
      ReleasesMeans(entries[i], f);
    }
    if ReleasedBySome(entries, f) {
      var i :| 0 <= i < |entries| && Releases(entries[i], f);
      if Wraps(entries[i].base) {
        assert entries[i].kind == 1 && entries[i].base + entries[i].length < TWO64 by { ReleasesUsable(entries[i], f); }
      }
    }
  }

  lemma ReleasesUsable(e: MemoryMapEntry, f: nat)
    requires Releases(e, f)
    ensures e.kind == 1 && e.base + e.length < TWO64
  {
  }

  /**
   Which frames are free, for every memory map in any order and with overlaps: the intended ones, except that
   a wrapping entry releases all of memory and a kernel end that wraps reserves nothing.
   */
  lemma InitialFreeIsIntended(entries: seq<MemoryMapEntry>, kernelStart: u64, kernelEnd: u64)
    ensures forall f: nat :: f in InitialFree(entries, kernelStart, kernelEnd) <==>
              && 0x10_0000 <= f * 4096 < 0x1_0000_0000
              && (Usable(entries, f) || WrappingEntry(entries))
              && (!Meets(kernelStart, kernelEnd, f) || Wraps(kernelEnd))
    ensures !WrappingEntry(entries) && !Wraps(kernelEnd) ==>
              InitialFree(entries, kernelStart, kernelEnd) == IntendedFree(entries, kernelStart, kernelEnd)
  {
    hide ReleasedBySome, Usable, WrappingEntry, InReserved, Meets, Wraps;
    forall f: nat | f < MAX_FRAMES { ReleasedMeans(entries, f); }
    forall f: nat | f < MAX_FRAMES { InReservedMeans(kernelStart, kernelEnd, f); }
  }

  /** Every frame above low memory lies in a usable entry already. */
  ghost predicate AllUsable(entries: seq<MemoryMapEntry>) {
    forall f: nat :: f < MAX_FRAMES && f * FRAME_SIZE >= LOW_MEMORY ==> Usable(entries, f)
  }

  /**
   A memory map is handled as intended for every kernel extent exactly when no usable entry wraps, or the
   map already covers everything that a wrapping entry would release.
   */
  lemma MapHandledAsIntended(entries: seq<MemoryMapEntry>)
    ensures (forall ks: u64, ke: u64 :: !Wraps(ke) ==> InitialFree(entries, ks, ke) == IntendedFree(entries, ks, ke))
            <==> !WrappingEntry(entries) || AllUsable(entries)
  {
    hide ReleasedBySome, Usable, InReserved, Wraps, WrappingEntry, Meets;
    forall f: nat | f < MAX_FRAMES {
      ReleasedMeans(entries, f);
    }
    if !WrappingEntry(entries) || AllUsable(entries) {
      forall ks: u64, ke: u64 | !Wraps(ke)
        ensures InitialFree(entries, ks, ke) == IntendedFree(entries, ks, ke)
      {
        forall f: nat | f < MAX_FRAMES {
          InReservedMeans(ks, ke, f);
        }
      }
    } else {
      var f: nat :| f < MAX_FRAMES && f * FRAME_SIZE >= LOW_MEMORY && !Usable(entries, f);
      NoKernel(f);
      assert f in InitialFree(entries, 0, 0) && f !in IntendedFree(entries, 0, 0);
    }
  }

  lemma NoKernel(f: nat)
    ensures !Wraps(0) && !InReserved(0, 0, f)
  {
  }

  /**
   A kernel extent is kept reserved whatever the (non-wrapping) memory map exactly when its end does not
   wrap, or it starts beyond the frames that the allocator manages.
   */
  lemma KernelHandledAsIntended(ks: u64, ke: u64)
    ensures (forall entries: seq<MemoryMapEntry> :: !WrappingEntry(entries) ==>
               InitialFree(entries, ks, ke) == IntendedFree(entries, ks, ke))
            <==> !Wraps(ke) || ks >= MAX_PHYSICAL_MEMORY
  {
    if !Wraps(ke) {
      forall entries: seq<MemoryMapEntry> | !WrappingEntry(entries) {
        InitialFreeIsIntended(entries, ks, ke);
      }
    } else if ks >= MAX_PHYSICAL_MEMORY {
      forall entries: seq<MemoryMapEntry> | !WrappingEntry(entries)
        ensures InitialFree(entries, ks, ke) == IntendedFree(entries, ks, ke)
      {
        UnreservedKernel(entries, ks, ke);
      }
    } else {
      var all := [MemoryMapEntry(0, MAX_PHYSICAL_MEMORY, 1)];
      var f := MAX_FRAMES - 1;
      assert !WrappingEntry(all);
      assert WhollyInside(all[0], f);
      ReleasedMeans(all, f);
      InReservedMeans(ks, ke, f);
      assert f in InitialFree(all, ks, ke) && f !in IntendedFree(all, ks, ke);
    }
  }

  lemma UnreservedKernel(entries: seq<MemoryMapEntry>, ks: u64, ke: u64)
    requires !WrappingEntry(entries) && Wraps(ke) && ks >= MAX_PHYSICAL_MEMORY
    ensures InitialFree(entries, ks, ke) == IntendedFree(entries, ks, ke)
  {
    hide ReleasedBySome, Usable, InReserved, Wraps, WrappingEntry;
    forall f: nat | f < MAX_FRAMES { ReleasedMeans(entries, f); }
    forall f: nat | f < MAX_FRAMES { InReservedMeans(ks, ke, f); }
  }

  /** A one-entry memory map on which the statement fails: a 50-byte region at the very top frees all of memory. */
  lemma WrappingExample()
    ensures var entries := [MemoryMapEntry(TWO64 - 100, 50, 1)];
            && 0x200 in InitialFree(entries, 0, 0)
            && IntendedFree(entries, 0, 0) == {}
  {
    var entries := [MemoryMapEntry(TWO64 - 100, 50, 1)];
    assert Wraps(entries[0].base);
    assert WrappingEntry(entries);
    ReleasedMeans(entries, 0x200);
    NoKernel(0x200);
    forall f: nat | f < MAX_FRAMES
      ensures !Usable(entries, f)
    {
      assert !WhollyInside(entries[0], f);
    }
  }
}
