/**
 From the loader to the allocator: the extent that the loader reports keeps every loaded byte of the
 kernel out of the frames that the allocator will ever hand out.
 */
module BootChain {
  import opened Words
  import opened Frames
  import opened FrameAllocator
  import BootMemory
  import ElfLoader

  /** The extent that the kernel reads from the record the loader left in memory. */
  function RecordedStart(m: ElfLoader.Bytes): u64 { ElfLoader.Read64(m, ElfLoader.BOOT_INFO + 0x18) }

  function RecordedEnd(m: ElfLoader.Bytes): u64 { ElfLoader.Read64(m, ElfLoader.BOOT_INFO + 0x20) }

  lemma ExtentBelowMapping(m: ElfLoader.Bytes, size: nat, start: u64, end: u64)
    requires ElfLoader.WellFormed(m, size) && ElfLoader.Spans(m, start, end, ElfLoader.HeaderCount(m))
    ensures end <= ElfLoader.MAPPED_END
  {
    hide ElfLoader.Segment, ElfLoader.HeaderAddress, ElfLoader.HeaderCount;
    if end != 0 {
      var k: nat :| ElfLoader.Loadable(m, k) && ElfLoader.Segment(m, k).paddr + ElfLoader.Segment(m, k).memsz == end;
      assert ElfLoader.SegmentFits(m, k, size);
    }
  }

  /** A byte of a loaded segment lies in no frame that is free after initialisation. */
  lemma SegmentFramesReserved(m: ElfLoader.Bytes, size: nat, site: ElfLoader.Site, entries: seq<MemoryMapEntry>, k: nat, b: nat)
    requires ElfLoader.IsElf64(m) && ElfLoader.WellFormed(m, size) && ElfLoader.InSegment(m, k, b)
    ensures var m' := ElfLoader.Load(m, site).0;
            b / FRAME_SIZE !in InitialFree(entries, RecordedStart(m'), RecordedEnd(m'))
  {
    hide ElfLoader.IsElf64, ElfLoader.WellFormed, ElfLoader.Load, ElfLoader.Segment, ElfLoader.Image, ElfLoader.Untouched,
      ElfLoader.Read64, ElfLoader.BootInfoHolds, ElfLoader.HeaderCount, InReserved, Wraps, ReleasedBySome;
    var m' := ElfLoader.Load(m, site).0;
    var start, end := RecordedStart(m'), RecordedEnd(m');
    ElfLoader.LoadSpec(m, size, site);
    ExtentBelowMapping(m, size, start, end);
    assert !Wraps(end) by { SmallEnd(end); }
    var f := b / FRAME_SIZE;
    assert f * FRAME_SIZE <= b < f * FRAME_SIZE + FRAME_SIZE;
    BootMemory.InReservedMeans(start, end, f);
  }

  lemma SmallEnd(end: u64)
    ensures end <= ElfLoader.MAPPED_END ==> !Wraps(end)
  {
  }

  /** Frames handed out over a run were free at its start. */
  lemma HandedOutWereFree(s: FrameState, calls: seq<Call>)
    requires s.Valid() && s.owned == {}
    ensures Run(s, calls).0.owned <= s.Free()
  {
    hide Run, Live;
    RunKeepsLiveFrames(s, calls);
    var (s', _) := Run(s, calls);
    forall f | f in s'.owned
      ensures f in s.Free()
    {
      assert f !in s'.used - s'.owned;
    }
  }

  /**
   For every well-formed kernel image, every memory map and every later sequence of allocator calls, no
   frame that is handed out holds a byte of a loaded segment.
   */
  lemma LoadedKernelIsNeverAllocated(m: ElfLoader.Bytes, size: nat, site: ElfLoader.Site, entries: seq<MemoryMapEntry>,
                                     s: FrameState, calls: seq<Call>)
    requires ElfLoader.IsElf64(m) && ElfLoader.WellFormed(m, size)
    requires s.Valid() && s.owned == {}
    requires var m' := ElfLoader.Load(m, site).0;
             s.Free() == InitialFree(entries, RecordedStart(m'), RecordedEnd(m'))
    ensures forall k: nat, b: nat :: ElfLoader.InSegment(m, k, b) ==> b / FRAME_SIZE !in Run(s, calls).0.owned
  {
    hide ElfLoader.IsElf64, ElfLoader.WellFormed, ElfLoader.Load, ElfLoader.InSegment, Run, InitialFree;
    HandedOutWereFree(s, calls);
    forall k: nat, b: nat | ElfLoader.InSegment(m, k, b)
      ensures b / FRAME_SIZE !in Run(s, calls).0.owned
    {
      SegmentFramesReserved(m, size, site, entries, k, b);
    }
  }
}
