/**
 A concrete kernel image that meets every hypothesis of the loader's theorems.
 */
module SmallestKernel {
  import opened Words
  import opened ElfLoader

  /** One header at offset 0x40, for one file byte at offset 0x78 and one zero byte, loaded at 1 MiB. */
  function TinyKernel(): Bytes {
    map[0x2_0000 := 0x7F, 0x2_0001 := 0x45, 0x2_0002 := 0x4C, 0x2_0003 := 0x46, 0x2_0004 := 2, 0x2_0005 := 1,
        0x2_001A := 0x10, 0x2_0020 := 0x40, 0x2_0036 := 0x38, 0x2_0038 := 1,
        0x2_0040 := 1, 0x2_0048 := 0x78, 0x2_005A := 0x10, 0x2_0060 := 1, 0x2_0068 := 2, 0x2_0078 := 0xC3]
  }

  lemma TinyMagic()
    ensures Read(TinyKernel(), KERNEL_BUFFER, 4) == 0x464C_457F
  {
    var m := TinyKernel();
    assert Read(m, 0x2_0003, 1) == 0x46;
    assert Read(m, 0x2_0002, 2) == 0x464C;
    assert Read(m, 0x2_0001, 3) == 0x46_4C45;
  }

  lemma TinyEntry()
    ensures Read(TinyKernel(), 0x2_0018, 8) == 0x10_0000
  {
    var m := TinyKernel();
    ReadLowByte(m, 0x2_001A, 6);
    assert Read(m, 0x2_0019, 7) == 0x1000;
  }

  lemma TinyCounts()
    ensures var m := TinyKernel();
            && HeaderCount(m) == 1 && Stride(m) == 0x38 && FirstHeader(m) == 0x2_0040
            && Read64(m, KERNEL_BUFFER + 0x18) == 0x10_0000
  {
    hide Read;
    var m := TinyKernel();
    ReadLowByte(m, 0x2_0038, 2);
    ReadLowByte(m, 0x2_0036, 2);
    ReadLowByte(m, 0x2_0020, 8);
    TinyEntry();
  }

  lemma TinyHeader()
    ensures HeaderAt(TinyKernel(), 0x2_0040) == Header(PT_LOAD, 0x78, 0x10_0000, 1, 2)
  {
    hide Read;
    var m := TinyKernel();
    ReadLowByte(m, 0x2_0040, 4);
    ReadLowByte(m, 0x2_0048, 8);
    ReadLowByte(m, 0x2_0060, 8);
    ReadLowByte(m, 0x2_0068, 8);
    TinyAddress();
  }

  lemma TinyAddress()
    ensures Read(TinyKernel(), 0x2_0058, 8) == 0x10_0000
  {
    var m := TinyKernel();
    ReadLowByte(m, 0x2_005A, 6);
    assert Read(m, 0x2_0059, 7) == 0x1000;
  }

  /** An image whose one header is loadable at 1 MiB, from inside a file of 0x79 bytes, is well-formed. */
  lemma OneSegment(m: Bytes)
    requires HeaderCount(m) == 1 && FirstHeader(m) == 0x2_0040
    requires HeaderAt(m, 0x2_0040) == Header(PT_LOAD, 0x78, 0x10_0000, 1, 2)
    ensures WellFormed(m, 0x79) && InSegment(m, 0, 0x10_0000) && InSegment(m, 0, 0x10_0001)
    ensures Image(m, 0, 0x10_0000) == ByteAt(m, 0x2_0078) && Image(m, 0, 0x10_0001) == 0
  {
    hide HeaderCount, HeaderAt, FirstHeader, Stride, ByteAt;
    WrapSmall(0x2_0040);
    assert HeaderAddress(m, 0) == 0x2_0040;
    assert Segment(m, 0) == Header(PT_LOAD, 0x78, 0x10_0000, 1, 2);
  }

  /** There are well-formed images with a loadable segment, and the loader starts them. */
  lemma TinyKernelStarts(site: Site)
    ensures var m := TinyKernel();
            && IsElf64(m) && WellFormed(m, 0x79) && InSegment(m, 0, 0x10_0000)
            && Load(m, site).1 == Started(0x10_0000)
            && ByteAt(Load(m, site).0, 0x10_0000) == 0xC3 && ByteAt(Load(m, site).0, 0x10_0001) == 0
  {
    var m := TinyKernel();
    assert ByteAt(m, 0x2_0078) == 0xC3 && ByteAt(m, 0x2_0004) == 2 && ByteAt(m, 0x2_0005) == 1;
    hide TinyKernel, WellFormed, InSegment, Load, Image, ByteAt, Read, Read64, BootInfoHolds, Spans, Untouched, HeaderCount,
      FirstHeader, Stride, HeaderAt;
    TinyMagic();
    TinyCounts();
    TinyHeader();
    OneSegment(m);
    LoadSpec(m, 0x79, site);
  }
}
