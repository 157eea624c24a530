/**
 The stage 2 loader from its first look at the ELF64 header to the jump to the kernel: what it copies, zeroes
 and reports, first as functions over memory with wrapping 64-bit addresses, then as the loops that run.

 The loader runs in the memory it fills. Only the first 2 MiB is mapped, the loader's code and page tables
 lie in its own image, and every call leaves a return address on the stack that the return reads back. A
 run stops where an access faults, where a store hits the image, or where a return goes astray.
 */
module ElfLoader {
  import opened Words

  const KERNEL_BUFFER: u64 := 0x2_0000
  const PT_LOAD: nat := 1

  // The identity mapping, and the loader's own memory inside it.
  const MAPPED_END: u64 := 0x20_0000
  const IMAGE_START: u64 := 0x8000
  const IMAGE_END: u64 := 0xC000
  const RETURN_SLOT: u64 := 0x8_FFF8
  const STACK_LOW: u64 := 0x8_FFE0
  const STACK_TOP: u64 := 0x9_0000
  const BOOT_INFO: u64 := 0x7_0000
  const BOOT_INFO_SIZE: nat := 64
  const BOOT_MAGIC: u64 := 0x554E_424F_554E_4442
  const MEMORY_MAP: u64 := 0x6_0000

  type u8 = x: nat | x < 256
  type u16 = x: nat | x < 0x1_0000

  /** Memory by byte address; bytes never written read as zero. */
  type Bytes = map<nat, u8>

  function ByteAt(m: Bytes, a: nat): u8 {
    if a in m then m[a] else 0
  }

  /** Addresses and sums wrap at 2^64. */
  function Wrap(a: int): u64 {
    a % TWO64
  }

  /** The little-endian value of n bytes. */
  function Read(m: Bytes, a: nat, n: nat): nat
    decreases n
  {
    if n == 0 then 0 else ByteAt(m, Wrap(a)) + 256 * Read(m, a + 1, n - 1)
  }

  function Pow256(n: nat): nat {
    if n == 0 then 1 else 256 * Pow256(n - 1)
  }

  lemma {:induction false} ReadBound(m: Bytes, a: nat, n: nat)
    ensures Read(m, a, n) < Pow256(n)
    decreases n
  {
    if n > 0 {
      ReadBound(m, a + 1, n - 1);
    }
  }

  function Read64(m: Bytes, a: nat): u64 {
    ReadBound(m, a, 8);
    assert Pow256(8) == TWO64;
    Read(m, a, 8)
  }

  /** Storing a value as n bytes, lowest first. */
  function Write(m: Bytes, a: nat, n: nat, v: nat): Bytes
    decreases n
  {
    if n == 0 then m else Write(m[a := v % 256], a + 1, n - 1, v / 256)
  }

  // ---- The two byte loops ----

  predicate Mapped(a: u64) {
    a < MAPPED_END
  }

  predicate InImage(a: nat) {
    IMAGE_START <= a < IMAGE_END
  }

  /** A store here neither faults nor changes the running loader. */
  predicate Storable(a: u64) {
    Mapped(a) && !InImage(a)
  }

  /** `memory_copy`: n bytes, one at a time, lowest first; and whether it came to its end. */
  function Copy(m: Bytes, src: u64, dst: u64, n: nat): (Bytes, bool)
    decreases n
  {
    if n == 0 then (m, true)
    else if !Mapped(src) || !Storable(dst) then (m, false)
    else Copy(m[dst := ByteAt(m, src)], Wrap(src + 1), Wrap(dst + 1), n - 1)
  }

  function Zero(m: Bytes, dst: u64, n: nat): (Bytes, bool)
    decreases n
  {
    if n == 0 then (m, true)
    else if !Storable(dst) then (m, false)
    else Zero(m[dst := 0], Wrap(dst + 1), n - 1)
  }

  // ---- Program headers ----

  /** The fields of a program header that the loop reads. */
  datatype Header = Header(kind: nat, offset: u64, paddr: u64, filesz: u64, memsz: u64)

  function HeaderAt(m: Bytes, a: u64): Header {
    Header(Read(m, a, 4), Read64(m, a + 0x08), Read64(m, a + 0x18), Read64(m, a + 0x20), Read64(m, a + 0x28))
  }

  /**
   What the loader brings along: where its two calls return to, the boot drive, the number of entries in the
   memory map, and what printing the last message leaves in the four words below the top of the stack.
   */
  datatype Site = Site(copyReturn: u64, zeroReturn: u64, bootDrive: u8, mapCount: u16, leftover: nat)

  /** `call` leaves the return address just below the top of the stack. */
  function Push(m: Bytes, returnTo: u64): Bytes {
    Write(m, RETURN_SLOT, 8, returnTo)
  }

  /** `ret` comes back only if the return address is still there. */
  predicate Returns(m: Bytes, returnTo: u64) {
    Read64(m, RETURN_SLOT) == returnTo
  }

  /** One pass of the loop over a loadable header: the sizes are read again after the copy. */
  function LoadSegment(m: Bytes, a: u64, site: Site): (Bytes, bool) {
    var h := HeaderAt(m, a);
    var (m1, copied) := Copy(Push(m, site.copyReturn), Wrap(KERNEL_BUFFER + h.offset), h.paddr, h.filesz);
    if !copied || !Returns(m1, site.copyReturn) then (m1, false)
    else
      var rest := Wrap(Read64(m1, a + 0x28) - Read64(m1, a + 0x20));
      var (m2, zeroed) := Zero(Push(m1, site.zeroReturn), Wrap(h.paddr + h.filesz), rest);
      (m2, zeroed && Returns(m2, site.zeroReturn))
  }

  /** Memory, the running extent of the loaded kernel, and whether the loader is still running. */
  datatype Progress = Progress(memory: Bytes, start: u64, end: u64, running: bool)

  /** A header is read field by field, and only a loadable one in full. */
  function LoadHeader(p: Progress, a: u64, site: Site): Progress {
    var h := HeaderAt(p.memory, a);
    if a + 4 > MAPPED_END then p.(running := false)
    else if h.kind != PT_LOAD then p
    else if a + 0x30 > MAPPED_END then p.(running := false)
    else
      var end := Wrap(h.paddr + h.memsz);
      var (memory, ok) := LoadSegment(p.memory, a, site);
      Progress(memory,
               if h.paddr < p.start then h.paddr else p.start,
               if end > p.end then end else p.end, ok)
  }

  /** The loop over headers done..count, the next one at address a. */
  function LoadHeaders(p: Progress, a: u64, stride: nat, done: nat, count: nat, site: Site): Progress
    requires done <= count
    decreases count - done
  {
    if done == count || !p.running then p
    else LoadHeaders(LoadHeader(p, a, site), Wrap(a + stride), stride, done + 1, count, site)
  }

  predicate IsElf64(m: Bytes) {
    && Read(m, KERNEL_BUFFER, 4) == 0x464C_457F
    && ByteAt(m, KERNEL_BUFFER + 4) == 2
    && ByteAt(m, KERNEL_BUFFER + 5) == 1
  }

  function HeaderCount(m: Bytes): nat { Read(m, KERNEL_BUFFER + 0x38, 2) }

  function Stride(m: Bytes): nat { Read(m, KERNEL_BUFFER + 0x36, 2) }

  function FirstHeader(m: Bytes): u64 { Wrap(KERNEL_BUFFER + Read64(m, KERNEL_BUFFER + 0x20)) }

  /** The record handed to the kernel. */
  function WriteBootInfo(m: Bytes, site: Site, start: u64, end: u64): Bytes {
    var m1 := Write(m, BOOT_INFO, 8, BOOT_MAGIC);
    var m2 := Write(m1, BOOT_INFO + 0x08, 4, 2);
    var m3 := Write(m2, BOOT_INFO + 0x0C, 4, BOOT_INFO_SIZE);
    var m4 := Write(m3, BOOT_INFO + 0x10, 8, 0);
    var m5 := Write(m4, BOOT_INFO + 0x10, 1, site.bootDrive);
    var m6 := Write(m5, BOOT_INFO + 0x18, 8, start);
    var m7 := Write(m6, BOOT_INFO + 0x20, 8, end);
    var m8 := Write(m7, BOOT_INFO + 0x28, 8, MEMORY_MAP);
    var m9 := Write(m8, BOOT_INFO + 0x30, 4, site.mapCount);
    var m10 := Write(m9, BOOT_INFO + 0x34, 4, 24);
    Write(m10, BOOT_INFO + 0x38, 8, 0)
  }

  /** Printing a message uses four words of stack. */
  function Print(m: Bytes, site: Site): Bytes {
    Write(m, STACK_LOW, 32, site.leftover)
  }

  /** The loader jumps to the kernel, refuses the file and halts, or stops on the way. */
  datatype Outcome = Started(entry: u64) | Refused | Stopped

  function Load(m: Bytes, site: Site): (Bytes, Outcome) {
    if !IsElf64(m) then (Print(m, site), Refused)
    else
      var p := LoadHeaders(Progress(m, TWO64 - 1, 0, true), FirstHeader(m), Stride(m), 0, HeaderCount(m), site);
      if !p.running then (p.memory, Stopped)
      else (Print(WriteBootInfo(p.memory, site, p.start, p.end), site), Started(Read64(m, KERNEL_BUFFER + 0x18)))
  }

  // ---- Words ----

  lemma {:induction false} WriteElsewhere(m: Bytes, a: nat, n: nat, v: nat, b: nat)
    requires b < a || a + n <= b
    ensures ByteAt(Write(m, a, n, v), b) == ByteAt(m, b)
    decreases n
  {
    if n > 0 {
      WriteElsewhere(m[a := v % 256], a + 1, n - 1, v / 256, b);
    }
  }

  lemma {:induction false} WriteThenRead(m: Bytes, a: nat, n: nat, v: nat)
    requires a + n <= TWO64 && v < Pow256(n)
    ensures Read(Write(m, a, n, v), a, n) == v
    decreases n
  {
    hide ByteAt;
    if n > 0 {
      var m1 := m[a := v % 256];
      WriteElsewhere(m1, a + 1, n - 1, v / 256, a);
      WriteThenRead(m1, a + 1, n - 1, v / 256);
      assert ByteAt(m1, a) == v % 256 by { StoredByte(m, a, v % 256); }
      WrapSmall(a);
    }
  }

  lemma StoredByte(m: Bytes, a: nat, v: u8)
    ensures ByteAt(m[a := v], a) == v
  {
  }

  lemma {:induction false} ReadZeros(m: Bytes, a: nat, n: nat)
    requires a + n <= TWO64 && forall b: nat :: a <= b < a + n ==> ByteAt(m, b) == 0
    ensures Read(m, a, n) == 0
    decreases n
  {
    if n > 0 {
      WrapSmall(a);
      ReadZeros(m, a + 1, n - 1);
    }
  }

  lemma ReadLowByte(m: Bytes, a: nat, n: nat)
    requires 0 < n && a + n <= TWO64 && forall b: nat :: a < b < a + n ==> ByteAt(m, b) == 0
    ensures Read(m, a, n) == ByteAt(m, a)
  {
    WrapSmall(a);
    ReadZeros(m, a + 1, n - 1);
  }

  lemma {:induction false} ReadSame(m: Bytes, m': Bytes, a: nat, n: nat)
    requires a + n <= TWO64
    requires forall b :: a <= b < a + n ==> ByteAt(m', b) == ByteAt(m, b)
    ensures Read(m', a, n) == Read(m, a, n)
    decreases n
  {
    if n > 0 {
      assert Wrap(a) == a;
      ReadSame(m, m', a + 1, n - 1);
    }
  }

  lemma WrapSmall(a: nat)
    ensures a < TWO64 ==> Wrap(a) == a
  {
  }

  // ---- When the byte loops come to their end, and what they have then done ----

  /** Stores to the range neither fault nor hit the image. */
  predicate StorableRange(dst: nat, n: nat) {
    dst + n <= MAPPED_END && (dst + n <= IMAGE_START || IMAGE_END <= dst)
  }

  lemma {:induction false} CopyRunsIff(m: Bytes, src: u64, dst: u64, n: nat)
    ensures Copy(m, src, dst, n).1 <==> n == 0 || (src + n <= MAPPED_END && StorableRange(dst, n))
    decreases n
  {
    hide ByteAt, Wrap;
    if n > 0 && Mapped(src) && Storable(dst) {
      WrapSmall(src + 1);
      WrapSmall(dst + 1);
      CopyRunsIff(m[dst := ByteAt(m, src)], src + 1, dst + 1, n - 1);
    }
  }

  lemma {:induction false} ZeroRunsIff(m: Bytes, dst: u64, n: nat)
    ensures Zero(m, dst, n).1 <==> n == 0 || StorableRange(dst, n)
    decreases n
  {
    hide Wrap;
    if n > 0 && Storable(dst) {
      WrapSmall(dst + 1);
      ZeroRunsIff(m[dst := 0], dst + 1, n - 1);
    }
  }

  /** Where the byte copied to offset i comes from: a copy upwards over its own source repeats it. */
  function SourceOffset(src: nat, dst: nat, i: nat): nat {
    if src < dst then i % (dst - src) else i
  }

  lemma ModNext(i: nat, d: nat)
    requires d > 0
    ensures (i + 1) % d == if i % d == d - 1 then 0 else i % d + 1
  {
    var q, r := i / d, i % d;
    assert i + 1 == q * d + (r + 1);
    if r == d - 1 {
      assert (q + 1) * d == q * d + d;
      QuotientIs(i + 1, d, q + 1, 0);
    } else {
      QuotientIs(i + 1, d, q, r + 1);
    }
  }

  /** The value the rest of a copy reads at its source, in terms of the memory before the first byte. */
  lemma CopyShift(m: Bytes, m1: Bytes, src: nat, dst: nat, i: nat)
    requires forall b: nat :: ByteAt(m1, b) == if b == dst then ByteAt(m, src) else ByteAt(m, b)
    ensures ByteAt(m1, src + 1 + SourceOffset(src + 1, dst + 1, i)) == ByteAt(m, src + SourceOffset(src, dst, i + 1))
  {
    hide ByteAt;
    if src < dst {
      ModNext(i, dst - src);
    }
  }

  /** A copy that comes to its end, between any two ranges, overlapping or not. */
  lemma {:induction false} CopyMeans(m: Bytes, src: u64, dst: u64, n: nat, a: nat)
    requires Copy(m, src, dst, n).1
    ensures ByteAt(Copy(m, src, dst, n).0, a) ==
            if dst <= a < dst + n then ByteAt(m, src + SourceOffset(src, dst, a - dst)) else ByteAt(m, a)
    decreases n
  {
    hide Wrap, SourceOffset;
    if n > 0 {
      var m1 := m[dst := ByteAt(m, src)];
      assert forall b: nat :: ByteAt(m1, b) == if b == dst then ByteAt(m, src) else ByteAt(m, b);
      WrapSmall(src + 1);
      WrapSmall(dst + 1);
      CopyMeans(m1, src + 1, dst + 1, n - 1, a);
      if a == dst {
        FirstOffset(src, dst);
      } else if dst < a < dst + n {
        CopyShift(m, m1, src, dst, a - dst - 1);
      }
    }
  }

  lemma FirstOffset(src: nat, dst: nat)
    ensures SourceOffset(src, dst, 0) == 0
  {
  }

  lemma {:induction false} ZeroMeans(m: Bytes, dst: u64, n: nat, a: nat)
    requires Zero(m, dst, n).1
    ensures ByteAt(Zero(m, dst, n).0, a) == if dst <= a < dst + n then 0 else ByteAt(m, a)
    decreases n
  {
    hide Wrap;
    if n > 0 {
      var m1 := m[dst := 0];
      assert forall b: nat :: ByteAt(m1, b) == if b == dst then 0 else ByteAt(m, b);
      WrapSmall(dst + 1);
      ZeroMeans(m1, dst + 1, n - 1, a);
    }
  }

  // ---- Well-formed images ----

  /** The address of the k-th program header. */
  function HeaderAddress(m: Bytes, k: nat): nat {
    FirstHeader(m) + k * Stride(m)
  }

  function Segment(m: Bytes, k: nat): Header {
    HeaderAt(m, Wrap(HeaderAddress(m, k)))
  }

  predicate Loadable(m: Bytes, k: nat) {
    k < HeaderCount(m) && Segment(m, k).kind == PT_LOAD
  }

  /** Address a lies in the memory of the k-th segment. */
  predicate InSegment(m: Bytes, k: nat, a: nat) {
    Loadable(m, k) && Segment(m, k).paddr <= a < Segment(m, k).paddr + Segment(m, k).memsz
  }

  predicate InBootInfo(a: nat) {
    BOOT_INFO <= a < BOOT_INFO + BOOT_INFO_SIZE
  }

  predicate OnStack(a: nat) {
    STACK_LOW <= a < STACK_TOP
  }

  predicate InSlot(a: nat) {
    RETURN_SLOT <= a < STACK_TOP
  }

  /** Memory that the loader itself uses: its image with the page tables, the record for the kernel, its stack. */
  predicate LoaderOwned(a: nat) {
    InImage(a) || InBootInfo(a) || OnStack(a)
  }

  /**
   The file occupies `size` bytes of the buffer, below the stack, which hold its headers and every segment's
   file bytes; segments lie in mapped memory and overlap neither the buffer, nor the loader, nor each other.
   */
  ghost predicate WellFormed(m: Bytes, size: nat) {
    && KERNEL_BUFFER + size <= RETURN_SLOT
    && (forall k: nat :: k < HeaderCount(m) ==>
          KERNEL_BUFFER <= HeaderAddress(m, k) && HeaderAddress(m, k) + 0x38 <= KERNEL_BUFFER + size)
    && (forall k: nat :: Loadable(m, k) ==> SegmentFits(m, k, size))
    && (forall k: nat, a: nat :: InSegment(m, k, a) ==> !(KERNEL_BUFFER <= a < KERNEL_BUFFER + size) && !LoaderOwned(a))
    && (forall j: nat, k: nat, a: nat :: InSegment(m, j, a) && InSegment(m, k, a) ==> j == k)
  }

  predicate SegmentFits(m: Bytes, k: nat, size: nat) {
    var h := Segment(m, k);
    && h.filesz <= h.memsz
    && h.paddr + h.memsz <= MAPPED_END
    && h.offset + h.filesz <= size
  }

  /** What the loaded image should hold at an address of the k-th segment. */
  function Image(m: Bytes, k: nat, a: nat): u8 {
    var h := Segment(m, k);
    if h.paddr <= a < h.paddr + h.filesz then ByteAt(m, KERNEL_BUFFER + h.offset + (a - h.paddr)) else 0
  }

  /** Address a lies in none of the first `done` segments. */
  ghost predicate Untouched(m: Bytes, done: nat, a: nat) {
    forall k: nat :: k < done ==> !InSegment(m, k, a)
  }

  /** From start to end is the least range that holds the first `done` segments. */
  ghost predicate Spans(m0: Bytes, start: u64, end: u64, done: nat) {
    && (forall k: nat :: k < done && Loadable(m0, k) ==>
          start <= Segment(m0, k).paddr && Segment(m0, k).paddr + Segment(m0, k).memsz <= end)
    && (start == TWO64 - 1 || exists k: nat :: k < done && Loadable(m0, k) && Segment(m0, k).paddr == start)
    && (end == 0 || exists k: nat :: k < done && Loadable(m0, k) && Segment(m0, k).paddr + Segment(m0, k).memsz == end)
  }

  /** The first `done` headers have been dealt with. */
  ghost predicate LoadedUpTo(m0: Bytes, p: Progress, done: nat) {
    && p.running
    && (forall k: nat, a: nat :: k < done && InSegment(m0, k, a) ==> ByteAt(p.memory, a) == Image(m0, k, a))
    && (forall a: nat :: Untouched(m0, done, a) && !InSlot(a) ==> ByteAt(p.memory, a) == ByteAt(m0, a))
    && Spans(m0, p.start, p.end, done)
  }

  // ---- Calls ----

  lemma PushMeans(m: Bytes, returnTo: u64)
    ensures forall a: nat :: !InSlot(a) ==> ByteAt(Push(m, returnTo), a) == ByteAt(m, a)
    ensures Returns(Push(m, returnTo), returnTo)
  {
    hide ByteAt, Write, Read;
    forall a: nat | !InSlot(a)
      ensures ByteAt(Push(m, returnTo), a) == ByteAt(m, a)
    {
      WriteElsewhere(m, RETURN_SLOT, 8, returnTo, a);
    }
    assert Pow256(8) == TWO64;
    WriteThenRead(m, RETURN_SLOT, 8, returnTo);
  }

  lemma StillReturns(m: Bytes, m': Bytes, returnTo: u64)
    requires Returns(m, returnTo)
    requires forall a :: InSlot(a) ==> ByteAt(m', a) == ByteAt(m, a)
    ensures Returns(m', returnTo)
  {
    hide ByteAt, Read;
    ReadSame(m, m', RETURN_SLOT, 8);
  }

  // ---- One header ----

  /** The file buffer still holds the file. */
  ghost predicate BufferIntact(m0: Bytes, m: Bytes, size: nat) {
    forall a: nat :: KERNEL_BUFFER <= a < KERNEL_BUFFER + size ==> ByteAt(m, a) == ByteAt(m0, a)
  }

  lemma HeaderSame(m0: Bytes, m: Bytes, size: nat, a: u64)
    requires BufferIntact(m0, m, size) && KERNEL_BUFFER + size <= TWO64
    requires KERNEL_BUFFER <= a && a + 0x38 <= KERNEL_BUFFER + size
    ensures HeaderAt(m, a) == HeaderAt(m0, a)
    ensures Read64(m, a + 0x28) == Read64(m0, a + 0x28) && Read64(m, a + 0x20) == Read64(m0, a + 0x20)
  {
    hide ByteAt, Read;
    ReadSame(m0, m, a, 4);
    ReadSame(m0, m, a + 0x08, 8);
    ReadSame(m0, m, a + 0x18, 8);
    ReadSame(m0, m, a + 0x20, 8);
    ReadSame(m0, m, a + 0x28, 8);
  }

  lemma HeaderInBuffer(m0: Bytes, size: nat, k: nat)
    requires WellFormed(m0, size) && k < HeaderCount(m0)
    ensures var a := HeaderAddress(m0, k);
            KERNEL_BUFFER <= a && a + 0x38 <= KERNEL_BUFFER + size <= RETURN_SLOT && Wrap(a) == a
  {
    hide HeaderAddress, HeaderCount, InSegment, Loadable, SegmentFits, Wrap;
    WrapSmall(HeaderAddress(m0, k));
  }

  /** The sizes and ranges of a segment: its copy is apart from its source, and its stores are harmless. */
  lemma SegmentRanges(m0: Bytes, size: nat, k: nat)
    requires WellFormed(m0, size) && Loadable(m0, k)
    ensures var h := Segment(m0, k);
            var src := KERNEL_BUFFER + h.offset;
            && h.filesz <= h.memsz && h.paddr + h.memsz <= MAPPED_END && src + h.filesz <= KERNEL_BUFFER + size <= RETURN_SLOT
            && (h.filesz > 0 ==> src + h.filesz <= h.paddr || h.paddr + h.filesz <= src)
            && (h.memsz > 0 ==> StorableRange(h.paddr, h.memsz))
  {
    hide Segment, HeaderAddress;
    var h := Segment(m0, k);
    var src := KERNEL_BUFFER + h.offset;
    assert SegmentFits(m0, k, size);
    var common := if src < h.paddr then h.paddr else src;
    assert KERNEL_BUFFER <= common < KERNEL_BUFFER + size ==> !InSegment(m0, k, common);
    var low := if IMAGE_START < h.paddr then h.paddr else IMAGE_START;
    assert InImage(low) ==> !InSegment(m0, k, low);
  }

  lemma ApartOffset(src: nat, dst: nat, n: nat, i: nat)
    requires i < n && (src + n <= dst || dst + n <= src)
    ensures SourceOffset(src, dst, i) == i
  {
  }

  lemma CopiedSegment(m0: Bytes, m: Bytes, size: nat, k: nat, a: nat)
    requires WellFormed(m0, size) && Loadable(m0, k) && BufferIntact(m0, m, size)
    ensures var h := Segment(m0, k);
            var (m', ok) := Copy(m, Wrap(KERNEL_BUFFER + h.offset), h.paddr, h.filesz);
            && ok
            && ByteAt(m', a) == if h.paddr <= a < h.paddr + h.filesz then Image(m0, k, a) else ByteAt(m, a)
  {
    hide Segment, HeaderAddress, Loadable, ByteAt, Wrap, HeaderCount, InSegment, WellFormed, Copy, SourceOffset;
    var h := Segment(m0, k);
    var src := KERNEL_BUFFER + h.offset;
    SegmentRanges(m0, size, k);
    WrapSmall(src);
    CopyRunsIff(m, src, h.paddr, h.filesz);
    CopyMeans(m, src, h.paddr, h.filesz, a);
    if h.paddr <= a < h.paddr + h.filesz {
      ApartOffset(src, h.paddr, h.filesz, a - h.paddr);
    }
  }

  /** Memory part-way through a segment: its first n bytes are loaded and, the return address apart, nothing else differs. */
  ghost predicate PartLoaded(m0: Bytes, m: Bytes, m': Bytes, k: nat, n: nat) {
    forall a: nat :: !InSlot(a) ==>
      ByteAt(m', a) == if Segment(m0, k).paddr <= a < Segment(m0, k).paddr + n then Image(m0, k, a) else ByteAt(m, a)
  }

  lemma PartKeepsBuffer(m0: Bytes, m: Bytes, m': Bytes, size: nat, k: nat)
    requires WellFormed(m0, size) && Loadable(m0, k) && BufferIntact(m0, m, size)
    requires PartLoaded(m0, m, m', k, Segment(m0, k).filesz)
    ensures BufferIntact(m0, m', size)
  {
    hide ByteAt, Segment, HeaderAddress, Image;
    assert SegmentFits(m0, k, size);
    forall a: nat | KERNEL_BUFFER <= a < KERNEL_BUFFER + size
      ensures ByteAt(m', a) == ByteAt(m0, a)
    {
      assert !InSegment(m0, k, a);
    }
  }

  lemma NotInSlot(m0: Bytes, size: nat, k: nat, a: nat)
    requires WellFormed(m0, size) && Loadable(m0, k) && InSlot(a)
    ensures !(Segment(m0, k).paddr <= a < Segment(m0, k).paddr + Segment(m0, k).memsz)
  {
    hide Segment, HeaderAddress;
    assert OnStack(a) && LoaderOwned(a);
    assert InSegment(m0, k, a) ==> !LoaderOwned(a);
  }

  /** The call of `memory_copy` comes back, with the file bytes of the segment in place. */
  lemma CopyCall(m0: Bytes, m: Bytes, size: nat, k: nat, returnTo: u64)
    requires WellFormed(m0, size) && Loadable(m0, k) && BufferIntact(m0, m, size)
    ensures var h := Segment(m0, k);
            var (m', ok) := Copy(Push(m, returnTo), Wrap(KERNEL_BUFFER + h.offset), h.paddr, h.filesz);
            ok && Returns(m', returnTo) && PartLoaded(m0, m, m', k, h.filesz)
  {
    hide Copy, ByteAt, Segment, HeaderAddress, Wrap, Push, Returns, WellFormed, Image;
    var h := Segment(m0, k);
    var m1 := Push(m, returnTo);
    PushMeans(m, returnTo);
    SegmentRanges(m0, size, k);
    assert BufferIntact(m0, m1, size);
    var m' := Copy(m1, Wrap(KERNEL_BUFFER + h.offset), h.paddr, h.filesz).0;
    CopiedSegment(m0, m1, size, k, 0);
    forall a: nat
      ensures ByteAt(m', a) == if h.paddr <= a < h.paddr + h.filesz then Image(m0, k, a) else ByteAt(m1, a)
    {
      CopiedSegment(m0, m1, size, k, a);
    }
    forall a | InSlot(a)
      ensures ByteAt(m', a) == ByteAt(m1, a)
    {
      NotInSlot(m0, size, k, a);
    }
    StillReturns(m1, m', returnTo);
  }

  /** The call of `memory_zero` comes back, with the rest of the segment zeroed. */
  lemma ZeroCall(m0: Bytes, m: Bytes, m1: Bytes, size: nat, k: nat, returnTo: u64)
    requires WellFormed(m0, size) && Loadable(m0, k) && PartLoaded(m0, m, m1, k, Segment(m0, k).filesz)
    ensures Segment(m0, k).filesz <= Segment(m0, k).memsz && Segment(m0, k).paddr + Segment(m0, k).filesz < TWO64
    ensures var h := Segment(m0, k);
            var (m', ok) := Zero(Push(m1, returnTo), h.paddr + h.filesz, h.memsz - h.filesz);
            ok && Returns(m', returnTo) && PartLoaded(m0, m, m', k, h.memsz)
  {
    hide Zero, ByteAt, Segment, HeaderAddress, Push, Returns, WellFormed, Loadable;
    var h := Segment(m0, k);
    var m2 := Push(m1, returnTo);
    PushMeans(m1, returnTo);
    SegmentRanges(m0, size, k);
    var n := h.memsz - h.filesz;
    var m' := Zero(m2, h.paddr + h.filesz, n).0;
    ZeroRunsIff(m2, h.paddr + h.filesz, n);
    forall a: nat
      ensures ByteAt(m', a) == if h.paddr + h.filesz <= a < h.paddr + h.memsz then 0 else ByteAt(m2, a)
    {
      ZeroMeans(m2, h.paddr + h.filesz, n, a);
    }
    forall a | InSlot(a)
      ensures ByteAt(m', a) == ByteAt(m2, a)
    {
      NotInSlot(m0, size, k, a);
    }
    StillReturns(m2, m', returnTo);
  }

  /**
   Loading one segment comes to its end, writes the segment's image into its memory and, the return
   address apart, touches nothing else.
   */
  lemma LoadSegmentMeans(m0: Bytes, m: Bytes, size: nat, k: nat, site: Site)
    requires WellFormed(m0, size) && Loadable(m0, k) && BufferIntact(m0, m, size)
    ensures var (m', ok) := LoadSegment(m, Wrap(HeaderAddress(m0, k)), site);
            ok && PartLoaded(m0, m, m', k, Segment(m0, k).memsz)
  {
    hide Copy, Zero, Read64, ByteAt, HeaderAt, HeaderAddress, Wrap, Push, Returns, PartLoaded, WellFormed, BufferIntact;
    var h := Segment(m0, k);
    var at := Wrap(HeaderAddress(m0, k));
    HeaderSeen(m0, size, m, k);
    CopyCall(m0, m, size, k, site.copyReturn);
    var m1 := Copy(Push(m, site.copyReturn), Wrap(KERNEL_BUFFER + h.offset), h.paddr, h.filesz).0;
    PartKeepsBuffer(m0, m, m1, size, k);
    ZeroCall(m0, m, m1, size, k, site.zeroReturn);
    SizesSeen(m0, size, m1, k);
    WrapSmall(h.paddr + h.filesz);
    WrapSmall(h.memsz - h.filesz);
  }

  /** With an intact buffer, the loop sees the header that the file holds. */
  lemma HeaderSeen(m0: Bytes, size: nat, m: Bytes, k: nat)
    requires WellFormed(m0, size) && k < HeaderCount(m0) && BufferIntact(m0, m, size)
    ensures HeaderAt(m, Wrap(HeaderAddress(m0, k))) == Segment(m0, k)
    ensures Wrap(HeaderAddress(m0, k)) + 0x38 <= MAPPED_END
    ensures Loadable(m0, k) <==> Segment(m0, k).kind == PT_LOAD
    ensures Loadable(m0, k) ==> Segment(m0, k).paddr + Segment(m0, k).memsz <= MAPPED_END
  {
    hide HeaderAt, HeaderAddress, HeaderCount, Wrap, BufferIntact;
    HeaderInBuffer(m0, size, k);
    HeaderSame(m0, m, size, Wrap(HeaderAddress(m0, k)));
    assert Loadable(m0, k) ==> SegmentFits(m0, k, size);
  }

  lemma SizesSeen(m0: Bytes, size: nat, m: Bytes, k: nat)
    requires WellFormed(m0, size) && k < HeaderCount(m0) && BufferIntact(m0, m, size)
    ensures var a := Wrap(HeaderAddress(m0, k));
            Read64(m, a + 0x28) == Segment(m0, k).memsz && Read64(m, a + 0x20) == Segment(m0, k).filesz
  {
    hide Read64, HeaderAddress, HeaderCount, Wrap, BufferIntact, WellFormed;
    HeaderInBuffer(m0, size, k);
    HeaderSame(m0, m, size, Wrap(HeaderAddress(m0, k)));
  }

  lemma LoadedKeepsBuffer(m0: Bytes, size: nat, p: Progress, done: nat)
    requires WellFormed(m0, size) && LoadedUpTo(m0, p, done)
    ensures BufferIntact(m0, p.memory, size)
  {
    hide ByteAt, Segment, HeaderAddress, Spans;
    forall a: nat | KERNEL_BUFFER <= a < KERNEL_BUFFER + size
      ensures ByteAt(p.memory, a) == ByteAt(m0, a)
    {
      assert Untouched(m0, done, a);
    }
  }

  lemma HeaderStep(m0: Bytes, size: nat, p: Progress, done: nat, site: Site)
    requires WellFormed(m0, size) && done < HeaderCount(m0) && LoadedUpTo(m0, p, done)
    ensures LoadedUpTo(m0, LoadHeader(p, Wrap(HeaderAddress(m0, done)), site), done + 1)
  {
    hide ByteAt, HeaderAt, HeaderAddress, LoadSegment, Image, WellFormed, Segment, BufferIntact, InSegment, Loadable, Wrap,
      HeaderCount, Spans, PartLoaded;
    var at := Wrap(HeaderAddress(m0, done));
    LoadedKeepsBuffer(m0, size, p, done);
    HeaderSeen(m0, size, p.memory, done);
    var p' := LoadHeader(p, at, site);
    if Loadable(m0, done) {
      WrapSmall(Segment(m0, done).paddr + Segment(m0, done).memsz);
      LoadSegmentMeans(m0, p.memory, size, done, site);
      HeaderMemory(m0, size, p, p', done);
      HeaderExtent(m0, p.start, p.end, p'.start, p'.end, done);
    } else {
      SkippedHeader(m0, p, done);
    }
  }

  lemma SkippedHeader(m0: Bytes, p: Progress, done: nat)
    requires LoadedUpTo(m0, p, done) && !Loadable(m0, done)
    ensures LoadedUpTo(m0, p, done + 1)
  {
    hide ByteAt, Segment, Image, Spans;
    forall a: nat | Untouched(m0, done + 1, a) && !InSlot(a)
      ensures ByteAt(p.memory, a) == ByteAt(m0, a)
    {
      assert Untouched(m0, done, a);
    }
    SkippedExtent(m0, p.start, p.end, done);
  }

  lemma SkippedExtent(m0: Bytes, start: u64, end: u64, done: nat)
    requires Spans(m0, start, end, done) && !Loadable(m0, done)
    ensures Spans(m0, start, end, done + 1)
  {
    hide Segment, HeaderCount;
    if start != TWO64 - 1 {
      var k: nat :| k < done && Loadable(m0, k) && Segment(m0, k).paddr == start;
      assert k < done + 1 && Loadable(m0, k) && Segment(m0, k).paddr == start;
    }
    if end != 0 {
      var k: nat :| k < done && Loadable(m0, k) && Segment(m0, k).paddr + Segment(m0, k).memsz == end;
      assert k < done + 1 && Loadable(m0, k) && Segment(m0, k).paddr + Segment(m0, k).memsz == end;
    }
  }

  lemma HeaderMemory(m0: Bytes, size: nat, p: Progress, p': Progress, done: nat)
    requires WellFormed(m0, size) && LoadedUpTo(m0, p, done) && Loadable(m0, done)
    requires PartLoaded(m0, p.memory, p'.memory, done, Segment(m0, done).memsz)
    ensures forall k: nat, a: nat :: k < done + 1 && InSegment(m0, k, a) ==> ByteAt(p'.memory, a) == Image(m0, k, a)
    ensures forall a: nat :: Untouched(m0, done + 1, a) && !InSlot(a) ==> ByteAt(p'.memory, a) == ByteAt(m0, a)
  {
    hide ByteAt, Image, Spans, HeaderAddress, Segment;
    forall k: nat, a: nat | k < done + 1 && InSegment(m0, k, a)
      ensures ByteAt(p'.memory, a) == Image(m0, k, a)
    {
      assert !LoaderOwned(a);
      assert InSegment(m0, done, a) ==> k == done;
    }
    forall a: nat | Untouched(m0, done + 1, a) && !InSlot(a)
      ensures ByteAt(p'.memory, a) == ByteAt(m0, a)
    {
      assert !InSegment(m0, done, a);
      assert Untouched(m0, done, a);
    }
  }

  lemma HeaderExtent(m0: Bytes, start: u64, end: u64, start': u64, end': u64, done: nat)
    requires Spans(m0, start, end, done) && Loadable(m0, done)
    requires var h := Segment(m0, done);
             && start' == (if h.paddr < start then h.paddr else start)
             && end' == (if h.paddr + h.memsz > end then h.paddr + h.memsz else end)
    ensures Spans(m0, start', end', done + 1)
  {
    hide Loadable, Segment;
    if start' == start && start != TWO64 - 1 {
      var k: nat :| k < done && Loadable(m0, k) && Segment(m0, k).paddr == start;
      assert k < done + 1 && Loadable(m0, k) && Segment(m0, k).paddr == start';
    } else if start' != start {
      assert Loadable(m0, done) && Segment(m0, done).paddr == start';
    }
    if end' == end && end != 0 {
      var k: nat :| k < done && Loadable(m0, k) && Segment(m0, k).paddr + Segment(m0, k).memsz == end;
      assert k < done + 1 && Loadable(m0, k) && Segment(m0, k).paddr + Segment(m0, k).memsz == end';
    } else if end' != end {
      assert Loadable(m0, done) && Segment(m0, done).paddr + Segment(m0, done).memsz == end';
    }
  }

  lemma {:induction false} HeadersLoaded(m0: Bytes, size: nat, p: Progress, done: nat, site: Site)
    requires WellFormed(m0, size) && done <= HeaderCount(m0) && LoadedUpTo(m0, p, done)
    ensures LoadedUpTo(m0, LoadHeaders(p, Wrap(HeaderAddress(m0, done)), Stride(m0), done, HeaderCount(m0), site), HeaderCount(m0))
    decreases HeaderCount(m0) - done
  {
    hide WellFormed, LoadHeader, HeaderCount, Stride, FirstHeader, Spans, Untouched, InSegment, Image, ByteAt;
    if done < HeaderCount(m0) {
      HeaderStep(m0, size, p, done, site);
      var p' := LoadHeader(p, Wrap(HeaderAddress(m0, done)), site);
      NextAddress(m0, done);
      HeadersLoaded(m0, size, p', done + 1, site);
    }
  }

  lemma NextAddress(m0: Bytes, k: nat)
    ensures Wrap(Wrap(HeaderAddress(m0, k)) + Stride(m0)) == Wrap(HeaderAddress(m0, k + 1))
  {
    hide FirstHeader, Stride;
    assert (k + 1) * Stride(m0) == k * Stride(m0) + Stride(m0);
    WrapSum(HeaderAddress(m0, k), Stride(m0));
  }

  lemma WrapSum(a: nat, b: nat)
    ensures Wrap(Wrap(a) + b) == Wrap(a + b)
  {
    assert a == a / TWO64 * TWO64 + a % TWO64;
    var c := a % TWO64 + b;
    assert a + b == c + a / TWO64 * TWO64;
    ModShift(c, a / TWO64);
  }

  lemma {:induction false} ModShift(c: nat, q: nat)
    ensures (c + q * TWO64) % TWO64 == c % TWO64
  {
    if q > 0 {
      ModShift(c, q - 1);
      assert c + q * TWO64 == (c + (q - 1) * TWO64) + TWO64;
    }
  }

  // ---- The hand-over ----

  /** What the kernel reads from the record. */
  ghost predicate BootInfoHolds(m: Bytes, site: Site, start: u64, end: u64) {
    && Read64(m, BOOT_INFO) == BOOT_MAGIC
    && Read(m, BOOT_INFO + 0x08, 4) == 2
    && Read(m, BOOT_INFO + 0x0C, 4) == BOOT_INFO_SIZE
    && Read64(m, BOOT_INFO + 0x10) == site.bootDrive
    && Read64(m, BOOT_INFO + 0x18) == start
    && Read64(m, BOOT_INFO + 0x20) == end
    && Read64(m, BOOT_INFO + 0x28) == MEMORY_MAP
    && Read(m, BOOT_INFO + 0x30, 4) == site.mapCount
    && Read(m, BOOT_INFO + 0x34, 4) == 24
    && Read64(m, BOOT_INFO + 0x38) == 0
  }

  lemma WriteAgrees(m: Bytes, a: nat, n: nat, v: nat)
    ensures forall b: nat :: b < a || a + n <= b ==> ByteAt(Write(m, a, n, v), b) == ByteAt(m, b)
  {
    hide Write, ByteAt;
    forall b: nat | b < a || a + n <= b
      ensures ByteAt(Write(m, a, n, v), b) == ByteAt(m, b)
    {
      WriteElsewhere(m, a, n, v, b);
    }
  }

  /** A value that is stored and then left alone is read back. */
  lemma StoredAndKept(m: Bytes, a: nat, n: nat, v: nat, m': Bytes)
    requires a + n <= TWO64 && v < Pow256(n)
    requires forall b: nat :: a <= b < a + n ==> ByteAt(m', b) == ByteAt(Write(m, a, n, v), b)
    ensures Read(m', a, n) == v
  {
    hide Write, ByteAt;
    WriteThenRead(m, a, n, v);
    ReadSame(Write(m, a, n, v), m', a, n);
  }

  lemma Powers()
    ensures Pow256(1) == 256 && Pow256(4) == TWO32 && Pow256(8) == TWO64
  {
    assert Pow256(2) == 0x1_0000;
    assert Pow256(4) == 256 * (256 * Pow256(2));
    assert Pow256(6) == 256 * (256 * Pow256(4));
    assert Pow256(8) == 256 * (256 * Pow256(6));
  }

  /** The record reads back as it was written, and only it and the stack have changed. */
  lemma HandOver(m: Bytes, site: Site, start: u64, end: u64)
    ensures var m' := Print(WriteBootInfo(m, site, start, end), site);
            && BootInfoHolds(m', site, start, end)
            && (forall a: nat :: !InBootInfo(a) && !OnStack(a) ==> ByteAt(m', a) == ByteAt(m, a))
  {
    hide Write, ByteAt, Read, Pow256;
    Powers();
    var m1 := Write(m, BOOT_INFO, 8, BOOT_MAGIC);
    var m2 := Write(m1, BOOT_INFO + 0x08, 4, 2);
    var m3 := Write(m2, BOOT_INFO + 0x0C, 4, BOOT_INFO_SIZE);
    var m4 := Write(m3, BOOT_INFO + 0x10, 8, 0);
    var m5 := Write(m4, BOOT_INFO + 0x10, 1, site.bootDrive);
    var m6 := Write(m5, BOOT_INFO + 0x18, 8, start);
    var m7 := Write(m6, BOOT_INFO + 0x20, 8, end);
    var m8 := Write(m7, BOOT_INFO + 0x28, 8, MEMORY_MAP);
    var m9 := Write(m8, BOOT_INFO + 0x30, 4, site.mapCount);
    var m10 := Write(m9, BOOT_INFO + 0x34, 4, 24);
    var m11 := Write(m10, BOOT_INFO + 0x38, 8, 0);
    var m' := Write(m11, STACK_LOW, 32, site.leftover);
    WriteAgrees(m, BOOT_INFO, 8, BOOT_MAGIC);
    WriteAgrees(m1, BOOT_INFO + 0x08, 4, 2);
    WriteAgrees(m2, BOOT_INFO + 0x0C, 4, BOOT_INFO_SIZE);
    WriteAgrees(m3, BOOT_INFO + 0x10, 8, 0);
    WriteAgrees(m4, BOOT_INFO + 0x10, 1, site.bootDrive);
    WriteAgrees(m5, BOOT_INFO + 0x18, 8, start);
    WriteAgrees(m6, BOOT_INFO + 0x20, 8, end);
    WriteAgrees(m7, BOOT_INFO + 0x28, 8, MEMORY_MAP);
    WriteAgrees(m8, BOOT_INFO + 0x30, 4, site.mapCount);
    WriteAgrees(m9, BOOT_INFO + 0x34, 4, 24);
    WriteAgrees(m10, BOOT_INFO + 0x38, 8, 0);
    WriteAgrees(m11, STACK_LOW, 32, site.leftover);
    StoredAndKept(m, BOOT_INFO, 8, BOOT_MAGIC, m');
    StoredAndKept(m1, BOOT_INFO + 0x08, 4, 2, m');
    StoredAndKept(m2, BOOT_INFO + 0x0C, 4, BOOT_INFO_SIZE, m');
    DriveStored(m3, site.bootDrive, m');
    StoredAndKept(m5, BOOT_INFO + 0x18, 8, start, m');
    StoredAndKept(m6, BOOT_INFO + 0x20, 8, end, m');
    StoredAndKept(m7, BOOT_INFO + 0x28, 8, MEMORY_MAP, m');
    StoredAndKept(m8, BOOT_INFO + 0x30, 4, site.mapCount, m');
    StoredAndKept(m9, BOOT_INFO + 0x34, 4, 24, m');
    StoredAndKept(m10, BOOT_INFO + 0x38, 8, 0, m');
  }

  lemma {:induction false} ZeroStored(m: Bytes, a: nat, n: nat, b: nat)
    requires a <= b < a + n
    ensures ByteAt(Write(m, a, n, 0), b) == 0
    decreases n
  {
    if b == a {
      WriteElsewhere(m[a := 0], a + 1, n - 1, 0, a);
    } else {
      ZeroStored(m[a := 0], a + 1, n - 1, b);
    }
  }

  /** The drive is one byte in a word that was zeroed first. */
  lemma DriveStored(m: Bytes, drive: u8, m': Bytes)
    requires forall b: nat :: BOOT_INFO + 0x10 <= b < BOOT_INFO + 0x18 ==>
               ByteAt(m', b) == ByteAt(Write(Write(m, BOOT_INFO + 0x10, 8, 0), BOOT_INFO + 0x10, 1, drive), b)
    ensures Read64(m', BOOT_INFO + 0x10) == drive
  {
    hide Read;
    var m1 := Write(m, BOOT_INFO + 0x10, 8, 0);
    assert Write(m1, BOOT_INFO + 0x10, 1, drive) == m1[BOOT_INFO + 0x10 := drive];
    hide Write;
    forall b: nat | BOOT_INFO + 0x10 < b < BOOT_INFO + 0x18
      ensures ByteAt(m', b) == 0
    {
      ZeroStored(m, BOOT_INFO + 0x10, 8, b);
    }
    ReadLowByte(m', BOOT_INFO + 0x10, 8);
  }

  /** Memory as the kernel finds it. */
  ghost predicate KernelInPlace(m: Bytes, m': Bytes, site: Site) {
    var start, end := Read64(m', BOOT_INFO + 0x18), Read64(m', BOOT_INFO + 0x20);
    && (forall k: nat, a: nat :: InSegment(m, k, a) ==> ByteAt(m', a) == Image(m, k, a))
    && (forall a: nat :: Untouched(m, HeaderCount(m), a) && !InBootInfo(a) && !OnStack(a) ==> ByteAt(m', a) == ByteAt(m, a))
    && BootInfoHolds(m', site, start, end)
    && Spans(m, start, end, HeaderCount(m))
  }

  lemma LoadedAndHandedOver(m: Bytes, size: nat, p: Progress, site: Site)
    requires WellFormed(m, size) && LoadedUpTo(m, p, HeaderCount(m))
    ensures KernelInPlace(m, Print(WriteBootInfo(p.memory, site, p.start, p.end), site), site)
  {
    hide ByteAt, Read64, Image, Spans, WriteBootInfo, Print, Segment, HeaderAddress, HeaderCount, BootInfoHolds;
    var m' := Print(WriteBootInfo(p.memory, site, p.start, p.end), site);
    HandOver(p.memory, site, p.start, p.end);
    ExtentRead(m', site, p.start, p.end);
    forall k: nat, a: nat | InSegment(m, k, a)
      ensures ByteAt(m', a) == Image(m, k, a)
    {
      assert !LoaderOwned(a);
    }
  }

  lemma ExtentRead(m: Bytes, site: Site, start: u64, end: u64)
    requires BootInfoHolds(m, site, start, end)
    ensures Read64(m, BOOT_INFO + 0x18) == start && Read64(m, BOOT_INFO + 0x20) == end
  {
  }

  /**
   For every well-formed ELF64 image the loader reaches the kernel's entry point. Each segment's file bytes,
   followed by zeros, are then at its physical address, the record for the kernel holds the tight extent of the
   segments, and no byte outside the segments, the record and the loader's stack has changed.
   */
  lemma LoadSpec(m: Bytes, size: nat, site: Site)
    requires IsElf64(m) && WellFormed(m, size)
    ensures Load(m, site).1 == Started(Read64(m, KERNEL_BUFFER + 0x18))
    ensures KernelInPlace(m, Load(m, site).0, site)
  {
    hide IsElf64, WellFormed, Read, Read64, HeaderCount, Stride, FirstHeader, KernelInPlace, WriteBootInfo, Print, Spans,
      InSegment, Image, LoadHeaders;
    var p := Progress(m, TWO64 - 1, 0, true);
    assert LoadedUpTo(m, p, 0) by { NothingLoaded(m); }
    HeadersLoaded(m, size, p, 0, site);
    assert Wrap(HeaderAddress(m, 0)) == FirstHeader(m);
    LoadedAndHandedOver(m, size, LoadHeaders(p, FirstHeader(m), Stride(m), 0, HeaderCount(m), site), site);
  }

  lemma NothingLoaded(m: Bytes)
    ensures Spans(m, TWO64 - 1, 0, 0)
  {
  }

  /**
   A segment is loaded only where its source is mapped and its stores are harmless, and only if both calls
   found their return address where they had left it, whatever the image.
   */
  lemma SegmentRunsOnlyIf(m: Bytes, a: u64, site: Site)
    ensures var h := HeaderAt(m, a);
            var src := Wrap(KERNEL_BUFFER + h.offset);
            LoadSegment(m, a, site).1 ==>
              && (h.filesz > 0 ==> src + h.filesz <= 0x20_0000 && StorableRange(h.paddr, h.filesz))
              && Read64(Copy(Push(m, site.copyReturn), src, h.paddr, h.filesz).0, 0x8_FFF8) == site.copyReturn
              && Read64(LoadSegment(m, a, site).0, 0x8_FFF8) == site.zeroReturn
  {
    hide HeaderAt, Copy, Zero, Wrap, Push, Read64;
    var h := HeaderAt(m, a);
    CopyRunsIff(Push(m, site.copyReturn), Wrap(KERNEL_BUFFER + h.offset), h.paddr, h.filesz);
  }

  /**
   What loading a segment does in any image, once it comes to its end: the sizes are read again after the copy,
   and that many bytes are zeroed behind the copied ones.
   */
  lemma SegmentEffect(m: Bytes, a: u64, site: Site, b: nat)
    ensures var h := HeaderAt(m, a);
            var m1 := Copy(Push(m, site.copyReturn), Wrap(KERNEL_BUFFER + h.offset), h.paddr, h.filesz).0;
            var from := (h.paddr + h.filesz) % TWO64;
            var rest := (Read64(m1, a + 0x28) - Read64(m1, a + 0x20)) % TWO64;
            LoadSegment(m, a, site).1 && !InSlot(b) ==>
              && (rest > 0 ==> StorableRange(from, rest))
              && ByteAt(LoadSegment(m, a, site).0, b) == if from <= b < from + rest then 0 else ByteAt(m1, b)
  {
    hide HeaderAt, Copy, Zero, Push, Returns, Read64, ByteAt;
    var h := HeaderAt(m, a);
    var m1 := Copy(Push(m, site.copyReturn), Wrap(KERNEL_BUFFER + h.offset), h.paddr, h.filesz).0;
    var rest := Wrap(Read64(m1, a + 0x28) - Read64(m1, a + 0x20));
    var m2 := Push(m1, site.zeroReturn);
    PushMeans(m1, site.zeroReturn);
    ZeroRunsIff(m2, Wrap(h.paddr + h.filesz), rest);
    if LoadSegment(m, a, site).1 {
      ZeroMeans(m2, Wrap(h.paddr + h.filesz), rest, b);
    }
  }

  /** The loop goes on past a header only if it could read it; it skips what is not loadable and loads the rest. */
  lemma HeaderRunsOnlyIf(p: Progress, a: u64, site: Site)
    ensures LoadHeader(p, a, site).running ==>
              && a + 4 <= 0x20_0000
              && (Read(p.memory, a, 4) != 1 ==> LoadHeader(p, a, site) == p)
              && (Read(p.memory, a, 4) == 1 ==>
                    && a + 0x30 <= 0x20_0000 && LoadSegment(p.memory, a, site).1
                    && LoadHeader(p, a, site).memory == LoadSegment(p.memory, a, site).0)
  {
    hide LoadSegment, Read, Read64, Wrap;
  }

  lemma {:induction false} HeadersRunOnlyIf(p: Progress, a: u64, stride: nat, done: nat, count: nat, site: Site, k: nat)
    requires done <= k < count
    ensures LoadHeaders(p, a, stride, done, count, site).running ==> Wrap(a + (k - done) * stride) + 4 <= 0x20_0000
    decreases k - done
  {
    hide LoadHeader, Wrap;
    var p' := LoadHeader(p, a, site);
    StoppedStays(p', Wrap(a + stride), stride, done + 1, count, site);
    HeaderRunsOnlyIf(p, a, site);
    if k == done {
      WrapSmall(a);
    } else {
      HeadersRunOnlyIf(p', Wrap(a + stride), stride, done + 1, count, site, k);
      StrideStep(a, stride, k - done);
    }
  }

  lemma StrideStep(a: nat, stride: nat, j: nat)
    requires j > 0
    ensures Wrap(Wrap(a + stride) + (j - 1) * stride) == Wrap(a + j * stride)
  {
    hide Wrap;
    assert stride + (j - 1) * stride == j * stride;
    WrapSum(a + stride, (j - 1) * stride);
  }

  lemma StoppedStays(p: Progress, a: u64, stride: nat, done: nat, count: nat, site: Site)
    requires done <= count
    ensures LoadHeaders(p, a, stride, done, count, site).running ==> p.running
  {
  }

  /** Whatever the image, the kernel is started only if every program header can be read. */
  lemma StartedOnlyIf(m: Bytes, site: Site, k: nat)
    ensures Load(m, site).1.Started? && k < HeaderCount(m) ==> Wrap(HeaderAddress(m, k)) + 4 <= 0x20_0000
  {
    hide LoadHeaders, HeaderCount, Stride, FirstHeader, IsElf64, Wrap, Read64, WriteBootInfo, Print;
    if k < HeaderCount(m) {
      HeadersRunOnlyIf(Progress(m, TWO64 - 1, 0, true), FirstHeader(m), Stride(m), 0, HeaderCount(m), site, k);
    }
  }

  // ---- The file format ----

  /** The first six bytes of a little-endian 64-bit ELF file. */
  predicate HasElf64Mark(m: Bytes) {
    && ByteAt(m, 0x2_0000) == 0x7F
    && ByteAt(m, 0x2_0001) == 0x45 && ByteAt(m, 0x2_0002) == 0x4C && ByteAt(m, 0x2_0003) == 0x46
    && ByteAt(m, 0x2_0004) == 2
    && ByteAt(m, 0x2_0005) == 1
  }

  lemma ReadFour(m: Bytes, a: nat)
    requires a + 4 <= TWO64
    ensures Read(m, a, 4) ==
            ByteAt(m, a) as int + 256 * (ByteAt(m, a + 1) as int + 256 * (ByteAt(m, a + 2) as int + 256 * (ByteAt(m, a + 3) as int)))
  {
    hide ByteAt, Wrap;
    WrapSmall(a);
    WrapSmall(a + 1);
    WrapSmall(a + 2);
    WrapSmall(a + 3);
    assert Read(m, a + 4, 0) == 0;
    assert Read(m, a + 3, 1) == ByteAt(m, a + 3);
    assert Read(m, a + 1, 3) == ByteAt(m, a + 1) + 256 * Read(m, a + 2, 2);
  }

  lemma MagicBytes(b0: int, b1: int, b2: int, b3: int)
    requires 0 <= b0 < 256 && 0 <= b1 < 256 && 0 <= b2 < 256 && 0 <= b3 < 256
    ensures b0 + 256 * (b1 + 256 * (b2 + 256 * b3)) == 0x464C_457F <==> b0 == 0x7F && b1 == 0x45 && b2 == 0x4C && b3 == 0x46
  {
  }

  lemma MagicMeans(m: Bytes)
    ensures IsElf64(m) <==> HasElf64Mark(m)
  {
    hide ByteAt, Read;
    ReadFour(m, 0x2_0000);
    MagicBytes(ByteAt(m, 0x2_0000), ByteAt(m, 0x2_0001), ByteAt(m, 0x2_0002), ByteAt(m, 0x2_0003));
  }

  /** A file is refused exactly when one of its first six bytes is wrong, and then only the stack is touched. */
  lemma RefusedIff(m: Bytes, site: Site)
    ensures Load(m, site).1 == Refused <==> !HasElf64Mark(m)
    ensures Load(m, site).1 == Refused ==> forall a: nat :: !OnStack(a) ==> ByteAt(Load(m, site).0, a) == ByteAt(m, a)
  {
    hide IsElf64, HasElf64Mark, Write, ByteAt, Read64, LoadHeaders, WriteBootInfo, HeaderCount, Stride, FirstHeader;
    MagicMeans(m);
    WriteAgrees(m, STACK_LOW, 32, site.leftover);
  }

  /** A program header laid out as Elf64_Phdr in chapter 5 of the System V ABI. */
  function WriteProgramHeader(m: Bytes, a: nat, h: Header, flags: u32, vaddr: u64, align: u64): Bytes {
    var m1 := Write(m, a, 4, h.kind);
    var m2 := Write(m1, a + 4, 4, flags);
    var m3 := Write(m2, a + 8, 8, h.offset);
    var m4 := Write(m3, a + 16, 8, vaddr);
    var m5 := Write(m4, a + 24, 8, h.paddr);
    var m6 := Write(m5, a + 32, 8, h.filesz);
    var m7 := Write(m6, a + 40, 8, h.memsz);
    Write(m7, a + 48, 8, align)
  }

  /** The loop reads back the fields of a program header, whatever its flags, virtual address and alignment. */
  lemma ProgramHeaderRoundTrip(m: Bytes, a: u64, h: Header, flags: u32, vaddr: u64, align: u64)
    requires a + 56 <= TWO64 && h.kind < TWO32
    ensures HeaderAt(WriteProgramHeader(m, a, h, flags, vaddr, align), a) == h
  {
    hide Write, ByteAt, Read, Pow256;
    Powers();
    var m1 := Write(m, a, 4, h.kind);
    var m2 := Write(m1, a + 4, 4, flags);
    var m3 := Write(m2, a + 8, 8, h.offset);
    var m4 := Write(m3, a + 16, 8, vaddr);
    var m5 := Write(m4, a + 24, 8, h.paddr);
    var m6 := Write(m5, a + 32, 8, h.filesz);
    var m7 := Write(m6, a + 40, 8, h.memsz);
    var m' := Write(m7, a + 48, 8, align);
    WriteAgrees(m1, a + 4, 4, flags);
    WriteAgrees(m2, a + 8, 8, h.offset);
    WriteAgrees(m3, a + 16, 8, vaddr);
    WriteAgrees(m4, a + 24, 8, h.paddr);
    WriteAgrees(m5, a + 32, 8, h.filesz);
    WriteAgrees(m6, a + 40, 8, h.memsz);
    WriteAgrees(m7, a + 48, 8, align);
    StoredAndKept(m, a, 4, h.kind, m');
    StoredAndKept(m2, a + 8, 8, h.offset, m');
    StoredAndKept(m4, a + 24, 8, h.paddr, m');
    StoredAndKept(m5, a + 32, 8, h.filesz, m');
    StoredAndKept(m6, a + 40, 8, h.memsz, m');
  }

  /** The fields of Elf64_Ehdr that the loader reads: entry point, offset, size and number of program headers. */
  function WriteFileHeader(m: Bytes, entry: u64, phoff: u64, phentsize: u16, phnum: u16): Bytes {
    var m1 := Write(m, 0x2_0018, 8, entry);
    var m2 := Write(m1, 0x2_0020, 8, phoff);
    var m3 := Write(m2, 0x2_0036, 2, phentsize);
    Write(m3, 0x2_0038, 2, phnum)
  }

  lemma FileHeaderRoundTrip(m: Bytes, entry: u64, phoff: u64, phentsize: u16, phnum: u16)
    ensures var m' := WriteFileHeader(m, entry, phoff, phentsize, phnum);
            && Read64(m', KERNEL_BUFFER + 0x18) == entry && FirstHeader(m') == (0x2_0000 + phoff) % TWO64
            && Stride(m') == phentsize && HeaderCount(m') == phnum
  {
    hide Write, ByteAt, Read;
    Powers();
    assert Pow256(2) == 0x1_0000;
    hide Pow256;
    var m1 := Write(m, 0x2_0018, 8, entry);
    var m2 := Write(m1, 0x2_0020, 8, phoff);
    var m3 := Write(m2, 0x2_0036, 2, phentsize);
    var m' := Write(m3, 0x2_0038, 2, phnum);
    WriteAgrees(m1, 0x2_0020, 8, phoff);
    WriteAgrees(m2, 0x2_0036, 2, phentsize);
    WriteAgrees(m3, 0x2_0038, 2, phnum);
    StoredAndKept(m, 0x2_0018, 8, entry, m');
    StoredAndKept(m1, 0x2_0020, 8, phoff, m');
    StoredAndKept(m2, 0x2_0036, 2, phentsize, m');
    StoredAndKept(m3, 0x2_0038, 2, phnum, m');
  }

  // ---- The loops as they run ----

  class Memory {
    var bytes: Bytes

    constructor (bytes: Bytes)
      ensures this.bytes == bytes
    {
      this.bytes := bytes;
    }

    /** A store of n bytes. */
    method Store(a: u64, n: nat, v: nat)
      modifies this
      ensures bytes == Write(old(bytes), a, n, v)
    {
      var at, left, rest := a as nat, n, v;
      while left != 0
        invariant Write(old(bytes), a, n, v) == Write(bytes, at, left, rest)
        decreases left
      {
        bytes := bytes[at := rest % 256];
        at, left, rest := at + 1, left - 1, rest / 256;
      }
    }
  }

  /** Copies until the count is used up or an access faults or hits the image. */
  method MemoryCopy(memory: Memory, rsi: u64, rdi: u64, rcx: u64) returns (rdi': u64, ok: bool)
    modifies memory
    ensures (memory.bytes, ok) == Copy(old(memory.bytes), rsi, rdi, rcx)
    ensures ok ==> rdi' == Wrap(rdi + rcx)
  {
    hide ByteAt;
    var src: u64, n: nat := rsi, rcx;
    rdi' := rdi;
    while n != 0
      invariant n <= rcx
      invariant rdi' == Wrap(rdi + (rcx - n))
      invariant Copy(old(memory.bytes), rsi, rdi, rcx) == Copy(memory.bytes, src, rdi', n)
      decreases n
    {
      if !Mapped(src) || !Storable(rdi') {
        return rdi', false;
      }
      memory.bytes := memory.bytes[rdi' := ByteAt(memory.bytes, src)];
      src := Wrap(src + 1);
      WrapSum(rdi + (rcx - n), 1);
      rdi' := Wrap(rdi' + 1);
      n := n - 1;
    }
    ok := true;
  }

  method MemoryZero(memory: Memory, rdi: u64, rcx: u64) returns (ok: bool)
    modifies memory
    ensures (memory.bytes, ok) == Zero(old(memory.bytes), rdi, rcx)
  {
    var dst: u64, n: nat := rdi, rcx;
    while n != 0
      invariant n <= rcx
      invariant Zero(old(memory.bytes), rdi, rcx) == Zero(memory.bytes, dst, n)
      decreases n
    {
      if !Storable(dst) {
        return false;
      }
      memory.bytes := memory.bytes[dst := 0];
      dst := Wrap(dst + 1);
      n := n - 1;
    }
    ok := true;
  }

  /** The body of the loop for a loadable header, with its two calls. */
  method LoadOne(memory: Memory, rbx: u64, site: Site) returns (ok: bool)
    modifies memory
    ensures (memory.bytes, ok) == LoadSegment(old(memory.bytes), rbx, site)
  {
    hide Read, Read64, Copy, Zero, Wrap, Write;
    var ph: nat := rbx;
    var rsi := Wrap(KERNEL_BUFFER + Read64(memory.bytes, ph + 0x08));
    var paddr := Read64(memory.bytes, ph + 0x18);
    var filesz := Read64(memory.bytes, ph + 0x20);
    memory.Store(RETURN_SLOT, 8, site.copyReturn);
    var rdi, copied := MemoryCopy(memory, rsi, paddr, filesz);
    if !copied || Read64(memory.bytes, RETURN_SLOT) != site.copyReturn {
      return false;
    }
    var rest := Wrap(Read64(memory.bytes, ph + 0x28) - Read64(memory.bytes, ph + 0x20));
    memory.Store(RETURN_SLOT, 8, site.zeroReturn);
    var zeroed := MemoryZero(memory, rdi, rest);
    return zeroed && Read64(memory.bytes, RETURN_SLOT) == site.zeroReturn;
  }

  method StoreBootInfo(memory: Memory, site: Site, start: u64, end: u64)
    modifies memory
    ensures memory.bytes == WriteBootInfo(old(memory.bytes), site, start, end)
  {
    hide Write;
    memory.Store(BOOT_INFO, 8, BOOT_MAGIC);
    memory.Store(BOOT_INFO + 0x08, 4, 2);
    memory.Store(BOOT_INFO + 0x0C, 4, BOOT_INFO_SIZE);
    memory.Store(BOOT_INFO + 0x10, 8, 0);
    memory.Store(BOOT_INFO + 0x10, 1, site.bootDrive);
    memory.Store(BOOT_INFO + 0x18, 8, start);
    memory.Store(BOOT_INFO + 0x20, 8, end);
    memory.Store(BOOT_INFO + 0x28, 8, MEMORY_MAP);
    memory.Store(BOOT_INFO + 0x30, 4, site.mapCount);
    memory.Store(BOOT_INFO + 0x34, 4, 24);
    memory.Store(BOOT_INFO + 0x38, 8, 0);
  }

  method LoadKernel(memory: Memory, site: Site) returns (r: Outcome)
    modifies memory
    ensures (memory.bytes, r) == Load(old(memory.bytes), site)
  {
    hide IsElf64, Read, Read64, LoadSegment, Wrap, HeaderCount, Stride, FirstHeader, Write, WriteBootInfo;
    if !IsElf64(memory.bytes) {
      memory.Store(STACK_LOW, 32, site.leftover);
      return Refused;
    }
    var entry := Read64(memory.bytes, KERNEL_BUFFER + 0x18);
    var start: u64, end: u64 := TWO64 - 1, 0;
    var stride := Stride(memory.bytes);
    var count := HeaderCount(memory.bytes);
    var rbx := FirstHeader(memory.bytes);
    var r8 := 0;
    ghost var all := LoadHeaders(Progress(memory.bytes, TWO64 - 1, 0, true), rbx, stride, 0, count, site);
    while r8 < count
      invariant 0 <= r8 <= count
      invariant all == LoadHeaders(Progress(memory.bytes, start, end, true), rbx, stride, r8, count, site)
    {
      var ph: nat := rbx;
      ghost var p := Progress(memory.bytes, start, end, true);
      if ph + 4 > MAPPED_END {
        assert !LoadHeader(p, rbx, site).running;
        return Stopped;
      }
      if Read(memory.bytes, rbx, 4) == PT_LOAD {
        if ph + 0x30 > MAPPED_END {
          assert !LoadHeader(p, rbx, site).running;
          return Stopped;
        }
        var paddr := Read64(memory.bytes, ph + 0x18);
        if paddr < start {
          start := paddr;
        }
        var last := Wrap(paddr + Read64(memory.bytes, ph + 0x28));
        if last > end {
          end := last;
        }
        var ok := LoadOne(memory, rbx, site);
        assert LoadHeader(p, rbx, site) == Progress(memory.bytes, start, end, ok);
        if !ok {
          return Stopped;
        }
      }
      rbx := Wrap(rbx + stride);
      r8 := r8 + 1;
    }
    StoreBootInfo(memory, site, start, end);
    memory.Store(STACK_LOW, 32, site.leftover);
    return Started(entry);
  }
}
