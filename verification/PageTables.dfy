/**
 The page-table code as it runs: it updates physical memory and the frame allocator in place.
 Every method is proved equal to its function in `Paging`, `AddressSpaces` or `KernelHeap`.
 */
module PageTables {
  import opened Words
  import opened PageEntries
  import opened Frames
  import opened PageTree
  import opened FrameAllocator
  import Paging
  import AddressSpaces
  import KernelHeap
  import MappingProofs

  class PhysicalMemory {
    var tables: Memory

    constructor ()
      ensures tables == map[]
    {
      tables := map[];
    }
  }

  /** The value that the paging functions work on. */
  ghost function State(mem: PhysicalMemory, allocator: FrameAllocator): Machine
    requires allocator.Shaped()
    reads mem, allocator, allocator.frameBitmap, allocator.allocatedBitmap
  {
    Machine(mem.tables, allocator.State())
  }

  method GetOrCreateTable(mem: PhysicalMemory, parent: u64, index: nat, allocator: FrameAllocator, writable: bool, user: bool)
      returns (r: Option<u64>)
    requires index < ENTRIES && allocator.Valid()
    modifies mem, allocator, allocator.frameBitmap, allocator.allocatedBitmap
    ensures allocator.Valid()
    ensures (State(mem, allocator), r) == Paging.GetOrCreate(old(State(mem, allocator)), parent, index, writable, user)
  {
    hide Bits, Allocate, IsPresent, EntryAddress, ZeroTable;
    var entry := TableAt(mem.tables, parent)[index];
    if IsPresent(entry) {
      var updated := entry;
      WidenBounds(entry, user);
      if user {
        updated := Or(updated, USER);
      }
      if writable {
        updated := Or(updated, WRITABLE);
      }
      mem.tables := WriteEntry(mem.tables, parent, index, updated);
      return Some(EntryAddress(entry));
    }
    var frame := allocator.AllocateFrame();
    if frame.None? {
      return None;
    }
    mem.tables := mem.tables[frame.value := ZeroTable()];
    mem.tables := WriteEntry(mem.tables, parent, index, MakeEntry(frame.value, writable, user));
    return frame;
  }

  lemma WidenBounds(entry: u64, user: bool)
    ensures Or(entry, USER) < TWO64
    ensures Or(if user then Or(entry, USER) else entry, WRITABLE) < TWO64
  {
    OrUserFields(entry);
    OrWritableFields(if user then Or(entry, USER) else entry);
  }

  method Map(mem: PhysicalMemory, pml4: u64, allocator: FrameAllocator, va: u64, pa: u64, writable: bool, user: bool)
      returns (r: Result<(), Paging.PagingError>)
    requires allocator.Valid()
    modifies mem, allocator, allocator.frameBitmap, allocator.allocatedBitmap
    ensures allocator.Valid()
    ensures (State(mem, allocator), r) == Paging.Map(old(State(mem, allocator)), pml4, va, pa, writable, user)
    ensures old(Paging.SpaceOk(State(mem, allocator), pml4)) ==>
              && r == old(MappingProofs.MapOutcome(State(mem, allocator), pml4, va, pa))
              && MappingProofs.MapEffect(old(State(mem, allocator)), State(mem, allocator), pml4, va, pa, writable, user, r.Ok?)
  {
    hide Bits, Paging.GetOrCreate, IsPresent, EntryAddress, MakeEntry, IndexesOf, IsCanonical, TableAt, WriteEntry,
      Paging.SpaceOk, MappingProofs.MapEffect, MappingProofs.MapOutcome;
    if Paging.SpaceOk(State(mem, allocator), pml4) {
      MappingProofs.MapSpec(State(mem, allocator), pml4, va, pa, writable, user);
    }
    if !IsCanonical(va) {
      return Err(Paging.NotCanonical);
    }
    if va % PAGE_SIZE != 0 {
      return Err(Paging.VirtualUnaligned);
    }
    if pa % PAGE_SIZE != 0 {
      return Err(Paging.PhysicalUnaligned);
    }
    if pa > ADDRESS_MASK {
      return Err(Paging.PhysicalTooLarge);
    }
    var ix := IndexesOf(va);
    var pdpt := GetOrCreateTable(mem, pml4, ix.pml4, allocator, writable, user);
    if pdpt.None? {
      return Err(Paging.OutOfMemory);
    }
    var pd := GetOrCreateTable(mem, pdpt.value, ix.pdpt, allocator, writable, user);
    if pd.None? {
      return Err(Paging.OutOfMemory);
    }
    var pt := GetOrCreateTable(mem, pd.value, ix.pd, allocator, writable, user);
    if pt.None? {
      return Err(Paging.OutOfMemory);
    }
    if IsPresent(TableAt(mem.tables, pt.value)[ix.pt]) {
      return Err(Paging.AlreadyMapped);
    }
    mem.tables := WriteEntry(mem.tables, pt.value, ix.pt, MakeEntry(pa, writable, user));
    return Ok(());
  }

  method Unmap(mem: PhysicalMemory, pml4: u64, va: u64) returns (r: Result<u64, Paging.PagingError>)
    modifies mem
    ensures (mem.tables, r) == Paging.Unmap(old(mem.tables), pml4, va)
  {
    hide IsPresent, IsHuge, EntryAddress, IndexesOf, IsCanonical, TableAt, WriteEntry;
    if !IsCanonical(va) {
      return Err(Paging.NotCanonical);
    }
    if va % PAGE_SIZE != 0 {
      return Err(Paging.VirtualUnaligned);
    }
    var ix := IndexesOf(va);
    var pml4e := TableAt(mem.tables, pml4)[ix.pml4];
    if !IsPresent(pml4e) {
      return Err(Paging.TableMissing(4));
    }
    var pdpte := TableAt(mem.tables, EntryAddress(pml4e))[ix.pdpt];
    if !IsPresent(pdpte) {
      return Err(Paging.TableMissing(3));
    }
    if IsHuge(pdpte) {
      return Err(Paging.HugePageEntry);
    }
    var pde := TableAt(mem.tables, EntryAddress(pdpte))[ix.pd];
    if !IsPresent(pde) {
      return Err(Paging.TableMissing(2));
    }
    if IsHuge(pde) {
      return Err(Paging.HugePageEntry);
    }
    var pt := EntryAddress(pde);
    var pte := TableAt(mem.tables, pt)[ix.pt];
    if !IsPresent(pte) {
      return Err(Paging.NotMapped);
    }
    mem.tables := WriteEntry(mem.tables, pt, ix.pt, 0);
    return Ok(EntryAddress(pte));
  }

  // ---- Address spaces ----

  method NewAddressSpace(mem: PhysicalMemory, allocator: FrameAllocator) returns (pml4: Option<u64>)
    requires allocator.Valid()
    modifies mem, allocator, allocator.frameBitmap, allocator.allocatedBitmap
    ensures allocator.Valid()
    ensures (State(mem, allocator), pml4) == AddressSpaces.NewSpace(old(State(mem, allocator)))
  {
    hide Bits, Allocate, ZeroTable;
    pml4 := allocator.AllocateFrame();
    if pml4.Some? {
      mem.tables := mem.tables[pml4.value := ZeroTable()];
    }
  }

  method IdentityMap(mem: PhysicalMemory, pml4: u64, allocator: FrameAllocator, start: u64, end: u64, writable: bool)
      returns (r: Result<(), AddressSpaces.IdentityError>)
    requires allocator.Valid()
    modifies mem, allocator, allocator.frameBitmap, allocator.allocatedBitmap
    ensures allocator.Valid()
    ensures (State(mem, allocator), r) == AddressSpaces.IdentityMap(old(State(mem, allocator)), pml4, start, end, writable)
  {
    hide Bits, Paging.Map;
    if start % PAGE_SIZE != 0 {
      return Err(AddressSpaces.StartUnaligned);
    }
    if end % PAGE_SIZE != 0 {
      return Err(AddressSpaces.EndUnaligned);
    }
    if start >= end {
      return Err(AddressSpaces.EmptyRange);
    }
    var address := start;
    while address < end
      invariant start <= address <= end && address % PAGE_SIZE == 0
      invariant allocator.Valid()
      invariant AddressSpaces.IdentityLoop(old(State(mem, allocator)), pml4, start, end, writable) ==
                AddressSpaces.IdentityLoop(State(mem, allocator), pml4, address, end, writable)
    {
      var mapped := Map(mem, pml4, allocator, address, address, writable, false);
      if mapped.Err? {
        return Err(AddressSpaces.MapFailed(mapped.error));
      }
      address := address + PAGE_SIZE;
    }
    return Ok(());
  }

  // ---- The kernel heap ----

  class KernelHeapObject {
    const start: u64
    const size: u64
    var mappedPages: nat
    var initialized: bool

    ghost function Value(): KernelHeap.Heap
      reads this
    {
      KernelHeap.Heap(mappedPages, initialized)
    }

    ghost predicate Valid() {
      start == KernelHeap.HEAP_START && size == KernelHeap.HEAP_SIZE
    }

    constructor ()
      ensures Valid() && Value() == KernelHeap.Heap(0, false)
    {
      start := KernelHeap.HEAP_START;
      size := KernelHeap.HEAP_SIZE;
      mappedPages := 0;
      initialized := false;
    }

    method Rollback(mem: PhysicalMemory, pml4: u64, allocator: FrameAllocator, pages: nat)
      requires Valid() && allocator.Valid() && pages <= KernelHeap.HEAP_PAGES
      modifies this, mem, allocator, allocator.frameBitmap, allocator.allocatedBitmap
      ensures allocator.Valid()
      ensures State(mem, allocator) == KernelHeap.Rollback(old(State(mem, allocator)), pml4, 0, pages)
      ensures Value() == KernelHeap.Heap(0, false)
    {
      hide Bits, Paging.Unmap, Release;
      var va := start;
      for i := 0 to pages
        invariant va == start + i * PAGE_SIZE
        invariant allocator.Valid()
        invariant KernelHeap.Rollback(old(State(mem, allocator)), pml4, 0, pages) ==
                  KernelHeap.Rollback(State(mem, allocator), pml4, i, pages)
      {
        var r := Unmap(mem, pml4, va);
        if r.Ok? {
          allocator.FreeFrame(r.value);
        }
        va := va + PAGE_SIZE;
      }
      mappedPages := 0;
      initialized := false;
    }

    method Initialize(mem: PhysicalMemory, pml4: u64, allocator: FrameAllocator, pages: u64)
        returns (r: Result<(), KernelHeap.HeapError>)
      requires Valid() && allocator.Valid()
      modifies this, mem, allocator, allocator.frameBitmap, allocator.allocatedBitmap
      ensures allocator.Valid()
      ensures (State(mem, allocator), Value(), r) ==
              KernelHeap.Initialize(old(State(mem, allocator)), pml4, old(Value()), pages)
    {
      hide Bits, Paging.Map, Allocate, Release, KernelHeap.Rollback;
      if initialized {
        return Err(KernelHeap.AlreadyInitialized);
      }
      if pages == 0 {
        return Err(KernelHeap.ZeroPages);
      }
      if pages * PAGE_SIZE >= TWO64 {
        return Err(KernelHeap.SizeOverflow);
      }
      if pages * PAGE_SIZE > size {
        return Err(KernelHeap.TooLarge);
      }
      var va := start;
      var mapped := 0;
      for i := 0 to pages
        invariant mapped == i && va == start + i * PAGE_SIZE
        invariant allocator.Valid() && Value() == old(Value())
        invariant KernelHeap.HeapLoop(old(State(mem, allocator)), pml4, 0, pages) ==
                  KernelHeap.HeapLoop(State(mem, allocator), pml4, i, pages)
      {
        var frame := allocator.AllocateFrame();
        if frame.None? {
          Rollback(mem, pml4, allocator, mapped);
          return Err(KernelHeap.OutOfFrames);
        }
        var m := Map(mem, pml4, allocator, va, frame.value, true, false);
        if m.Err? {
          allocator.FreeFrame(frame.value);
          Rollback(mem, pml4, allocator, mapped);
          return Err(KernelHeap.HeapMapFailed(m.error));
        }
        mapped := mapped + 1;
        va := va + PAGE_SIZE;
      }
      mappedPages := mapped;
      initialized := true;
      return Ok(());
    }
  }
}
