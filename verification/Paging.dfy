/**
 `map`, `unmap` and `translate` as functions of a machine state, and the proof that the
 four-level walk behaves as a finite map from virtual pages to mappings.
 */
module Paging {
  import opened Words
  import opened PageEntries
  import opened Frames
  import opened PageTree

  datatype PagingError =
    | NotCanonical
    | VirtualUnaligned
    | PhysicalUnaligned
    | PhysicalTooLarge
    | OutOfMemory
    | AlreadyMapped
    | TableMissing(level: nat)
    | HugePageEntry
    | NotMapped

  // ---- The operations ----

  function GetOrCreate(s: Machine, parent: nat, index: nat, writable: bool, user: bool): (Machine, Option<u64>)
    requires index < ENTRIES
  {
    var entry := TableAt(s.memory, parent)[index];
    if IsPresent(entry) then
      (s.(memory := WriteEntry(s.memory, parent, index, Widen(entry, writable, user))), Some(EntryAddress(entry)))
    else
      match Allocate(s.frames)
      case (frames, None) => (s.(frames := frames), None)
      case (frames, Some(f)) =>
        (Machine(WriteEntry(s.memory[f := ZeroTable()], parent, index, MakeEntry(f, writable, user)), frames), Some(f))
  }

  function ArgumentError(va: u64, pa: u64): Option<PagingError> {
    if !IsCanonical(va) then Some(NotCanonical)
    else if va % PAGE_SIZE != 0 then Some(VirtualUnaligned)
    else if pa % PAGE_SIZE != 0 then Some(PhysicalUnaligned)
    else if pa > ADDRESS_MASK then Some(PhysicalTooLarge)
    else None
  }

  /** The three levels of the walk that may allocate; the result is the page table's address. */
  function WalkCreating(s: Machine, root: nat, ix: Indexes, writable: bool, user: bool): (Machine, Option<u64>)
    requires ix.Valid()
  {
    match GetOrCreate(s, root, ix.pml4, writable, user)
    case (s1, None) => (s1, None)
    case (s1, Some(pdpt)) =>
      match GetOrCreate(s1, pdpt, ix.pdpt, writable, user)
      case (s2, None) => (s2, None)
      case (s2, Some(pd)) => GetOrCreate(s2, pd, ix.pd, writable, user)
  }

  function Map(s: Machine, root: nat, va: u64, pa: u64, writable: bool, user: bool): (Machine, Result<(), PagingError>) {
    if ArgumentError(va, pa).Some? then (s, Err(ArgumentError(va, pa).value))
    else
      var ix := IndexesOf(va);
      match WalkCreating(s, root, ix, writable, user)
      case (s', None) => (s', Err(OutOfMemory))
      case (s', Some(pt)) =>
        if IsPresent(TableAt(s'.memory, pt)[ix.pt]) then (s', Err(AlreadyMapped))
        else (s'.(memory := WriteEntry(s'.memory, pt, ix.pt, MakeEntry(pa, writable, user))), Ok(()))
  }

  function Translate(m: Memory, root: nat, va: u64): Option<nat> {
    if !IsCanonical(va) then None
    else
      var ix := IndexesOf(va);
      var pml4e := TableAt(m, root)[ix.pml4];
      if !IsPresent(pml4e) then None
      else
        var pdpte := TableAt(m, EntryAddress(pml4e))[ix.pdpt];
        if !IsPresent(pdpte) then None
        else if IsHuge(pdpte) then Some(And(pdpte, 0x000F_FFC0_0000_0000) + And(va, 0x3FFF_FFFF))
        else
          var pde := TableAt(m, EntryAddress(pdpte))[ix.pd];
          if !IsPresent(pde) then None
          else if IsHuge(pde) then Some(And(pde, 0x000F_FFFF_FFE0_0000) + And(va, 0x1F_FFFF))
          else
            var pte := TableAt(m, EntryAddress(pde))[ix.pt];
            if !IsPresent(pte) then None
            else Some(EntryAddress(pte) + And(va, 0xFFF))
  }

  function Unmap(m: Memory, root: nat, va: u64): (Memory, Result<u64, PagingError>) {
    if !IsCanonical(va) then (m, Err(NotCanonical))
    else if va % PAGE_SIZE != 0 then (m, Err(VirtualUnaligned))
    else
      var ix := IndexesOf(va);
      var pml4e := TableAt(m, root)[ix.pml4];
      if !IsPresent(pml4e) then (m, Err(TableMissing(4)))
      else
        var pdpte := TableAt(m, EntryAddress(pml4e))[ix.pdpt];
        if !IsPresent(pdpte) then (m, Err(TableMissing(3)))
        else if IsHuge(pdpte) then (m, Err(HugePageEntry))
        else
          var pde := TableAt(m, EntryAddress(pdpte))[ix.pd];
          if !IsPresent(pde) then (m, Err(TableMissing(2)))
          else if IsHuge(pde) then (m, Err(HugePageEntry))
          else
            var pt := EntryAddress(pde);
            var pte := TableAt(m, pt)[ix.pt];
            if !IsPresent(pte) then (m, Err(NotMapped))
            else (WriteEntry(m, pt, ix.pt, 0), Ok(EntryAddress(pte)))
  }

  // ---- The abstract page map ----

  datatype Mapping = Mapping(frame: u64, writable: bool, user: bool)

  // The paths of the walk to a page: its PDPT, its PD and its PT.

  function PdptOf(ix: Indexes): (p: Path)
    requires ix.Valid()
    ensures p.Valid() && p.Depth() == 1
  {
    Child(Root, ix.pml4)
  }

  function PdOf(ix: Indexes): (p: Path)
    requires ix.Valid()
    ensures p.Valid() && p.Depth() == 2
  {
    Child(PdptOf(ix), ix.pdpt)
  }

  function PtOf(ix: Indexes): (p: Path)
    requires ix.Valid()
    ensures p.Valid() && p.Depth() == 3
  {
    Child(PdOf(ix), ix.pd)
  }

  /** The last-level entry of the walk to a page. */
  function Leaf(m: Memory, root: nat, va: u64): u64 {
    Entry(m, root, PtOf(IndexesOf(va)), IndexesOf(va).pt)
  }

  /** The finite map from virtual page to mapping that the tables stand for. */
  ghost function Pages(m: Memory, root: nat): map<nat, Mapping> {
    map va: nat | va < TWO64 && IsPage(va) && IsPresent(Leaf(m, root, va)) ::
      Mapping(EntryAddress(Leaf(m, root, va)), IsWritable(Leaf(m, root, va)), IsUser(Leaf(m, root, va)))
  }

  /** Looking an address up in an abstract page map. */
  ghost function Lookup(pages: map<nat, Mapping>, va: u64): Option<nat> {
    var page := va - va % PAGE_SIZE;
    if IsCanonical(va) && page in pages then Some(pages[page].frame + va % PAGE_SIZE) else None
  }

  /** The rights the processor grants on the page: a right needs its bit in all four entries of the walk. */
  ghost function EffectiveRights(m: Memory, root: nat, va: u64): (bool, bool) {
    var ix := IndexesOf(va);
    var e4 := Entry(m, root, Root, ix.pml4);
    var e3 := Entry(m, root, PdptOf(ix), ix.pdpt);
    var e2 := Entry(m, root, PdOf(ix), ix.pd);
    var e1 := Leaf(m, root, va);
    (IsWritable(e4) && IsWritable(e3) && IsWritable(e2) && IsWritable(e1),
     IsUser(e4) && IsUser(e3) && IsUser(e2) && IsUser(e1))
  }

  /** No intermediate entry withholds a right that a leaf below it grants. */
  ghost predicate RightsOk(m: Memory, root: nat) {
    forall va: u64 :: IsPresent(Leaf(m, root, va)) ==>
      EffectiveRights(m, root, va) == (IsWritable(Leaf(m, root, va)), IsUser(Leaf(m, root, va)))
  }

  /** The state invariant of an address space. */
  ghost predicate SpaceOk(s: Machine, root: nat) {
    TreeOk(s, root) && RightsOk(s.memory, root)
  }

  lemma PageOffset(va: u64)
    ensures And(va, 0xFFF) == va % PAGE_SIZE
  {
    AndOnes(va, 12);
    LowIsMod(va, 12);
    Pow2Values();
  }

  lemma SamePageSameLeaf(m: Memory, root: nat, va: u64)
    requires IsCanonical(va)
    ensures IsPage(va - va % PAGE_SIZE)
    ensures Leaf(m, root, va - va % PAGE_SIZE) == Leaf(m, root, va)
  {
    hide IndexesOf, PageAt, IsPage, Entry, IsCanonical;
    PageAtIndexes(va);
    IndexesOfPageAt(IndexesOf(va));
  }

  /** Reading below an entry follows its address, or finds nothing. */
  lemma EntryBelow(m: Memory, root: nat, p: Path, i: nat, j: nat)
    requires p.Valid() && p.Depth() < 3 && i < ENTRIES && j < ENTRIES
    ensures var e := Entry(m, root, p, i);
            Entry(m, root, Child(p, i), j) == if IsPresent(e) then TableAt(m, EntryAddress(e))[j] else 0
  {
  }

  lemma TranslateReadsLeaf(s: Machine, root: nat, va: u64)
    requires TreeOk(s, root) && IsCanonical(va)
    ensures var e := Leaf(s.memory, root, va);
            Translate(s.memory, root, va) == if IsPresent(e) then Some(EntryAddress(e) + va % PAGE_SIZE) else None
  {
    var m := s.memory;
    var ix := IndexesOf(va);
    PageOffset(va);
    EntryBelow(m, root, Root, ix.pml4, ix.pdpt);
    EntryBelow(m, root, PdptOf(ix), ix.pdpt, ix.pd);
    EntryBelow(m, root, PdOf(ix), ix.pd, ix.pt);
    assert IsPresent(Entry(m, root, PdptOf(ix), ix.pdpt)) ==> !IsHuge(Entry(m, root, PdptOf(ix), ix.pdpt));
    assert IsPresent(Entry(m, root, PdOf(ix), ix.pd)) ==> !IsHuge(Entry(m, root, PdOf(ix), ix.pd));
  }

  lemma LookupReadsLeaf(m: Memory, root: nat, va: u64)
    requires IsCanonical(va)
    ensures var e := Leaf(m, root, va);
            Lookup(Pages(m, root), va) == if IsPresent(e) then Some(EntryAddress(e) + va % PAGE_SIZE) else None
  {
    var page: u64 := va - va % PAGE_SIZE;
    SamePageSameLeaf(m, root, va);
    assert page in Pages(m, root) <==> IsPresent(Leaf(m, root, page));
  }

  /** `translate` computes exactly the lookup in the abstract page map, at every 64-bit address. */
  lemma TranslateIsLookup(s: Machine, root: nat, va: u64)
    requires TreeOk(s, root)
    ensures Translate(s.memory, root, va) == Lookup(Pages(s.memory, root), va)
  {
    hide And, Shr;
    if IsCanonical(va) {
      LookupReadsLeaf(s.memory, root, va);
      TranslateReadsLeaf(s, root, va);
    }
  }
}
