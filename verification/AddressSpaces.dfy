/**
 Creating an address space and identity-mapping a range into it.
 */
module AddressSpaces {
  import opened Words
  import opened PageEntries
  import opened Frames
  import opened PageTree
  import opened Paging
  import opened MappingProofs

  datatype IdentityError = StartUnaligned | EndUnaligned | EmptyRange | MapFailed(error: PagingError)

  // ---- A fresh PML4 ----

  function NewSpace(s: Machine): (Machine, Option<u64>) {
    match Allocate(s.frames)
    case (frames, None) => (s.(frames := frames), None)
    case (frames, Some(f)) => (Machine(s.memory[f := ZeroTable()], frames), Some(f))
  }

  lemma {:induction false} EmptyRootResolves(m: Memory, root: nat, q: Path)
    requires q.Valid() && TableAt(m, root) == ZeroTable()
    ensures Resolve(m, root, q) == if q == Root then Some(root) else None
  {
    if q.Child? {
      EmptyRootResolves(m, root, q.parent);
      NothingPresentInZero();
    }
  }

  /** A fresh address space satisfies the invariant and maps nothing. */
  lemma NewSpaceSpec(s: Machine)
    requires s.frames.Valid()
    ensures var (s', r) := NewSpace(s);
            && (r.None? <==> s.frames.Free() == {})
            && (r.Some? ==> SpaceOk(s', r.value) && Pages(s'.memory, r.value) == map[] && !Owns(s.frames, r.value))
  {
    hide And, IndexesOf, Lowest;
    var (s', r) := NewSpace(s);
    AllocateTakesLowest(s.frames);
    if r.Some? {
      var root := r.value;
      forall q: Path | q.Valid()
        ensures Resolve(s'.memory, root, q) == if q == Root then Some(root) else None
      {
        EmptyRootResolves(s'.memory, root, q);
      }
      NothingPresentInZero();
      assert forall va: u64 :: !IsPresent(Leaf(s'.memory, root, va));
    }
  }

  /** Creation takes exactly the lowest free frame and writes no other table. */
  lemma NewSpaceTakesOne(s: Machine)
    requires s.frames.Valid()
    ensures var (s', r) := NewSpace(s);
            && (r.None? ==> s' == s)
            && (r.Some? ==>
                  && r.value % 4096 == 0
                  && s'.frames == FrameState(s.frames.used + {r.value / 4096}, s.frames.owned + {r.value / 4096})
                  && (forall f :: f in s.frames.Free() ==> r.value / 4096 <= f)
                  && (forall a: nat :: a != r.value ==> TableAt(s'.memory, a) == TableAt(s.memory, a)))
  {
    AllocateTakesLowest(s.frames);
  }

  // ---- identity_map ----

  /** Stepping by a page never passes an aligned end, so the address does not overflow. */
  lemma NextPage(address: u64, end: u64)
    requires address < end && address % PAGE_SIZE == 0 && end % PAGE_SIZE == 0
    ensures address + PAGE_SIZE <= end && (address + PAGE_SIZE) % PAGE_SIZE == 0
  {
  }

  function IdentityLoop(s: Machine, root: nat, address: u64, end: u64, writable: bool): (Machine, Result<(), IdentityError>)
    requires address % PAGE_SIZE == 0 && end % PAGE_SIZE == 0
    decreases end - address
  {
    if address >= end then (s, Ok(()))
    else
      hide *;
      NextPage(address, end);
      match Map(s, root, address, address, writable, false)
      case (s', Err(e)) => (s', Err(MapFailed(e)))
      case (s', Ok(_)) => IdentityLoop(s', root, address + PAGE_SIZE, end, writable)
  }

  function IdentityMap(s: Machine, root: nat, start: u64, end: u64, writable: bool): (Machine, Result<(), IdentityError>) {
    if start % PAGE_SIZE != 0 then (s, Err(StartUnaligned))
    else if end % PAGE_SIZE != 0 then (s, Err(EndUnaligned))
    else if start >= end then (s, Err(EmptyRange))
    else IdentityLoop(s, root, start, end, writable)
  }

  /** The supervisor pages of a range, each mapped to itself. */
  ghost function IdentityPages(start: nat, end: nat, writable: bool): map<nat, Mapping>
    requires end <= TWO64
  {
    map a: nat | start <= a < end && a % PAGE_SIZE == 0 :: Mapping(a, writable, false)
  }

  /** A prefix of the range has been mapped and nothing else has changed. */
  ghost predicate MappedPrefix(s: Machine, s': Machine, root: nat, start: nat, upto: nat, writable: bool)
    requires upto <= TWO64
  {
    && SpaceOk(s', root)
    && GrewByTables(s, s', root)
    && Pages(s'.memory, root) == Pages(s.memory, root) + IdentityPages(start, upto, writable)
    && Pages(s.memory, root).Keys !! IdentityPages(start, upto, writable).Keys
  }

  lemma IdentityPagesStep(start: nat, address: nat, writable: bool)
    requires start <= address && start % PAGE_SIZE == 0 && address % PAGE_SIZE == 0 && address + PAGE_SIZE <= TWO64
    ensures IdentityPages(start, address + PAGE_SIZE, writable) ==
            IdentityPages(start, address, writable)[address := Mapping(address, writable, false)]
    ensures IdentityPages(start, start, writable) == map[]
  {
  }

  lemma GrewTransitive(s: Machine, s1: Machine, s2: Machine, root: nat)
    requires GrewByTables(s, s1, root) && GrewByTables(s1, s2, root)
    ensures GrewByTables(s, s2, root)
  {
    hide Tables;
  }

  /** Why a page on a page boundary cannot be mapped to itself. */
  ghost function PageFailure(m: Memory, root: nat, page: nat): PagingError {
    if 0x8000_0000_0000 <= page < 0xFFFF_8000_0000_0000 then NotCanonical
    else if page >= 0x10_0000_0000_0000 then PhysicalTooLarge
    else if page in Pages(m, root) then AlreadyMapped
    else OutOfMemory
  }

  /** One more page of the loop, or the failure that ends it. */
  lemma PrefixStep(s0: Machine, s: Machine, root: nat, start: nat, address: u64, writable: bool)
    requires start <= address && start % PAGE_SIZE == 0 && address % PAGE_SIZE == 0 && address + PAGE_SIZE <= TWO64
    requires MappedPrefix(s0, s, root, start, address, writable)
    ensures var (s', r) := Map(s, root, address, address, writable, false);
            && MappedPrefix(s0, s', root, start, if r.Ok? then address + PAGE_SIZE else address, writable)
            && (r.Err? ==> r.error == PageFailure(s0.memory, root, address))
  {
    hide Map, SpaceOk, GrewByTables, Pages, LinksGrowOn, IndexesOf, Missing;
    var (s', r) := Map(s, root, address, address, writable, false);
    MapSpec(s, root, address, address, writable, false);
    GrewTransitive(s0, s, s', root);
    IdentityPagesStep(start, address, writable);
  }

  lemma {:induction false} IdentityLoopSpec(s0: Machine, s: Machine, root: nat, start: nat, address: u64, end: u64, writable: bool)
      returns (upto: nat)
    requires start <= address <= end && start % PAGE_SIZE == 0 && address % PAGE_SIZE == 0 && end % PAGE_SIZE == 0
    requires MappedPrefix(s0, s, root, start, address, writable)
    ensures address <= upto <= end && upto % PAGE_SIZE == 0
    ensures var (s', r) := IdentityLoop(s, root, address, end, writable);
            && MappedPrefix(s0, s', root, start, upto, writable) && (r.Ok? <==> upto == end)
            && (r.Err? ==> r.error == MapFailed(PageFailure(s0.memory, root, upto)))
    decreases end - address
  {
    hide Map, MappedPrefix, PageFailure;
    upto := address;
    if address < end {
      PrefixStep(s0, s, root, start, address, writable);
      var (s1, r1) := Map(s, root, address, address, writable, false);
      if r1.Ok? {
        upto := IdentityLoopSpec(s0, s1, root, start, address + PAGE_SIZE, end, writable);
      }
    }
  }

  lemma PrefixStart(s: Machine, root: nat, start: nat, writable: bool)
    requires SpaceOk(s, root) && start <= TWO64
    ensures MappedPrefix(s, s, root, start, start, writable)
  {
    hide Resolve, Entry, IndexesOf, RightsOk;
    MapNothing(s, root, IndexesOf(0));
    assert IdentityPages(start, start, writable) == map[];
  }

  /** Which error a failing call gives, when its mapped prefix ends at upto. */
  ghost function IdentityFailure(m: Memory, root: nat, start: u64, end: u64, upto: nat): IdentityError {
    if start % 4096 != 0 then StartUnaligned
    else if end % 4096 != 0 then EndUnaligned
    else if start >= end then EmptyRange
    else MapFailed(PageFailure(m, root, upto))
  }

  /** Where the mapped prefix ends: at the end of the range on success, at an earlier page or nowhere on failure. */
  predicate PrefixEnd(start: nat, end: nat, upto: nat, ok: bool) {
    if ok then start % PAGE_SIZE == 0 && end % PAGE_SIZE == 0 && start < upto == end
    else upto == start || (start % PAGE_SIZE == 0 && upto % PAGE_SIZE == 0 && start < upto < end)
  }

  /**
   A successful call adds exactly the pages of the range, each mapped to itself; a failing call leaves
   exactly a mapped prefix that misses at least one page, and an argument error leaves the state alone. The
   error names the first fault of the arguments, or why the first page after the prefix cannot be mapped.
   */
  lemma IdentityMapSpec(s: Machine, root: nat, start: u64, end: u64, writable: bool) returns (upto: nat)
    requires SpaceOk(s, root)
    ensures start <= upto <= TWO64
    ensures var (s', r) := IdentityMap(s, root, start, end, writable);
            && PrefixEnd(start, end, upto, r.Ok?)
            && MappedPrefix(s, s', root, start, upto, writable)
            && (r.Err? && !r.error.MapFailed? ==> s' == s)
            && (r.Err? ==> r.error == IdentityFailure(s.memory, root, start, end, upto))
  {
    hide MappedPrefix, SpaceOk, PageFailure;
    PrefixStart(s, root, start, writable);
    upto := start;
    if start % PAGE_SIZE == 0 && end % PAGE_SIZE == 0 && start < end {
      upto := IdentityLoopSpec(s, s, root, start, start, end, writable);
    }
  }

  lemma CanonicalPage(va: u64)
    requires IsCanonical(va - va % PAGE_SIZE)
    ensures IsCanonical(va)
  {
    hide IsCanonical;
    CanonicalHalves(va);
    CanonicalHalves(va - va % PAGE_SIZE);
  }

  lemma MappedPagesAreCanonical(m: Memory, root: nat, page: nat)
    ensures page in Pages(m, root) ==> IsPage(page)
  {
  }

  /** Reading a mapped prefix at an address. */
  lemma PrefixTranslations(s: Machine, s': Machine, root: nat, start: u64, upto: nat, writable: bool, va: u64)
    requires SpaceOk(s, root) && start % PAGE_SIZE == 0 && start <= upto <= TWO64 && upto % PAGE_SIZE == 0
    requires MappedPrefix(s, s', root, start, upto, writable)
    ensures Translate(s'.memory, root, va) ==
            if start <= va < upto then Some(va) else Translate(s.memory, root, va)
  {
    hide Translate, SpaceOk, Pages, IsCanonical, GrewByTables;
    assert TreeOk(s, root) && TreeOk(s', root) by { SpaceTree(s, root); SpaceTree(s', root); }
    TranslateIsLookup(s, root, va);
    TranslateIsLookup(s', root, va);
    var page: u64 := va - va % PAGE_SIZE;
    assert page in IdentityPages(start, upto, writable) <==> start <= va < upto;
    MappedPagesAreCanonical(s'.memory, root, page);
    if start <= va < upto {
      CanonicalPage(va);
    }
  }

  /** After the call every address of the mapped prefix translates to itself, and every other one as before. */
  lemma IdentityTranslations(s: Machine, root: nat, start: u64, end: u64, writable: bool) returns (upto: nat)
    requires SpaceOk(s, root)
    ensures start <= upto <= TWO64
    ensures var (s', r) := IdentityMap(s, root, start, end, writable);
            && PrefixEnd(start, end, upto, r.Ok?)
            && (forall va: u64 :: Translate(s'.memory, root, va) ==
                  if start <= va < upto then Some(va) else Translate(s.memory, root, va))
  {
    hide Translate, SpaceOk, MappedPrefix, IdentityLoop;
    upto := IdentityMapSpec(s, root, start, end, writable);
    var (s', r) := IdentityMap(s, root, start, end, writable);
    if start % PAGE_SIZE == 0 {
      forall va: u64
        ensures Translate(s'.memory, root, va) == if start <= va < upto then Some(va) else Translate(s.memory, root, va)
      {
        PrefixTranslations(s, s', root, start, upto, writable, va);
      }
    }
  }

  lemma SpaceTree(s: Machine, root: nat)
    requires SpaceOk(s, root)
    ensures TreeOk(s, root)
  {
  }
}
