/**
 Exactly when a range of pages can be mapped.

 The tables that the walks to a set of pages still lack are a demand on the allocator. Mapping any of those
 pages lowers the number of free frames and the demand by the same amount, whether it succeeds or fails, so
 the difference of the two decides the outcome of the whole loop before it starts.
 */
module FrameDemand {
  import opened Words
  import opened PageEntries
  import opened Frames
  import opened PageTree
  import opened Paging
  import opened MappingProofs
  import opened AddressSpaces
  import opened KernelHeap

  /** The tables on the walk to a page below its PML4. */
  ghost function WalkTo(va: u64): (paths: set<Path>)
    ensures forall p: Path :: p in paths ==> p.Valid()
  {
    var ix := IndexesOf(va);
    {PdptOf(ix), PdOf(ix), PtOf(ix)}
  }

  ghost function WalksTo(pages: set<u64>): (paths: set<Path>)
    ensures forall p: Path :: p in paths ==> p.Valid()
  {
    set va, p | va in pages && p in WalkTo(va) :: p
  }

  /** Those of the tables that are not linked yet. */
  ghost function Demand(m: Memory, root: nat, paths: set<Path>): set<Path> {
    set p | p in paths && p.Valid() && Resolve(m, root, p).None?
  }

  /** The frames that would be left over once every table of the walks is linked; negative if they do not suffice. */
  ghost function Slack(s: Machine, root: nat, paths: set<Path>): int {
    |s.frames.Free()| - |Demand(s.memory, root, paths)|
  }

  // ---- Conservation ----

  ghost function FramesOf(m: Memory, root: nat, paths: set<Path>): set<nat>
    requires forall p: Path :: p in paths ==> p.Valid()
  {
    set p | p in paths :: FrameOfPath(m, root, p)
  }

  lemma {:induction false} FramesOfSize(m: Memory, root: nat, paths: set<Path>)
    requires forall p: Path :: p in paths ==> p.Valid()
    requires forall p: Path, q: Path :: p in paths && q in paths && FrameOfPath(m, root, p) == FrameOfPath(m, root, q) ==> p == q
    ensures |FramesOf(m, root, paths)| == |paths|
    decreases |paths|
  {
    hide FrameOfPath;
    if paths != {} {
      var p :| p in paths;
      var rest := paths - {p};
      FramesOfSize(m, root, rest);
      assert FramesOf(m, root, paths) == FramesOf(m, root, rest) + {FrameOfPath(m, root, p)};
      assert FrameOfPath(m, root, p) !in FramesOf(m, root, rest);
    }
  }

  /** A resolved path of a tree leads to a whole managed frame. */
  lemma PathFrame(s: Machine, root: nat, p: Path)
    requires TreeOk(s, root) && p.Valid() && Resolve(s.memory, root, p).Some?
    ensures var f := FrameOfPath(s.memory, root, p);
            f < MAX_FRAMES && Resolve(s.memory, root, p) == Some(f * FRAME_SIZE) && f in Tables(s.memory, root)
  {
    hide And, Resolve, Entry, Unshared, NoHugeEntries;
    assert Owns(s.frames, Resolve(s.memory, root, p).value);
    assert FrameOfPath(s.memory, root, p) * FRAME_SIZE == Resolve(s.memory, root, p).value;
    assert IsTable(s.memory, root, FrameOfPath(s.memory, root, p));
  }

  /** The paths linked between two states are as many as the tables added. */
  lemma NewTablesArePaths(s: Machine, s': Machine, root: nat, va: u64, paths: set<Path>)
    requires TreeOk(s, root) && TreeOk(s', root) && GrewByTables(s, s', root)
    requires LinksGrowOn(s.memory, s'.memory, root, IndexesOf(va)) && WalkTo(va) <= paths
    ensures Demand(s'.memory, root, paths) <= Demand(s.memory, root, paths)
    ensures FramesOf(s'.memory, root, Demand(s.memory, root, paths) - Demand(s'.memory, root, paths)) ==
            Tables(s'.memory, root) - Tables(s.memory, root)
  {
    hide And, Resolve, Entry, IndexesOf, FrameOfPath, TreeOk;
    var linked := Demand(s.memory, root, paths) - Demand(s'.memory, root, paths);
    forall p | p in linked
      ensures FrameOfPath(s'.memory, root, p) in Tables(s'.memory, root) - Tables(s.memory, root)
    {
      PathFrame(s', root, p);
      OldTableOldPath(s, s', root, va, p);
    }
    forall f | f in Tables(s'.memory, root) - Tables(s.memory, root)
      ensures f in FramesOf(s'.memory, root, linked)
    {
      var p: Path :| p.Valid() && Resolve(s'.memory, root, p) == Some(f * FRAME_SIZE);
      assert !IsTable(s.memory, root, f);
      assert Resolve(s.memory, root, p).None?;
      assert p in WalkTo(va);
      PathFrame(s', root, p);
      assert p in linked && FrameOfPath(s'.memory, root, p) == f;
    }
  }

  lemma OldTableOldPath(s: Machine, s': Machine, root: nat, va: u64, p: Path)
    requires TreeOk(s', root) && LinksGrowOn(s.memory, s'.memory, root, IndexesOf(va))
    requires p.Valid() && Resolve(s.memory, root, p).None? && Resolve(s'.memory, root, p).Some?
    ensures FrameOfPath(s'.memory, root, p) !in Tables(s.memory, root)
  {
    hide And, Resolve, Entry, IndexesOf, FrameOfPath, TablesOwned, NoHugeEntries;
    PathFrame(s', root, p);
  }

  lemma LinkedInjective(s: Machine, root: nat, paths: set<Path>)
    requires TreeOk(s, root)
    requires forall p: Path :: p in paths ==> p.Valid() && Resolve(s.memory, root, p).Some?
    ensures |FramesOf(s.memory, root, paths)| == |paths|
  {
    hide And, Resolve, Entry, FrameOfPath, TablesOwned, NoHugeEntries, FramesOf;
    forall p: Path, q: Path | p in paths && q in paths && FrameOfPath(s.memory, root, p) == FrameOfPath(s.memory, root, q)
      ensures p == q
    {
      PathFrame(s, root, p);
      PathFrame(s, root, q);
    }
    FramesOfSize(s.memory, root, paths);
  }

  lemma FreeAfterGrowth(before: FrameState, now: FrameState, tables0: set<nat>, tables: set<nat>)
    requires before.Valid() && now.Valid() && now.used == before.used + tables
    requires tables0 <= before.used && tables0 <= tables && (tables - tables0) !! before.used
    ensures |now.Free()| == |before.Free()| - |tables - tables0|
  {
    assert now.Free() == before.Free() - (tables - tables0);
    assert tables - tables0 <= before.Free();
  }

  /** Free frames and demand fall together. */
  lemma SlackConserved(s: Machine, s': Machine, root: nat, va: u64, paths: set<Path>)
    requires TreeOk(s, root) && TreeOk(s', root) && GrewByTables(s, s', root)
    requires LinksGrowOn(s.memory, s'.memory, root, IndexesOf(va)) && WalkTo(va) <= paths
    ensures Slack(s', root, paths) == Slack(s, root, paths)
  {
    hide And, Resolve, Entry, IndexesOf, Tables, FramesOf, Unshared, TablesOwned, NoHugeEntries, LinksGrowOn;
    NewTablesArePaths(s, s', root, va, paths);
    var d, d' := Demand(s.memory, root, paths), Demand(s'.memory, root, paths);
    LinkedInjective(s', root, d - d');
    assert d == d' + (d - d');
    TablesAreOwned(s, root);
    FreeAfterGrowth(s.frames, s'.frames, Tables(s.memory, root), Tables(s'.memory, root));
  }

  // ---- One page ----

  /** The number of tables a walk lacks is the number of its paths that lead nowhere. */
  lemma MissingIsDemand(m: Memory, root: nat, va: u64)
    ensures Missing(m, root, IndexesOf(va)) == |Demand(m, root, WalkTo(va))|
    ensures va in Pages(m, root) ==> Demand(m, root, WalkTo(va)) == {}
  {
    hide And, Entry, IndexesOf, Resolve, IsPresent;
    var ix := IndexesOf(va);
    ResolveChild(m, root, Root, ix.pml4);
    ResolveChild(m, root, PdptOf(ix), ix.pdpt);
    ResolveChild(m, root, PdOf(ix), ix.pd);
    EntryBelow(m, root, Root, ix.pml4, ix.pdpt);
    EntryBelow(m, root, PdptOf(ix), ix.pdpt, ix.pd);
    NothingPresentInZero();
    var d := Demand(m, root, WalkTo(va));
    var missing := if !IsPresent(Entry(m, root, Root, ix.pml4)) then {PdptOf(ix), PdOf(ix), PtOf(ix)}
                   else if !IsPresent(Entry(m, root, PdptOf(ix), ix.pdpt)) then {PdOf(ix), PtOf(ix)}
                   else if !IsPresent(Entry(m, root, PdOf(ix), ix.pd)) then {PtOf(ix)}
                   else {};
    assert missing == d;
    if va in Pages(m, root) {
      LeafNeedsWalk(m, root, va);
    }
  }

  lemma DemandMonotone(m: Memory, root: nat, some: set<Path>, all: set<Path>)
    requires some <= all
    ensures |Demand(m, root, some)| <= |Demand(m, root, all)|
  {
    SubsetSize(Demand(m, root, some), Demand(m, root, all));
  }

  /** With good arguments, a page of the set is mapped unless it already is or the slack is negative. */
  lemma MapWithSlack(s: Machine, root: nat, va: u64, pa: u64, writable: bool, user: bool, paths: set<Path>)
    requires SpaceOk(s, root) && WalkTo(va) <= paths
    requires (va < 0x8000_0000_0000 || va >= 0xFFFF_8000_0000_0000) && va % 4096 == 0
    requires pa % 4096 == 0 && pa < 0x10_0000_0000_0000
    ensures var (s', r) := Map(s, root, va, pa, writable, user);
            && SpaceOk(s', root) && Slack(s', root, paths) == Slack(s, root, paths)
            && (r.Ok? ==> va !in Pages(s.memory, root)
                          && Pages(s'.memory, root) == Pages(s.memory, root)[va := Mapping(pa, writable, user)])
            && (r.Err? ==> r.error == if va in Pages(s.memory, root) then AlreadyMapped else OutOfMemory)
            && (r.Err? ==> va in Pages(s.memory, root) || Slack(s, root, paths) < 0)
  {
    hide And, Resolve, Entry, IndexesOf, Pages, Map, RightsOk, TreeOk, GrewByTables, LinksGrowOn, Missing, Demand, WalkTo;
    var (s', r) := Map(s, root, va, pa, writable, user);
    MapSpec(s, root, va, pa, writable, user);
    SlackConserved(s, s', root, va, paths);
    MissingIsDemand(s.memory, root, va);
    DemandMonotone(s.memory, root, WalkTo(va), paths);
  }

  /** Once every page of the set is mapped nothing is in demand. */
  lemma MappedNeedsNothing(s: Machine, root: nat, pages: set<u64>)
    requires pages <= Pages(s.memory, root).Keys
    ensures Slack(s, root, WalksTo(pages)) == |s.frames.Free()|
  {
    hide And, Resolve, Entry, IndexesOf, Pages, WalkTo;
    forall p | p in WalksTo(pages)
      ensures Resolve(s.memory, root, p).Some?
    {
      var va :| va in pages && p in WalkTo(va);
      MissingIsDemand(s.memory, root, va);
      assert p !in Demand(s.memory, root, WalkTo(va));
    }
    assert Demand(s.memory, root, WalksTo(pages)) == {};
  }

  lemma WalkInWalks(pages: set<u64>, va: u64)
    requires va in pages
    ensures WalkTo(va) <= WalksTo(pages)
  {
    hide WalkTo;
  }

  // ---- Identity mapping ----

  ghost function RangePages(start: nat, end: u64): set<u64> {
    set va: u64 | start <= va < end && va % PAGE_SIZE == 0
  }

  const LOWER_HALF_END: u64 := 0x8000_0000_0000

  lemma UpperHalfFails(s: Machine, root: nat, address: u64, writable: bool)
    requires SpaceOk(s, root) && address % 4096 == 0 && address >= LOWER_HALF_END
    ensures Map(s, root, address, address, writable, false).1.Err?
  {
    hide SpaceOk, Map, MapEffect, Pages, Missing, IndexesOf;
    MapSpec(s, root, address, address, writable, false);
  }

  lemma {:induction false} IdentityLoopSucceeds(s: Machine, root: nat, start: nat, address: u64, end: u64, writable: bool)
    requires SpaceOk(s, root) && start <= address <= end && address % PAGE_SIZE == 0 && end % PAGE_SIZE == 0
    requires RangePages(start, address) <= Pages(s.memory, root).Keys
    ensures IdentityLoop(s, root, address, end, writable).1.Ok? <==>
            && (address < end ==> end <= LOWER_HALF_END)
            && RangePages(address, end) !! Pages(s.memory, root).Keys
            && Slack(s, root, WalksTo(RangePages(start, end))) >= 0
    decreases end - address
  {
    hide And, SpaceOk, Pages, Map, WalksTo, WalkTo, Slack;
    var all := RangePages(start, end);
    if address == end {
      MappedNeedsNothing(s, root, all);
    } else {
      assert address in all && address in RangePages(address, end);
      if address >= LOWER_HALF_END {
        UpperHalfFails(s, root, address, writable);
      } else {
        WalkInWalks(all, address);
        MapWithSlack(s, root, address, address, writable, false, WalksTo(all));
        var (s', r) := Map(s, root, address, address, writable, false);
        if r.Ok? {
          IdentityLoopSucceeds(s', root, start, address + PAGE_SIZE, end, writable);
          RangeStep(s.memory, s'.memory, root, address, end, Mapping(address, writable, false));
        }
      }
    }
  }

  lemma RangeStep(m: Memory, m': Memory, root: nat, address: u64, end: u64, page: Mapping)
    requires address < end && address % PAGE_SIZE == 0 && end % PAGE_SIZE == 0
    requires address !in Pages(m, root) && Pages(m', root) == Pages(m, root)[address := page]
    ensures RangePages(address, end) !! Pages(m, root).Keys <==>
            RangePages(address + PAGE_SIZE, end) !! Pages(m', root).Keys
  {
    hide Pages;
    assert RangePages(address, end) == RangePages(address + PAGE_SIZE, end) + {address};
    assert Pages(m', root).Keys == Pages(m, root).Keys + {address};
  }

  /**
   Identity mapping succeeds if and only if the range is aligned, not empty and in the lower half, none of its
   pages is mapped, and there is a free frame for every table its walks lack.
   */
  lemma IdentityMapSucceedsIff(s: Machine, root: nat, start: u64, end: u64, writable: bool)
    requires SpaceOk(s, root)
    ensures IdentityMap(s, root, start, end, writable).1.Ok? <==>
            && start % PAGE_SIZE == 0 && end % PAGE_SIZE == 0 && start < end <= LOWER_HALF_END
            && RangePages(start, end) !! Pages(s.memory, root).Keys
            && |s.frames.Free()| >= |Demand(s.memory, root, WalksTo(RangePages(start, end)))|
  {
    hide And, SpaceOk, Pages, IdentityLoop, WalksTo, Demand;
    if start % PAGE_SIZE == 0 && end % PAGE_SIZE == 0 && start < end {
      IdentityLoopSucceeds(s, root, start, start, end, writable);
    }
  }

  // ---- The kernel heap ----

  ghost function HeapRange(from: nat, pages: nat): set<u64>
    requires pages <= HEAP_PAGES
  {
    set i: nat | from <= i < pages :: HeapPage(i)
  }

  lemma HeapArguments(s: FrameState, i: nat)
    requires s.Valid() && i < HEAP_PAGES && Allocate(s).1.Some?
    ensures HeapPage(i) < LOWER_HALF_END && HeapPage(i) % 4096 == 0
    ensures Allocate(s).1.value % 4096 == 0 && Allocate(s).1.value < 0x10_0000_0000_0000
  {
    AllocateTakesLowest(s);
  }

  lemma {:induction false} HeapLoopSucceeds(s: Machine, root: nat, mapped: nat, pages: nat)
    requires SpaceOk(s, root) && mapped <= pages <= HEAP_PAGES
    requires HeapRange(0, mapped) <= Pages(s.memory, root).Keys
    ensures HeapLoop(s, root, mapped, pages).1.Ok? <==>
            && HeapRange(mapped, pages) !! Pages(s.memory, root).Keys
            && Slack(s, root, WalksTo(HeapRange(0, pages))) >= pages - mapped
    decreases pages - mapped
  {
    hide And, SpaceOk, Pages, Map, WalksTo, WalkTo, Demand, Allocate, Rollback, Release;
    var all := HeapRange(0, pages);
    if mapped == pages {
      MappedNeedsNothing(s, root, all);
    } else {
      var va := HeapPage(mapped);
      assert va in all && va in HeapRange(mapped, pages);
      SpaceFrames(s, root);
      AllocateTakesLowest(s.frames);
      var (frames, r0) := Allocate(s.frames);
      if r0.Some? {
        var s1 := s.(frames := frames);
        AllocateKeepsSpace(s, root);
        HeapArguments(s.frames, mapped);
        WalkInWalks(all, va);
        MapWithSlack(s1, root, va, r0.value, true, false, WalksTo(all));
        var (s', r) := Map(s1, root, va, r0.value, true, false);
        if r.Ok? {
          HeapRangeStep(s.memory, s'.memory, root, mapped, pages, Mapping(r0.value, true, false));
          HeapLoopSucceeds(s', root, mapped + 1, pages);
        }
      }
    }
  }

  lemma HeapRangeStep(m: Memory, m': Memory, root: nat, mapped: nat, pages: nat, page: Mapping)
    requires mapped < pages <= HEAP_PAGES && HeapPage(mapped) !in Pages(m, root)
    requires Pages(m', root) == Pages(m, root)[HeapPage(mapped) := page]
    requires HeapRange(0, mapped) <= Pages(m, root).Keys
    ensures HeapRange(0, mapped + 1) <= Pages(m', root).Keys
    ensures HeapRange(mapped, pages) !! Pages(m, root).Keys <==>
            HeapRange(mapped + 1, pages) !! Pages(m', root).Keys
  {
    hide Pages;
    assert HeapRange(0, mapped + 1) == HeapRange(0, mapped) + {HeapPage(mapped)};
    assert HeapRange(mapped, pages) == HeapRange(mapped + 1, pages) + {HeapPage(mapped)};
    assert HeapPage(mapped) !in HeapRange(mapped + 1, pages);
    assert Pages(m', root).Keys == Pages(m, root).Keys + {HeapPage(mapped)};
  }

  /**
   Heap initialisation succeeds if and only if the heap is not initialised, the page count is positive and
   fits, none of the pages is mapped, and there is a free frame for every page and for every table the walks lack.
   */
  lemma InitializeSucceedsIff(s: Machine, root: nat, heap: Heap, pages: u64)
    requires SpaceOk(s, root)
    ensures Initialize(s, root, heap, pages).2.Ok? <==>
            && !heap.initialized && 0 < pages <= HEAP_PAGES
            && HeapRange(0, pages) !! Pages(s.memory, root).Keys
            && |s.frames.Free()| >= pages + |Demand(s.memory, root, WalksTo(HeapRange(0, pages)))|
  {
    hide And, SpaceOk, Pages, HeapLoop, WalksTo, Demand;
    if !heap.initialized && 0 < pages <= HEAP_PAGES {
      HeapLoopSucceeds(s, root, 0, pages);
    }
  }

  // ---- Which error a failing heap initialisation gives ----

  /** The tables that the walks to the first k heap pages lack. */
  ghost function Needed(m: Memory, root: nat, k: nat): nat
    requires k <= HEAP_PAGES
  {
    |Demand(m, root, WalksTo(HeapRange(0, k)))|
  }

  /** Why the loop stops at page k: no frame for the page, the page is mapped, or no frames for its tables. */
  ghost function HeapFailure(s: Machine, root: nat, k: nat): HeapError
    requires k < HEAP_PAGES
  {
    if |s.frames.Free()| == k + Needed(s.memory, root, k) then OutOfFrames
    else if HeapPage(k) in Pages(s.memory, root) then HeapMapFailed(AlreadyMapped)
    else HeapMapFailed(OutOfMemory)
  }

  /** The loop gets to page k, and cannot get past it. */
  ghost predicate StopsAt(s: Machine, root: nat, k: nat)
    requires k < HEAP_PAGES
  {
    && HeapRange(0, k) !! Pages(s.memory, root).Keys
    && |s.frames.Free()| >= k + Needed(s.memory, root, k)
    && (HeapPage(k) in Pages(s.memory, root) || |s.frames.Free()| < k + 1 + Needed(s.memory, root, k + 1))
  }

  lemma WalksGrow(k: nat)
    requires k < HEAP_PAGES
    ensures WalksTo(HeapRange(0, k)) <= WalksTo(HeapRange(0, k + 1))
    ensures WalkTo(HeapPage(k)) <= WalksTo(HeapRange(0, k + 1))
  {
    hide WalkTo;
    assert HeapRange(0, k) <= HeapRange(0, k + 1);
    assert HeapPage(k) in HeapRange(0, k + 1);
  }

  /** The state after the first `mapped` pages, as the frames of the state before them account for it. */
  ghost predicate HeapProgress(s0: Machine, s: Machine, root: nat, mapped: nat)
    requires mapped <= HEAP_PAGES
  {
    && SpaceOk(s, root)
    && HeapRange(0, mapped) !! Pages(s0.memory, root).Keys
    && Pages(s.memory, root).Keys == Pages(s0.memory, root).Keys + HeapRange(0, mapped)
    && (forall paths: set<Path> :: WalksTo(HeapRange(0, mapped)) <= paths ==>
          Slack(s, root, paths) == Slack(s0, root, paths) - mapped)
  }

  lemma ProgressFree(s0: Machine, s: Machine, root: nat, mapped: nat)
    requires mapped <= HEAP_PAGES && HeapProgress(s0, s, root, mapped)
    ensures |s.frames.Free()| == |s0.frames.Free()| - Needed(s0.memory, root, mapped) - mapped
  {
    hide SpaceOk, Pages, Demand, WalksTo, HeapRange;
    var paths := WalksTo(HeapRange(0, mapped));
    assert Slack(s, root, paths) == Slack(s0, root, paths) - mapped;
    MappedNeedsNothing(s, root, HeapRange(0, mapped));
  }

  /** What mapping the next page does, for any set of walks that takes in the page's own. */
  lemma NextPageSlack(s0: Machine, s: Machine, root: nat, mapped: nat, paths: set<Path>)
    requires mapped < HEAP_PAGES && HeapProgress(s0, s, root, mapped) && Allocate(s.frames).1.Some?
    requires WalksTo(HeapRange(0, mapped + 1)) <= paths
    ensures var f := Allocate(s.frames).1.value;
            var (s', r) := Map(s.(frames := Allocate(s.frames).0), root, HeapPage(mapped), f, true, false);
            && SpaceOk(s', root)
            && Slack(s', root, paths) == Slack(s0, root, paths) - mapped - 1
            && (r.Ok? ==> HeapPage(mapped) !in Pages(s.memory, root)
                          && Pages(s'.memory, root) == Pages(s.memory, root)[HeapPage(mapped) := Mapping(f, true, false)])
            && (r.Err? ==> r.error == if HeapPage(mapped) in Pages(s.memory, root) then AlreadyMapped else OutOfMemory)
            && (r.Err? ==> HeapPage(mapped) in Pages(s.memory, root) || Slack(s0, root, paths) - mapped - 1 < 0)
  {
    hide And, SpaceOk, Pages, Map, WalksTo, WalkTo, Demand, Allocate, HeapRange;
    SpaceFrames(s, root);
    AllocateTakesLowest(s.frames);
    AllocateKeepsSpace(s, root);
    HeapArguments(s.frames, mapped);
    WalksGrow(mapped);
    var s1 := s.(frames := Allocate(s.frames).0);
    MapWithSlack(s1, root, HeapPage(mapped), Allocate(s.frames).1.value, true, false, paths);
    assert Slack(s, root, paths) == Slack(s0, root, paths) - mapped;
  }

  lemma NextHeapPage(mapped: nat)
    requires mapped < HEAP_PAGES
    ensures HeapPage(mapped) !in HeapRange(0, mapped)
    ensures HeapRange(0, mapped + 1) == HeapRange(0, mapped) + {HeapPage(mapped)}
  {
  }

  /** One page that is mapped, as seen from the state before the loop. */
  lemma ProgressStep(s0: Machine, s: Machine, root: nat, mapped: nat)
    requires mapped < HEAP_PAGES && HeapProgress(s0, s, root, mapped) && Allocate(s.frames).1.Some?
    ensures var s1 := s.(frames := Allocate(s.frames).0);
            var (s', r) := Map(s1, root, HeapPage(mapped), Allocate(s.frames).1.value, true, false);
            && (r.Ok? ==> HeapProgress(s0, s', root, mapped + 1))
            && (r.Err? ==> r.error == if HeapPage(mapped) in Pages(s0.memory, root) then AlreadyMapped else OutOfMemory)
            && (r.Err? && HeapPage(mapped) !in Pages(s0.memory, root) ==>
                  |s0.frames.Free()| < mapped + 1 + Needed(s0.memory, root, mapped + 1))
  {
    hide And, SpaceOk, Pages, Map, WalksTo, Demand, Allocate, HeapRange;
    NextHeapPage(mapped);
    var (s', r) := Map(s.(frames := Allocate(s.frames).0), root, HeapPage(mapped), Allocate(s.frames).1.value, true, false);
    NextPageSlack(s0, s, root, mapped, WalksTo(HeapRange(0, mapped + 1)));
    forall paths: set<Path> | WalksTo(HeapRange(0, mapped + 1)) <= paths
      ensures Slack(s', root, paths) == Slack(s0, root, paths) - mapped - 1
    {
      NextPageSlack(s0, s, root, mapped, paths);
    }
  }

  lemma {:induction false} HeapLoopFails(s0: Machine, s: Machine, root: nat, mapped: nat, pages: nat) returns (k: nat)
    requires mapped <= pages <= HEAP_PAGES && HeapProgress(s0, s, root, mapped)
    ensures HeapLoop(s, root, mapped, pages).1.Err? ==>
              k < pages && StopsAt(s0, root, k) && HeapLoop(s, root, mapped, pages).1.error == HeapFailure(s0, root, k)
    decreases pages - mapped
  {
    hide Map, Allocate, Rollback, Release, Pages, SpaceOk, Needed, HeapRange, WalksTo, Slack;
    k := mapped;
    if mapped < pages {
      ProgressFree(s0, s, root, mapped);
      SpaceFrames(s, root);
      AllocateTakesLowest(s.frames);
      if Allocate(s.frames).1.Some? {
        ProgressStep(s0, s, root, mapped);
        var (s', r) := Map(s.(frames := Allocate(s.frames).0), root, HeapPage(mapped), Allocate(s.frames).1.value, true, false);
        if r.Ok? {
          k := HeapLoopFails(s0, s', root, mapped + 1, pages);
        }
      } else {
        NeededGrows(s0.memory, root, mapped);
      }
    }
  }

  lemma NeededGrows(m: Memory, root: nat, k: nat)
    requires k < HEAP_PAGES
    ensures Needed(m, root, k) <= Needed(m, root, k + 1)
  {
    WalksGrow(k);
    DemandMonotone(m, root, WalksTo(HeapRange(0, k)), WalksTo(HeapRange(0, k + 1)));
  }

  /**
   A failing initialisation names the first fault of its arguments, or the first page that cannot be backed
   and why: no frame left for it, the page mapped already, or no frames left for its tables.
   */
  lemma InitializeFailsWith(s: Machine, root: nat, heap: Heap, pages: u64) returns (k: nat)
    requires SpaceOk(s, root)
    ensures var r := Initialize(s, root, heap, pages).2;
            r.Err? ==>
              if heap.initialized then r.error == AlreadyInitialized
              else if pages == 0 then r.error == ZeroPages
              else if pages >= 0x10_0000_0000_0000 then r.error == SizeOverflow
              else if pages > 4096 then r.error == TooLarge
              else k < pages && StopsAt(s, root, k) && r.error == HeapFailure(s, root, k)
  {
    hide And, SpaceOk, Pages, HeapLoop, StopsAt, HeapFailure, WalksTo, Demand;
    k := 0;
    if !heap.initialized && 0 < pages <= HEAP_PAGES {
      assert HeapRange(0, 0) == {};
      k := HeapLoopFails(s, s, root, 0, pages);
    }
  }
}
