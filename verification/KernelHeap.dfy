/**
 Backing the kernel heap with frames, and undoing it when a page cannot be mapped.
 */
module KernelHeap {
  import opened Words
  import opened PageEntries
  import opened Frames
  import opened PageTree
  import opened Paging
  import opened MappingProofs
  import opened AddressSpaces

  const HEAP_START: u64 := 0x4000_0000
  const HEAP_SIZE: u64 := 0x100_0000
  const HEAP_PAGES: nat := 4096

  datatype HeapError = AlreadyInitialized | ZeroPages | SizeOverflow | TooLarge | OutOfFrames | HeapMapFailed(error: PagingError)

  datatype Heap = Heap(mappedPages: nat, initialized: bool)

  function HeapPage(i: nat): u64
    requires i <= HEAP_PAGES
  {
    HEAP_START + i * PAGE_SIZE
  }

  function Rollback(s: Machine, root: nat, from: nat, pages: nat): Machine
    requires from <= pages <= HEAP_PAGES
    decreases pages - from
  {
    if from == pages then s
    else
      var (m, r) := Unmap(s.memory, root, HeapPage(from));
      var frames := if r.Ok? then Release(s.frames, r.value) else s.frames;
      Rollback(Machine(m, frames), root, from + 1, pages)
  }

  function HeapLoop(s: Machine, root: nat, mapped: nat, pages: nat): (Machine, Result<(), HeapError>)
    requires mapped <= pages <= HEAP_PAGES
    decreases pages - mapped
  {
    if mapped == pages then (s, Ok(()))
    else
      match Allocate(s.frames)
      case (frames, None) => (Rollback(s.(frames := frames), root, 0, mapped), Err(OutOfFrames))
      case (frames, Some(f)) =>
        match Map(s.(frames := frames), root, HeapPage(mapped), f, true, false)
        case (s', Ok(_)) => HeapLoop(s', root, mapped + 1, pages)
        case (s', Err(e)) =>
          (Rollback(s'.(frames := Release(s'.frames, f)), root, 0, mapped), Err(HeapMapFailed(e)))
  }

  function Initialize(s: Machine, root: nat, heap: Heap, pages: u64): (Machine, Heap, Result<(), HeapError>) {
    if heap.initialized then (s, heap, Err(AlreadyInitialized))
    else if pages == 0 then (s, heap, Err(ZeroPages))
    else if pages * PAGE_SIZE >= TWO64 then (s, heap, Err(SizeOverflow))
    else if pages * PAGE_SIZE > HEAP_SIZE then (s, heap, Err(TooLarge))
    else
      match HeapLoop(s, root, 0, pages)
      case (s', Ok(_)) => (s', Heap(pages, true), Ok(()))
      case (s', Err(e)) => (s', Heap(0, false), Err(e))
  }

  // ---- Frames: what was used before, the tables of the tree, and the frames backing heap pages ----

  /** The used and owned sets are the old ones, plus the tables, plus the backing frames, without overlap. */
  ghost predicate FramesSplit(before: FrameState, now: FrameState, tables0: set<nat>, tables: set<nat>, backing: set<nat>) {
    && now.used == before.used + tables + backing
    && now.owned == before.owned + tables + backing
    && tables0 <= tables && tables0 <= before.owned
    && (tables - tables0) !! before.used
    && backing !! before.used && backing !! tables
  }

  lemma SplitAllocate(before: FrameState, now: FrameState, tables0: set<nat>, tables: set<nat>, backing: set<nat>)
    requires before.Valid() && now.Valid() && FramesSplit(before, now, tables0, tables, backing)
    requires Allocate(now).1.Some?
    ensures FramesSplit(before, Allocate(now).0, tables0, tables, backing + {Allocate(now).1.value / FRAME_SIZE})
    ensures Allocate(now).1.value / FRAME_SIZE !in now.used
  {
    AllocateTakesLowest(now);
  }

  lemma SplitMap(before: FrameState, s: Machine, s': Machine, root: nat, tables0: set<nat>, backing: set<nat>)
    requires before.Valid() && FramesSplit(before, s.frames, tables0, Tables(s.memory, root), backing)
    requires GrewByTables(s, s', root)
    ensures FramesSplit(before, s'.frames, tables0, Tables(s'.memory, root), backing)
  {
    hide Tables;
  }

  lemma SplitRelease(before: FrameState, now: FrameState, tables0: set<nat>, tables: set<nat>, backing: set<nat>, f: nat)
    requires before.Valid() && FramesSplit(before, now, tables0, tables, backing)
    requires f in backing && f < MAX_FRAMES
    ensures FramesSplit(before, Release(now, f * FRAME_SIZE), tables0, tables, backing - {f})
  {
    assert (f * FRAME_SIZE) / FRAME_SIZE == f && (f * FRAME_SIZE) % FRAME_SIZE == 0;
  }

  // ---- Pages ----

  /** The heap pages from `from` on, backed by the frames hs. */
  ghost function HeapPagesFrom(hs: seq<nat>, from: nat): map<nat, Mapping>
    requires Backing(hs)
  {
    map va: nat | HEAP_START + from * PAGE_SIZE <= va < HEAP_START + |hs| * PAGE_SIZE && va % PAGE_SIZE == 0 ::
      Mapping(hs[(va - HEAP_START) / PAGE_SIZE] * FRAME_SIZE, true, false)
  }

  /** Distinct frames, at most as many as the heap has pages. */
  ghost predicate Backing(hs: seq<nat>) {
    && |hs| <= HEAP_PAGES
    && (forall i :: 0 <= i < |hs| ==> hs[i] < MAX_FRAMES)
    && (forall i, j :: 0 <= i < j < |hs| ==> hs[i] != hs[j])
  }

  ghost function FramesFrom(hs: seq<nat>, from: nat): set<nat> {
    set i: nat | from <= i < |hs| :: hs[i]
  }

  lemma HeapPagesPush(hs: seq<nat>, h: nat, from: nat)
    requires Backing(hs) && Backing(hs + [h]) && h < MAX_FRAMES && from <= |hs|
    ensures HeapPagesFrom(hs + [h], from) == HeapPagesFrom(hs, from)[HeapPage(|hs|) := Mapping(h * FRAME_SIZE, true, false)]
    ensures FramesFrom(hs + [h], from) == FramesFrom(hs, from) + {h}
  {
    var hs' := hs + [h];
    assert FramesFrom(hs', from) == FramesFrom(hs, from) + {h} by {
      assert hs'[|hs|] == h;
      forall f | f in FramesFrom(hs, from) ensures f in FramesFrom(hs', from) {
        var i: nat :| from <= i < |hs| && hs[i] == f;
        assert hs'[i] == f;
      }
    }
    forall va: nat | HEAP_START + from * PAGE_SIZE <= va < HEAP_START + |hs'| * PAGE_SIZE && va % PAGE_SIZE == 0
      ensures va == HeapPage(|hs|) || va < HEAP_START + |hs| * PAGE_SIZE
    {
    }
  }

  lemma HeapPagesPop(hs: seq<nat>, from: nat)
    requires Backing(hs) && from < |hs|
    ensures HeapPage(from) in HeapPagesFrom(hs, from)
    ensures HeapPagesFrom(hs, from)[HeapPage(from)] == Mapping(hs[from] * FRAME_SIZE, true, false)
    ensures HeapPagesFrom(hs, from + 1) == HeapPagesFrom(hs, from) - {HeapPage(from)}
    ensures hs[from] in FramesFrom(hs, from)
    ensures FramesFrom(hs, from + 1) == FramesFrom(hs, from) - {hs[from]}
  {
  }

  // ---- The state part-way through the loops ----

  /** The tables a heap of so many pages can need. */
  predicate OnHeapWalk(q: Path, pages: nat) {
    || q == Child(Root, 0)
    || q == Child(Child(Root, 0), 1)
    || (q.Child? && q.parent == Child(Child(Root, 0), 1) && q.index * ENTRIES < pages)
  }

  ghost predicate NewLinksOnHeap(m0: Memory, m: Memory, root: nat, pages: nat) {
    forall q: Path :: q.Valid() ==>
      && (Resolve(m0, root, q).Some? ==> Resolve(m, root, q) == Resolve(m0, root, q))
      && (Resolve(m, root, q).Some? && Resolve(m0, root, q).None? ==> OnHeapWalk(q, pages))
  }

  /** Pages from..|hs| of the heap are mapped on top of s0, and nothing else differs but new tables. */
  ghost predicate HeapInv(s0: Machine, s: Machine, root: nat, hs: seq<nat>, from: nat, pages: nat) {
    && Backing(hs) && from <= |hs| <= pages <= HEAP_PAGES
    && SpaceOk(s0, root) && SpaceOk(s, root)
    && Pages(s.memory, root) == Pages(s0.memory, root) + HeapPagesFrom(hs, from)
    && Pages(s0.memory, root).Keys !! HeapPagesFrom(hs, from).Keys
    && FramesSplit(s0.frames, s.frames, Tables(s0.memory, root), Tables(s.memory, root), FramesFrom(hs, from))
    && NewLinksOnHeap(s0.memory, s.memory, root, pages)
  }

  // ---- Allocator calls beside the tree ----

  lemma AllocateKeepsSpace(s: Machine, root: nat)
    requires SpaceOk(s, root)
    ensures SpaceOk(s.(frames := Allocate(s.frames).0), root)
  {
    hide And, Entry, Resolve, Owns, Allocate, RightsOk;
    AllocateTakesLowest(s.frames);
    var s' := s.(frames := Allocate(s.frames).0);
    forall p: Path | p.Valid() && Resolve(s.memory, root, p).Some?
      ensures Owns(s'.frames, Resolve(s.memory, root, p).value)
    {
      OwnsAfterAllocate(s.frames, Resolve(s.memory, root, p).value);
    }
  }

  /** Giving back a frame that holds no table keeps the address space intact. */
  lemma ReleaseKeepsSpace(s: Machine, root: nat, address: u64)
    requires SpaceOk(s, root) && address / FRAME_SIZE !in Tables(s.memory, root)
    ensures SpaceOk(s.(frames := Release(s.frames, address)), root)
  {
    hide And, Entry, Resolve, Release, RightsOk, Tables;
    ReleaseReturnsOne(s.frames, address);
    var s' := s.(frames := Release(s.frames, address));
    forall p: Path | p.Valid() && Resolve(s.memory, root, p).Some?
      ensures Owns(s'.frames, Resolve(s.memory, root, p).value)
    {
      var t := Resolve(s.memory, root, p).value;
      OwnsAfterRelease(s.frames, address, t);
      if t == address {
        InTables(s.memory, root, p, t);
      }
    }
  }

  // ---- rollback ----

  lemma RollbackStep(s0: Machine, s: Machine, root: nat, hs: seq<nat>, from: nat, pages: nat)
    requires HeapInv(s0, s, root, hs, from, pages) && from < |hs|
    ensures var (m, r) := Unmap(s.memory, root, HeapPage(from));
            && r == Ok(hs[from] * FRAME_SIZE)
            && HeapInv(s0, Machine(m, Release(s.frames, r.value)), root, hs, from + 1, pages)
  {
    hide And, Entry, Resolve, SpaceOk, Unmap, Pages, Release, HeapPagesFrom, FramesFrom, Tables, IsPage, FramesSplit;
    var va := HeapPage(from);
    var (m, r) := Unmap(s.memory, root, va);
    HeapPagesPop(hs, from);
    HeapPageIsPage(from);
    UnmapSpec(s, root, va);
    var s1 := s.(memory := m);
    assert s0.frames.Valid() by { SpaceFrames(s0, root); }
    assert hs[from] !in Tables(m, root) && hs[from] * FRAME_SIZE / FRAME_SIZE == hs[from] by {
      BackingNoTable(s0.frames, s.frames, Tables(s0.memory, root), Tables(s.memory, root), FramesFrom(hs, from));
    }
    ReleaseKeepsSpace(s1, root, r.value);
    SplitRelease(s0.frames, s.frames, Tables(s0.memory, root), Tables(s.memory, root), FramesFrom(hs, from), hs[from]);
  }

  lemma BackingNoTable(before: FrameState, now: FrameState, tables0: set<nat>, tables: set<nat>, backing: set<nat>)
    requires FramesSplit(before, now, tables0, tables, backing)
    ensures backing !! tables
  {
  }

  lemma SpaceFrames(s: Machine, root: nat)
    requires SpaceOk(s, root)
    ensures s.frames.Valid()
  {
  }

  lemma HeapIndexes(i: nat)
    requires i < HEAP_PAGES
    ensures IndexesOf(HeapPage(i)) == Indexes(0, 1, i / 512, i % 512)
  {
    hide And;
    var va := HeapPage(i);
    IndexesAre(va);
    Digits(va);
    assert va / 0x1000 == 0x4_0000 + i;
  }

  lemma HeapPageIsPage(i: nat)
    requires i < HEAP_PAGES
    ensures IsPage(HeapPage(i))
  {
    hide And;
    CanonicalHalves(HeapPage(i));
  }

  lemma {:induction false} RollbackSpec(s0: Machine, s: Machine, root: nat, hs: seq<nat>, from: nat, pages: nat)
    requires HeapInv(s0, s, root, hs, from, pages)
    ensures HeapInv(s0, Rollback(s, root, from, |hs|), root, hs, |hs|, pages)
    decreases |hs| - from
  {
    hide Unmap, Release;
    if from < |hs| {
      RollbackStep(s0, s, root, hs, from, pages);
      var (m, r) := Unmap(s.memory, root, HeapPage(from));
      RollbackSpec(s0, Machine(m, Release(s.frames, r.value)), root, hs, from + 1, pages);
    }
  }

  // ---- the mapping loop ----

  lemma HeapLinks(m0: Memory, m: Memory, m': Memory, root: nat, i: nat, pages: nat)
    requires i < pages <= HEAP_PAGES
    requires NewLinksOnHeap(m0, m, root, pages)
    requires LinksGrowOn(m, m', root, IndexesOf(HeapPage(i)))
    ensures NewLinksOnHeap(m0, m', root, pages)
  {
    hide And, Entry, Resolve, IndexesOf;
    HeapIndexes(i);
    assert i / 512 * ENTRIES < pages;
    var ix := Indexes(0, 1, i / 512, i % 512);
    assert OnHeapWalk(PdptOf(ix), pages) && OnHeapWalk(PdOf(ix), pages) && OnHeapWalk(PtOf(ix), pages);
  }

  /** What one attempt to map a page has done, before its frame is kept or given back. */
  lemma HeapMapStep(s0: Machine, s: Machine, root: nat, hs: seq<nat>, pages: nat)
    requires HeapInv(s0, s, root, hs, 0, pages) && |hs| < pages
    requires Allocate(s.frames).1.Some?
    ensures var f := Allocate(s.frames).1.value;
            var va := HeapPage(|hs|);
            var (s', r) := Map(s.(frames := Allocate(s.frames).0), root, va, f, true, false);
            && f / FRAME_SIZE * FRAME_SIZE == f && f / FRAME_SIZE < MAX_FRAMES && f / FRAME_SIZE !in FramesFrom(hs, 0)
            && SpaceOk(s', root)
            && NewLinksOnHeap(s0.memory, s'.memory, root, pages)
            && FramesSplit(s0.frames, s'.frames, Tables(s0.memory, root), Tables(s'.memory, root),
                           FramesFrom(hs, 0) + {f / FRAME_SIZE})
            && Pages(s'.memory, root) ==
               (if r.Ok? then Pages(s.memory, root)[va := Mapping(f, true, false)] else Pages(s.memory, root))
            && (r.Ok? ==> va !in Pages(s.memory, root))
  {
    hide And, Entry, Resolve, SpaceOk, Map, Pages, Release, HeapPagesFrom, FramesFrom, Tables, FramesSplit, GrewByTables,
      LinksGrowOn, NewLinksOnHeap, Allocate, MapOutcome, IndexesOf, Backing;
    var (frames, r0) := Allocate(s.frames);
    var f := r0.value;
    var h := f / FRAME_SIZE;
    var s1 := s.(frames := frames);
    var va := HeapPage(|hs|);
    SpaceFrames(s, root);
    SpaceFrames(s0, root);
    var t0, t, b := Tables(s0.memory, root), Tables(s.memory, root), FramesFrom(hs, 0);
    SplitAllocate(s0.frames, s.frames, t0, t, b);
    assert f == h * FRAME_SIZE && h < MAX_FRAMES by { AllocateTakesLowest(s.frames); }
    BackingUsed(s0.frames, s.frames, t0, t, b);
    AllocateKeepsSpace(s, root);
    MapSpec(s1, root, va, f, true, false);
    var (s2, r) := Map(s1, root, va, f, true, false);
    HeapLinks(s0.memory, s.memory, s2.memory, root, |hs|, pages);
    SplitMap(s0.frames, s1, s2, root, t0, b + {h});
    if r.Ok? {
      OutcomeUnmapped(s1, root, va, f);
    }
  }

  /** One page: either the invariant moves on, or giving the frame back restores it. */
  lemma HeapLoopStep(s0: Machine, s: Machine, root: nat, hs: seq<nat>, pages: nat)
    requires HeapInv(s0, s, root, hs, 0, pages) && |hs| < pages
    requires Allocate(s.frames).1.Some?
    ensures var f := Allocate(s.frames).1.value;
            var (s', r) := Map(s.(frames := Allocate(s.frames).0), root, HeapPage(|hs|), f, true, false);
            && (r.Ok? ==> HeapInv(s0, s', root, hs + [f / FRAME_SIZE], 0, pages))
            && (r.Err? ==> HeapInv(s0, s'.(frames := Release(s'.frames, f)), root, hs, 0, pages))
  {
    hide And, Entry, Resolve, SpaceOk, Map, Pages, Release, HeapPagesFrom, FramesFrom, Tables, FramesSplit,
      NewLinksOnHeap, Allocate, Backing;
    HeapMapStep(s0, s, root, hs, pages);
    var f := Allocate(s.frames).1.value;
    var h := f / FRAME_SIZE;
    var (s', r) := Map(s.(frames := Allocate(s.frames).0), root, HeapPage(|hs|), f, true, false);
    var t0, t, b := Tables(s0.memory, root), Tables(s'.memory, root), FramesFrom(hs, 0);
    if r.Ok? {
      FreshBacking(hs, h);
      HeapPagesPush(hs, h, 0);
    } else {
      SpaceFrames(s0, root);
      SplitRelease(s0.frames, s'.frames, t0, t, b + {h}, h);
      assert b + {h} - {h} == b;
      BackingNoTable(s0.frames, s'.frames, t0, t, b + {h});
      ReleaseKeepsSpace(s', root, f);
    }
  }

  lemma OutcomeUnmapped(s: Machine, root: nat, va: u64, pa: u64)
    requires MapOutcome(s, root, va, pa).Ok?
    ensures va !in Pages(s.memory, root)
  {
  }

  lemma BackingUsed(before: FrameState, now: FrameState, tables0: set<nat>, tables: set<nat>, backing: set<nat>)
    requires FramesSplit(before, now, tables0, tables, backing)
    ensures backing <= now.used && tables <= now.used
  {
  }

  lemma FreshBacking(hs: seq<nat>, h: nat)
    requires Backing(hs) && |hs| < HEAP_PAGES && h < MAX_FRAMES && h !in FramesFrom(hs, 0)
    ensures Backing(hs + [h])
  {
    forall i | 0 <= i < |hs|
      ensures hs[i] != h
    {
      assert hs[i] in FramesFrom(hs, 0);
    }
  }

  lemma {:induction false} HeapLoopSpec(s0: Machine, s: Machine, root: nat, done: seq<nat>, pages: nat) returns (hs: seq<nat>)
    requires HeapInv(s0, s, root, done, 0, pages)
    ensures var (s', r) := HeapLoop(s, root, |done|, pages);
            if r.Ok? then |hs| == pages && HeapInv(s0, s', root, hs, 0, pages)
            else HeapInv(s0, s', root, hs, |hs|, pages)
    decreases pages - |done|
  {
    hide Map, Release, Allocate, Backing, SpaceOk, Pages, HeapPagesFrom, FramesSplit, FramesFrom, NewLinksOnHeap, Rollback;
    hs := done;
    if |done| < pages {
      var (frames, r0) := Allocate(s.frames);
      match r0
      case None =>
        assert frames == s.frames by { SpaceFrames(s, root); AllocateTakesLowest(s.frames); }
        RollbackSpec(s0, s, root, done, 0, pages);
      case Some(f) =>
        HeapLoopStep(s0, s, root, done, pages);
        var (s', r) := Map(s.(frames := frames), root, HeapPage(|done|), f, true, false);
        if r.Ok? {
          hs := HeapLoopSpec(s0, s', root, done + [f / FRAME_SIZE], pages);
        } else {
          RollbackSpec(s0, s'.(frames := Release(s'.frames, f)), root, done, 0, pages);
        }
    }
  }

  lemma HeapInvStart(s: Machine, root: nat, pages: nat)
    requires SpaceOk(s, root) && pages <= HEAP_PAGES
    ensures HeapInv(s, s, root, [], 0, pages)
  {
    hide And, Entry, Resolve, RightsOk;
    TablesAreOwned(s, root);
    assert HeapPagesFrom([], 0) == map[];
    assert FramesFrom([], 0) == {};
  }

  // ---- how many tables a failed initialisation can leave ----

  ghost function FrameOfPath(m: Memory, root: nat, q: Path): nat
    requires q.Valid()
  {
    match Resolve(m, root, q)
    case None => 0
    case Some(a) => a / FRAME_SIZE
  }

  ghost function PtFrames(m: Memory, root: nat, n: nat): set<nat>
    requires n <= ENTRIES
  {
    if n == 0 then {} else PtFrames(m, root, n - 1) + {FrameOfPath(m, root, PtOf(Indexes(0, 1, n - 1, 0)))}
  }

  lemma {:induction false} PtFramesBound(m: Memory, root: nat, n: nat)
    requires n <= ENTRIES
    ensures |PtFrames(m, root, n)| <= n
    ensures forall c: nat :: c < n ==> FrameOfPath(m, root, PtOf(Indexes(0, 1, c, 0))) in PtFrames(m, root, n)
  {
    hide FrameOfPath;
    if n > 0 {
      PtFramesBound(m, root, n - 1);
    }
  }

  /** New tables lie on the heap's walk: one PDPT, one PD and one PT per 512 pages. */
  lemma NewTablesBound(m0: Memory, m: Memory, root: nat, pages: nat)
    requires NewLinksOnHeap(m0, m, root, pages) && 0 < pages <= HEAP_PAGES
    ensures |Tables(m, root) - Tables(m0, root)| <= 2 + (pages + 511) / 512
  {
    hide Resolve;
    var n := (pages + 511) / 512;
    var ix := Indexes(0, 1, 0, 0);
    var bound := {FrameOfPath(m, root, PdptOf(ix)), FrameOfPath(m, root, PdOf(ix))} + PtFrames(m, root, n);
    PtFramesBound(m, root, n);
    forall f | f in Tables(m, root) - Tables(m0, root)
      ensures f in bound
    {
      var q: Path :| q.Valid() && Resolve(m, root, q) == Some(f * FRAME_SIZE);
      assert !IsTable(m0, root, f);
      assert Resolve(m0, root, q).None?;
      assert OnHeapWalk(q, pages);
      assert FrameOfPath(m, root, q) == f;
      if q != PdptOf(ix) && q != PdOf(ix) {
        assert q == PtOf(Indexes(0, 1, q.index, 0));
        assert q.index < n;
      }
    }
    SubsetSize(Tables(m, root) - Tables(m0, root), bound);
  }

  lemma SubsetSize<T>(a: set<T>, b: set<T>)
    requires a <= b
    ensures |a| <= |b|
  {
    assert b == a + (b - a);
  }

  /** Nothing is left of a failed attempt but tables linked into the tree, and not many of those. */
  ghost predicate UndoneBut(s: Machine, s': Machine, root: nat, pages: nat) {
    && SpaceOk(s', root)
    && Pages(s'.memory, root) == Pages(s.memory, root)
    && GrewByTables(s, s', root)
    && |Tables(s'.memory, root) - Tables(s.memory, root)| <= 2 + (pages + 511) / 512
  }

  lemma NothingLeft(hs: seq<nat>)
    requires Backing(hs)
    ensures FramesFrom(hs, |hs|) == {} && HeapPagesFrom(hs, |hs|) == map[]
  {
  }

  lemma RolledBack(s: Machine, s': Machine, root: nat, hs: seq<nat>, pages: nat)
    requires HeapInv(s, s', root, hs, |hs|, pages) && pages > 0
    ensures UndoneBut(s, s', root, pages)
  {
    hide And, Entry, Resolve, SpaceOk, Pages, HeapPagesFrom, FramesFrom, Tables, NewLinksOnHeap;
    NothingLeft(hs);
    NewTablesBound(s.memory, s'.memory, root, pages);
  }

  lemma NothingDone(s: Machine, root: nat, pages: nat)
    requires SpaceOk(s, root)
    ensures UndoneBut(s, s, root, pages)
  {
    hide And, Entry, Resolve, RightsOk, Pages, Tables;
    TablesAreOwned(s, root);
  }

  /**
   If initialisation fails at any page, for any reason, every page is as it was before, the used and
   owned frames are the old ones plus exactly the tables now linked into the tree, and the new ones number
   at most two plus one per 512 pages. If it succeeds, the heap's pages are added to the page map, writable
   and supervisor-only, each backed by its own frame that nothing else holds.
   */
  lemma InitializeSpec(s: Machine, root: nat, heap: Heap, pages: u64) returns (hs: seq<nat>)
    requires SpaceOk(s, root)
    ensures var (s', heap', r) := Initialize(s, root, heap, pages);
            && (r.Err? ==> UndoneBut(s, s', root, pages))
            && (heap.initialized || pages == 0 || pages > 4096 ==> r.Err? && s' == s && heap' == heap)
            && (r.Err? && !heap.initialized && 0 < pages <= 4096 ==> heap' == Heap(0, false))
            && (r.Ok? ==> |hs| == pages && HeapInv(s, s', root, hs, 0, pages) && heap' == Heap(pages, true))
  {
    hide UndoneBut, HeapInv, HeapLoop, SpaceOk;
    hs := [];
    if !heap.initialized && pages != 0 && pages * PAGE_SIZE <= HEAP_SIZE {
      HeapInvStart(s, root, pages);
      hs := HeapLoopSpec(s, s, root, [], pages);
      var (s', r) := HeapLoop(s, root, 0, pages);
      if r.Err? {
        RolledBack(s, s', root, hs, pages);
      }
    } else {
      NothingDone(s, root, pages);
    }
  }
}
