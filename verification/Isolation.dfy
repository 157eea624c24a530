/**
 Operations on one address space write to its own tables only, so the translations of every
 other address space stay as they are.
 */
module Isolation {
  import opened Words
  import opened PageEntries
  import opened Frames
  import opened PageTree
  import opened Paging
  import opened Descend
  import opened MappingProofs
  import opened AddressSpaces
  import opened KernelHeap

  ghost predicate TableAddress(m: Memory, root: nat, a: nat) {
    exists p: Path :: p.Valid() && Resolve(m, root, p) == Some(a)
  }

  /** Only tables of this tree have been written. */
  ghost predicate WritesOwnTables(m: Memory, m': Memory, root: nat) {
    forall a: nat :: !TableAddress(m', root, a) ==> TableAt(m', a) == TableAt(m, a)
  }

  /** Tables once linked stay linked, and only tables of this tree have been written. */
  ghost predicate Confined(m: Memory, m': Memory, root: nat) {
    && (forall q: Path :: q.Valid() && Resolve(m, root, q).Some? ==> Resolve(m', root, q) == Resolve(m, root, q))
    && WritesOwnTables(m, m', root)
  }

  lemma ConfinedTransitive(m: Memory, m1: Memory, m2: Memory, root: nat)
    requires Confined(m, m1, root) && Confined(m1, m2, root)
    ensures Confined(m, m2, root)
  {
    hide Resolve, TableAt;
    forall a: nat | !TableAddress(m2, root, a)
      ensures TableAt(m2, a) == TableAt(m, a)
    {
      assert !TableAddress(m1, root, a) by {
        forall p: Path | p.Valid()
          ensures Resolve(m1, root, p) != Some(a)
        {
          assert Resolve(m2, root, p) != Some(a);
        }
      }
    }
  }

  lemma WriteConfined(m: Memory, root: nat, p: Path, a: nat, i: nat, e: u64)
    requires p.Valid() && i < ENTRIES && Resolve(WriteEntry(m, a, i, e), root, p) == Some(a)
    requires forall q: Path :: q.Valid() ==> Resolve(WriteEntry(m, a, i, e), root, q) == Resolve(m, root, q)
    ensures Confined(m, WriteEntry(m, a, i, e), root)
  {
    hide Resolve;
    var m' := WriteEntry(m, a, i, e);
    assert TableAddress(m', root, a);
  }

  lemma DescendConfined(s: Machine, root: nat, p: Path, a: nat, i: nat, writable: bool, user: bool)
    requires p.Valid() && p.Depth() < 3 && i < ENTRIES
    requires TreeOk(s, root) && Resolve(s.memory, root, p) == Some(a)
    ensures Confined(s.memory, GetOrCreate(s, a, i, writable, user).0.memory, root)
  {
    hide And, Resolve, Entry, TreeOk, IsPresent, IsWritable, IsUser, EntryAddress, UpdatedAt, MakeEntry, Widen, Allocate;
    var (s', r) := GetOrCreate(s, a, i, writable, user);
    DescendStep(s, root, p, a, i, writable, user);
    if r.Some? {
      ResolveChild(s.memory, root, p, i);
      EntryResolved(s.memory, root, p, a, i);
      assert TableAddress(s'.memory, root, a) by { assert Resolve(s'.memory, root, p) == Some(a); }
      assert TableAddress(s'.memory, root, r.value) by { assert Resolve(s'.memory, root, Child(p, i)) == Some(r.value); }
    }
  }

  lemma WalkConfined(s: Machine, root: nat, ix: Indexes, writable: bool, user: bool)
    requires ix.Valid() && TreeOk(s, root)
    ensures Confined(s.memory, WalkCreating(s, root, ix, writable, user).0.memory, root)
  {
    hide And, Resolve, Entry, TreeOk, GetOrCreate, Confined, Descended;
    RootResolves(s.memory, root);
    DescendStep(s, root, Root, root, ix.pml4, writable, user);
    DescendConfined(s, root, Root, root, ix.pml4, writable, user);
    var (s1, r1) := GetOrCreate(s, root, ix.pml4, writable, user);
    if r1.Some? {
      DescendedResolves(s, s1, root, Root, ix.pml4, writable, user, r1.value);
      DescendStep(s1, root, PdptOf(ix), r1.value, ix.pdpt, writable, user);
      DescendConfined(s1, root, PdptOf(ix), r1.value, ix.pdpt, writable, user);
      var (s2, r2) := GetOrCreate(s1, r1.value, ix.pdpt, writable, user);
      ConfinedTransitive(s.memory, s1.memory, s2.memory, root);
      if r2.Some? {
        DescendedResolves(s1, s2, root, PdptOf(ix), ix.pdpt, writable, user, r2.value);
        DescendConfined(s2, root, PdOf(ix), r2.value, ix.pd, writable, user);
        var (s3, r3) := GetOrCreate(s2, r2.value, ix.pd, writable, user);
        ConfinedTransitive(s.memory, s2.memory, s3.memory, root);
      }
    }
  }

  lemma DescendedResolves(s: Machine, s': Machine, root: nat, p: Path, i: nat, writable: bool, user: bool, child: u64)
    requires p.Valid() && p.Depth() < 3 && i < ENTRIES && Descended(s, s', root, p, i, writable, user, child)
    ensures Child(p, i).Valid() && Resolve(s'.memory, root, Child(p, i)) == Some(child)
  {
  }

  lemma SelfConfined(m: Memory, root: nat)
    ensures Confined(m, m, root)
  {
  }

  lemma MapConfined(s: Machine, root: nat, va: u64, pa: u64, writable: bool, user: bool)
    requires SpaceOk(s, root)
    ensures Confined(s.memory, Map(s, root, va, pa, writable, user).0.memory, root)
  {
    hide And, Resolve, Entry, TreeOk, RightsOk, WalkCreating, Confined, IsPresent, MakeEntry, IndexesOf, ArgumentError,
      WriteEntry, Extends, TableAt;
    SelfConfined(s.memory, root);
    if ArgumentError(va, pa).None? {
      var ix := IndexesOf(va);
      var (s', r) := WalkCreating(s, root, ix, writable, user);
      WalkSpec(s, root, ix, writable, user);
      WalkConfined(s, root, ix, writable, user);
      if r.Some? {
        var pt := r.value;
        var e := MakeEntry(pa, writable, user);
        TreeOkUnshared(s', root);
        WriteChangesOneEntry(s'.memory, root, PtOf(ix), pt, ix.pt, e);
        WriteConfined(s'.memory, root, PtOf(ix), pt, ix.pt, e);
        ConfinedTransitive(s.memory, s'.memory, WriteEntry(s'.memory, pt, ix.pt, e), root);
      }
    }
  }

  lemma UnmapConfined(s: Machine, root: nat, va: u64)
    requires SpaceOk(s, root)
    ensures Confined(s.memory, Unmap(s.memory, root, va).0, root)
  {
    hide And, Resolve, Entry, TreeOk, RightsOk, Confined, IsPresent, IndexesOf, WriteEntry, IsCanonical, TableAt;
    SelfConfined(s.memory, root);
    if IsPage(va) {
      var ix := IndexesOf(va);
      UnmapWalk(s, root, va);
      var (m', r) := Unmap(s.memory, root, va);
      if r.Ok? {
        var pt := Resolve(s.memory, root, PtOf(ix)).value;
        TreeOkUnshared(s, root);
        WriteChangesOneEntry(s.memory, root, PtOf(ix), pt, ix.pt, 0);
        WriteConfined(s.memory, root, PtOf(ix), pt, ix.pt, 0);
      }
    }
  }

  lemma {:induction false} IdentityLoopConfined(s: Machine, root: nat, address: u64, end: u64, writable: bool)
    requires SpaceOk(s, root) && address % PAGE_SIZE == 0 && end % PAGE_SIZE == 0
    ensures Confined(s.memory, IdentityLoop(s, root, address, end, writable).0.memory, root)
    decreases end - address
  {
    hide Map, SpaceOk, Confined, MapOutcome, GrewByTables, LinksGrowOn, Pages;
    SelfConfined(s.memory, root);
    if address < end {
      MapSpec(s, root, address, address, writable, false);
      MapConfined(s, root, address, address, writable, false);
      var (s1, r1) := Map(s, root, address, address, writable, false);
      if r1.Ok? {
        IdentityLoopConfined(s1, root, address + PAGE_SIZE, end, writable);
        ConfinedTransitive(s.memory, s1.memory, IdentityLoop(s1, root, address + PAGE_SIZE, end, writable).0.memory, root);
      }
    }
  }

  lemma {:induction false} RollbackConfined(s0: Machine, s: Machine, root: nat, hs: seq<nat>, from: nat, pages: nat)
    requires HeapInv(s0, s, root, hs, from, pages)
    ensures Confined(s.memory, Rollback(s, root, from, |hs|).memory, root)
    decreases |hs| - from
  {
    hide Unmap, Release, Confined, SpaceOk, Pages, HeapPagesFrom, FramesSplit, NewLinksOnHeap, Tables;
    SelfConfined(s.memory, root);
    if from < |hs| {
      RollbackStep(s0, s, root, hs, from, pages);
      UnmapConfined(s, root, HeapPage(from));
      var (m, r) := Unmap(s.memory, root, HeapPage(from));
      var s1 := Machine(m, Release(s.frames, r.value));
      RollbackConfined(s0, s1, root, hs, from + 1, pages);
      ConfinedTransitive(s.memory, m, Rollback(s1, root, from + 1, |hs|).memory, root);
    }
  }

  lemma {:induction false} HeapLoopConfined(s0: Machine, s: Machine, root: nat, done: seq<nat>, pages: nat)
    requires HeapInv(s0, s, root, done, 0, pages)
    ensures Confined(s.memory, HeapLoop(s, root, |done|, pages).0.memory, root)
    decreases pages - |done|
  {
    hide Map, Release, Allocate, Confined, Backing, Pages, HeapPagesFrom, FramesSplit, FramesFrom, NewLinksOnHeap, Rollback, SpaceOk;
    SelfConfined(s.memory, root);
    if |done| < pages {
      var (frames, r0) := Allocate(s.frames);
      match r0
      case None =>
        assert frames == s.frames by { SpaceFrames(s, root); AllocateTakesLowest(s.frames); }
        RollbackConfined(s0, s, root, done, 0, pages);
      case Some(f) =>
        var s1 := s.(frames := frames);
        HeapLoopStep(s0, s, root, done, pages);
        AllocateKeepsSpace(s, root);
        MapConfined(s1, root, HeapPage(|done|), f, true, false);
        var (s', r) := Map(s1, root, HeapPage(|done|), f, true, false);
        if r.Ok? {
          HeapLoopConfined(s0, s', root, done + [f / FRAME_SIZE], pages);
          ConfinedTransitive(s.memory, s'.memory, HeapLoop(s', root, |done| + 1, pages).0.memory, root);
        } else {
          var s2 := s'.(frames := Release(s'.frames, f));
          RollbackConfined(s0, s2, root, done, 0, pages);
          ConfinedTransitive(s.memory, s'.memory, Rollback(s2, root, 0, |done|).memory, root);
        }
    }
  }

  // ---- Seen from another address space ----

  lemma {:induction false} OtherResolves(m: Memory, m': Memory, root: nat, other: nat, q: Path)
    requires q.Valid() && WritesOwnTables(m, m', root)
    requires forall p: Path :: p.Valid() && Resolve(m, other, p).Some? ==> !TableAddress(m', root, Resolve(m, other, p).value)
    ensures Resolve(m', other, q) == Resolve(m, other, q)
    ensures forall j: nat :: j < ENTRIES ==> Entry(m', other, q, j) == Entry(m, other, q, j)
  {
    hide And, TableAddress;
    if q.Child? {
      OtherResolves(m, m', root, other, q.parent);
    }
  }

  /** A space whose tables are none of this tree's keeps its invariant, its pages and its tables. */
  lemma OtherSpaceKept(s: Machine, s': Machine, root: nat, other: nat)
    requires SpaceOk(s, other) && WritesOwnTables(s.memory, s'.memory, root)
    requires s'.frames.Valid() && s.frames.owned <= s'.frames.owned
    requires forall p: Path :: p.Valid() && Resolve(s.memory, other, p).Some? ==>
               !TableAddress(s'.memory, root, Resolve(s.memory, other, p).value)
    ensures SpaceOk(s', other)
    ensures Pages(s'.memory, other) == Pages(s.memory, other)
    ensures Tables(s'.memory, other) == Tables(s.memory, other)
  {
    hide And, Resolve, Entry, WritesOwnTables, IsPresent, IsWritable, IsUser, IsHuge, IndexesOf, Pages, Tables, TableAddress;
    forall q: Path | q.Valid()
      ensures Resolve(s'.memory, other, q) == Resolve(s.memory, other, q)
      ensures forall j: nat :: j < ENTRIES ==> Entry(s'.memory, other, q, j) == Entry(s.memory, other, q, j)
    {
      OtherResolves(s.memory, s'.memory, root, other, q);
    }
    SameTables(s.memory, s'.memory, other);
    SameLeavesSamePages(s.memory, s'.memory, other);
    forall va: u64
      ensures Leaf(s'.memory, other, va) == Leaf(s.memory, other, va)
      ensures EffectiveRights(s'.memory, other, va) == EffectiveRights(s.memory, other, va)
    {
      var ix := IndexesOf(va);
      assert Resolve(s'.memory, other, Root) == Resolve(s.memory, other, Root);
      assert Resolve(s'.memory, other, PdptOf(ix)) == Resolve(s.memory, other, PdptOf(ix));
      assert Resolve(s'.memory, other, PdOf(ix)) == Resolve(s.memory, other, PdOf(ix));
    }
    assert TreeOk(s', other);
  }
}
