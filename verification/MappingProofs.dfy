/**
 `map` and `unmap` against the abstract page map: a successful call changes exactly one page,
 a failing call changes no page, and the tables keep their shape and their rights.
 */
module MappingProofs {
  import opened Words
  import opened PageEntries
  import opened Frames
  import opened PageTree
  import opened Paging
  import opened Descend

  // ---- What the walk may do to the tree ----

  /** Last-level entries stay as they are. */
  ghost predicate SameLeaves(m: Memory, m': Memory, root: nat) {
    forall q: Path, j: nat :: q.Valid() && q.Depth() == 3 && j < ENTRIES ==>
      Entry(m', root, q, j) == Entry(m, root, q, j)
  }

  /** Present intermediate entries stay present and lose no right. */
  ghost predicate RightsGrow(m: Memory, m': Memory, root: nat) {
    forall q: Path, j: nat ::
      q.Valid() && q.Depth() < 3 && j < ENTRIES && IsPresent(Entry(m, root, q, j)) ==>
        && IsPresent(Entry(m', root, q, j))
        && (IsWritable(Entry(m, root, q, j)) ==> IsWritable(Entry(m', root, q, j)))
        && (IsUser(Entry(m, root, q, j)) ==> IsUser(Entry(m', root, q, j)))
  }

  /** Links stay, and new ones lie on the walk to one page. */
  ghost predicate LinksGrowOn(m: Memory, m': Memory, root: nat, ix: Indexes)
    requires ix.Valid()
  {
    forall q: Path :: q.Valid() ==>
      && (Resolve(m, root, q).Some? ==> Resolve(m', root, q) == Resolve(m, root, q))
      && (Resolve(m', root, q).Some? && Resolve(m, root, q).None? ==> q == PdptOf(ix) || q == PdOf(ix) || q == PtOf(ix))
  }

  ghost predicate IsTable(m: Memory, root: nat, f: nat) {
    exists p: Path :: p.Valid() && Resolve(m, root, p) == Some(f * FRAME_SIZE)
  }

  /** The frames that hold tables of the tree. */
  ghost function Tables(m: Memory, root: nat): set<nat> {
    set f: nat | f < MAX_FRAMES && IsTable(m, root, f)
  }

  /** Every frame taken from the allocator is linked into the tree, and nothing is given back. */
  ghost predicate GrewByTables(s: Machine, s': Machine, root: nat) {
    && s'.frames.used == s.frames.used + Tables(s'.memory, root)
    && s'.frames.owned == s.frames.owned + Tables(s'.memory, root)
    && Tables(s.memory, root) <= Tables(s'.memory, root)
    && (Tables(s'.memory, root) - Tables(s.memory, root)) !! s.frames.used
  }

  ghost predicate Extends(s: Machine, s': Machine, root: nat, ix: Indexes)
    requires ix.Valid()
  {
    && SameLeaves(s.memory, s'.memory, root)
    && RightsGrow(s.memory, s'.memory, root)
    && LinksGrowOn(s.memory, s'.memory, root, ix)
    && GrewByTables(s, s', root)
  }

  lemma TablesAreOwned(s: Machine, root: nat)
    requires TreeOk(s, root)
    ensures Tables(s.memory, root) <= s.frames.owned
  {
    hide And, Resolve;
    forall f | f in Tables(s.memory, root)
      ensures f in s.frames.owned
    {
      var p: Path :| p.Valid() && Resolve(s.memory, root, p) == Some(f * FRAME_SIZE);
      assert Owns(s.frames, f * FRAME_SIZE);
    }
  }

  lemma ExtendsSelf(s: Machine, root: nat, ix: Indexes)
    requires ix.Valid() && TreeOk(s, root)
    ensures Extends(s, s, root, ix)
  {
    hide And, Entry, Resolve;
    TablesAreOwned(s, root);
  }

  lemma ExtendsTransitive(s: Machine, s1: Machine, s2: Machine, root: nat, ix: Indexes)
    requires ix.Valid() && Extends(s, s1, root, ix) && Extends(s1, s2, root, ix)
    ensures Extends(s, s2, root, ix)
  {
    hide And, Entry, Resolve, Tables;
  }

  /** The walk to a present leaf is present all the way. */
  lemma LeafNeedsWalk(m: Memory, root: nat, va: u64)
    requires IsPresent(Leaf(m, root, va))
    ensures var ix := IndexesOf(va);
            && IsPresent(Entry(m, root, Root, ix.pml4))
            && IsPresent(Entry(m, root, PdptOf(ix), ix.pdpt))
            && IsPresent(Entry(m, root, PdOf(ix), ix.pd))
  {
    hide IndexesOf;
    var ix := IndexesOf(va);
    EntryBelow(m, root, Root, ix.pml4, ix.pdpt);
    EntryBelow(m, root, PdptOf(ix), ix.pdpt, ix.pd);
    EntryBelow(m, root, PdOf(ix), ix.pd, ix.pt);
    NothingPresentInZero();
  }

  lemma NothingPresentInZero()
    ensures !IsPresent(0)
  {
  }

  lemma ExtendsKeepsRights(s: Machine, s': Machine, root: nat, ix: Indexes)
    requires ix.Valid() && Extends(s, s', root, ix) && RightsOk(s.memory, root)
    ensures RightsOk(s'.memory, root)
  {
    hide And, Entry, Resolve, IndexesOf, Tables, IsPresent, IsWritable, IsUser;
    forall va: u64 | IsPresent(Leaf(s'.memory, root, va))
      ensures EffectiveRights(s'.memory, root, va) ==
              (IsWritable(Leaf(s'.memory, root, va)), IsUser(Leaf(s'.memory, root, va)))
    {
      assert Leaf(s'.memory, root, va) == Leaf(s.memory, root, va);
      LeafNeedsWalk(s.memory, root, va);
    }
  }

  lemma SameLeavesSamePages(m: Memory, m': Memory, root: nat)
    requires SameLeaves(m, m', root)
    ensures Pages(m', root) == Pages(m, root)
  {
    hide And, Entry, Resolve, IndexesOf, IsPresent, IsWritable, IsUser, EntryAddress, IsPage;
    assert forall va: u64 :: Leaf(m', root, va) == Leaf(m, root, va);
  }

  // ---- One level, then three ----

  predicate OnWalk(c: Path, ix: Indexes)
    requires ix.Valid()
  {
    c == PdptOf(ix) || c == PdOf(ix) || c == PtOf(ix)
  }

  lemma TablesAfterLink(m: Memory, m': Memory, root: nat, c: Path, child: nat)
    requires c.Valid() && child % FRAME_SIZE == 0 && child / FRAME_SIZE < MAX_FRAMES
    requires Resolve(m', root, c) == Some(child)
    requires Resolve(m, root, c) == None || Resolve(m, root, c) == Some(child)
    requires forall q: Path :: q.Valid() && q != c ==> Resolve(m', root, q) == Resolve(m, root, q)
    ensures Tables(m', root) == Tables(m, root) + {child / FRAME_SIZE}
  {
    hide Resolve;
    forall f: nat | f < MAX_FRAMES
      ensures f in Tables(m', root) <==> f in Tables(m, root) + {child / FRAME_SIZE}
    {
      if f in Tables(m, root) {
        var q: Path :| q.Valid() && Resolve(m, root, q) == Some(f * FRAME_SIZE);
        assert Resolve(m', root, q) == Some(f * FRAME_SIZE);
      }
      if f == child / FRAME_SIZE {
        assert Resolve(m', root, c) == Some(f * FRAME_SIZE);
      }
      if f in Tables(m', root) {
        var q: Path :| q.Valid() && Resolve(m', root, q) == Some(f * FRAME_SIZE);
        assert q != c ==> Resolve(m, root, q) == Some(f * FRAME_SIZE);
      }
    }
  }

  lemma DescendGrowsTables(s: Machine, s': Machine, root: nat, p: Path, i: nat, writable: bool, user: bool, child: u64)
    requires p.Valid() && p.Depth() < 3 && i < ENTRIES
    requires TreeOk(s, root) && Descended(s, s', root, p, i, writable, user, child)
    ensures GrewByTables(s, s', root)
  {
    hide And, Entry, Resolve, Tables, IsPresent, IsWritable, IsUser, EntryAddress, Allocate;
    var c := Child(p, i);
    ResolveChild(s.memory, root, p, i);
    TablesAreOwned(s, root);
    if IsPresent(Entry(s.memory, root, p, i)) {
      assert Owns(s.frames, Resolve(s.memory, root, c).value);
      TablesAfterLink(s.memory, s'.memory, root, c, child);
      assert child / FRAME_SIZE in Tables(s.memory, root) by { InTables(s.memory, root, c, child); }
    } else {
      AllocateTakesLowest(s.frames);
      TablesAfterLink(s.memory, s'.memory, root, c, child);
    }
  }

  lemma InTables(m: Memory, root: nat, p: Path, a: nat)
    requires p.Valid() && Resolve(m, root, p) == Some(a)
    requires a % FRAME_SIZE == 0 && a / FRAME_SIZE < MAX_FRAMES
    ensures a / FRAME_SIZE in Tables(m, root)
  {
    hide Resolve;
    assert Resolve(m, root, p) == Some(a / FRAME_SIZE * FRAME_SIZE);
  }

  lemma ResolveChild(m: Memory, root: nat, p: Path, i: nat)
    requires p.Valid() && p.Depth() < 3 && i < ENTRIES
    ensures Child(p, i).Valid()
    ensures var e := Entry(m, root, p, i);
            Resolve(m, root, Child(p, i)) == if IsPresent(e) then Some(EntryAddress(e)) else None
  {
  }

  lemma DescendExtends(s: Machine, s': Machine, root: nat, p: Path, i: nat, writable: bool, user: bool, child: u64, ix: Indexes)
    requires p.Valid() && p.Depth() < 3 && i < ENTRIES && ix.Valid() && OnWalk(Child(p, i), ix)
    requires TreeOk(s, root) && Descended(s, s', root, p, i, writable, user, child)
    ensures Extends(s, s', root, ix)
  {
    hide And, Entry, Resolve, TreeOk, Tables, IsPresent, IsWritable, IsUser, EntryAddress;
    DescendGrowsTables(s, s', root, p, i, writable, user, child);
    ResolveChild(s.memory, root, p, i);
  }

  /** How many tables a walk would have to allocate. */
  ghost function Missing(m: Memory, root: nat, ix: Indexes): nat
    requires ix.Valid()
  {
    if !IsPresent(Entry(m, root, Root, ix.pml4)) then 3
    else if !IsPresent(Entry(m, root, PdptOf(ix), ix.pdpt)) then 2
    else if !IsPresent(Entry(m, root, PdOf(ix), ix.pd)) then 1
    else 0
  }

  /** All three intermediate entries of the walk carry the requested rights. */
  ghost predicate WalkGrants(m: Memory, root: nat, ix: Indexes, writable: bool, user: bool)
    requires ix.Valid()
  {
    var e4 := Entry(m, root, Root, ix.pml4);
    var e3 := Entry(m, root, PdptOf(ix), ix.pdpt);
    var e2 := Entry(m, root, PdOf(ix), ix.pd);
    && (writable ==> IsWritable(e4) && IsWritable(e3) && IsWritable(e2))
    && (user ==> IsUser(e4) && IsUser(e3) && IsUser(e2))
  }

  /** One level, with the count of frames it used up. */
  lemma DescendCounts(s: Machine, root: nat, p: Path, a: nat, i: nat, writable: bool, user: bool, ix: Indexes)
    requires p.Valid() && p.Depth() < 3 && i < ENTRIES && ix.Valid() && OnWalk(Child(p, i), ix)
    requires TreeOk(s, root) && Resolve(s.memory, root, p) == Some(a)
    ensures var (s', r) := GetOrCreate(s, a, i, writable, user);
            var cost := if IsPresent(Entry(s.memory, root, p, i)) then 0 else 1;
            && TreeOk(s', root) && Extends(s, s', root, ix)
            && (r.None? <==> |s.frames.Free()| < cost)
            && (r.Some? ==>
                  && |s'.frames.Free()| == |s.frames.Free()| - cost
                  && Resolve(s'.memory, root, Child(p, i)) == Some(r.value)
                  && UpdatedAt(s.memory, s'.memory, root, p, i, Entry(s'.memory, root, p, i))
                  && IsPresent(Entry(s'.memory, root, p, i))
                  && (writable ==> IsWritable(Entry(s'.memory, root, p, i)))
                  && (user ==> IsUser(Entry(s'.memory, root, p, i))))
  {
    hide And, Entry, Resolve, TreeOk, Extends, IsPresent, IsWritable, IsUser, EntryAddress, GetOrCreate;
    var (s', r) := GetOrCreate(s, a, i, writable, user);
    DescendStep(s, root, p, a, i, writable, user);
    TreeOkUnshared(s, root);
    AllocateTakesLowest(s.frames);
    if r.Some? {
      DescendExtends(s, s', root, p, i, writable, user, r.value, ix);
    } else {
      ExtendsSelf(s, root, ix);
    }
  }

  /** The walk fails exactly when fewer frames are free than tables are missing. */
  lemma WalkSpec(s: Machine, root: nat, ix: Indexes, writable: bool, user: bool)
    requires ix.Valid() && TreeOk(s, root)
    ensures var (s', r) := WalkCreating(s, root, ix, writable, user);
            && TreeOk(s', root) && Extends(s, s', root, ix)
            && (r.None? <==> |s.frames.Free()| < Missing(s.memory, root, ix))
            && (r.Some? ==>
                  && Resolve(s'.memory, root, PtOf(ix)) == Some(r.value)
                  && WalkGrants(s'.memory, root, ix, writable, user))
  {
    hide And, Entry, Resolve, TreeOk, Extends, IsPresent, IsWritable, IsUser, EntryAddress, GetOrCreate;
    assert Resolve(s.memory, root, Root) == Some(root) by { RootResolves(s.memory, root); }
    DescendCounts(s, root, Root, root, ix.pml4, writable, user, ix);
    var (s1, r1) := GetOrCreate(s, root, ix.pml4, writable, user);
    AbsentBelow(s.memory, root, ix);
    if r1.Some? {
      var a1 := r1.value;
      DescendCounts(s1, root, PdptOf(ix), a1, ix.pdpt, writable, user, ix);
      var (s2, r2) := GetOrCreate(s1, a1, ix.pdpt, writable, user);
      ExtendsTransitive(s, s1, s2, root, ix);
      if r2.Some? {
        var a2 := r2.value;
        DescendCounts(s2, root, PdOf(ix), a2, ix.pd, writable, user, ix);
        var (s3, r3) := GetOrCreate(s2, a2, ix.pd, writable, user);
        ExtendsTransitive(s, s2, s3, root, ix);
      }
    }
  }

  lemma RootResolves(m: Memory, root: nat)
    ensures Resolve(m, root, Root) == Some(root)
  {
  }

  /** Below an absent table every entry is absent. */
  lemma AbsentBelow(m: Memory, root: nat, ix: Indexes)
    requires ix.Valid()
    ensures !IsPresent(Entry(m, root, Root, ix.pml4)) ==> !IsPresent(Entry(m, root, PdptOf(ix), ix.pdpt))
    ensures !IsPresent(Entry(m, root, PdptOf(ix), ix.pdpt)) ==> !IsPresent(Entry(m, root, PdOf(ix), ix.pd))
    ensures !IsPresent(Entry(m, root, PdOf(ix), ix.pd)) ==> !IsPresent(Entry(m, root, PtOf(ix), ix.pt))
  {
    EntryBelow(m, root, Root, ix.pml4, ix.pdpt);
    EntryBelow(m, root, PdptOf(ix), ix.pdpt, ix.pd);
    EntryBelow(m, root, PdOf(ix), ix.pd, ix.pt);
    NothingPresentInZero();
  }

  // ---- Writing the last-level entry ----

  lemma LeafAfterWrite(m: Memory, m': Memory, root: nat, va: u64, e: u64, vb: u64)
    requires IsPage(va) && IsPage(vb)
    requires UpdatedAt(m, m', root, PtOf(IndexesOf(va)), IndexesOf(va).pt, e)
    ensures Leaf(m', root, vb) == if vb == va then e else Leaf(m, root, vb)
  {
    hide And, Entry, Resolve, IndexesOf, IsCanonical;
    var ia, ib := IndexesOf(va), IndexesOf(vb);
    if PtOf(ia) == PtOf(ib) && ia.pt == ib.pt {
      IndexesDetermineAddress(va, vb);
    }
  }

  /** The page map after a last-level write: one page set or removed. */
  lemma PagesAfterWrite(m: Memory, m': Memory, root: nat, va: u64, e: u64)
    requires IsPage(va)
    requires UpdatedAt(m, m', root, PtOf(IndexesOf(va)), IndexesOf(va).pt, e)
    ensures Pages(m', root) ==
            if IsPresent(e) then Pages(m, root)[va := Mapping(EntryAddress(e), IsWritable(e), IsUser(e))]
            else Pages(m, root) - {va}
  {
    hide And, Entry, Resolve, IndexesOf, IsCanonical, IsPresent, IsWritable, IsUser, EntryAddress, Leaf;
    forall vb: u64 | IsPage(vb)
      ensures Leaf(m', root, vb) == if vb == va then e else Leaf(m, root, vb)
    {
      LeafAfterWrite(m, m', root, va, e, vb);
    }
  }

  lemma RightsAfterWrite(m: Memory, m': Memory, root: nat, va: u64, e: u64)
    requires RightsOk(m, root)
    requires UpdatedAt(m, m', root, PtOf(IndexesOf(va)), IndexesOf(va).pt, e)
    requires IsPresent(e) ==> WalkGrants(m, root, IndexesOf(va), IsWritable(e), IsUser(e))
    ensures RightsOk(m', root)
  {
    hide And, Entry, Resolve, IndexesOf, IsPresent, IsWritable, IsUser;
    var ia := IndexesOf(va);
    forall vb: u64 | IsPresent(Leaf(m', root, vb))
      ensures EffectiveRights(m', root, vb) == (IsWritable(Leaf(m', root, vb)), IsUser(Leaf(m', root, vb)))
    {
      var ib := IndexesOf(vb);
      assert Entry(m', root, Root, ib.pml4) == Entry(m, root, Root, ib.pml4);
      assert Entry(m', root, PdptOf(ib), ib.pdpt) == Entry(m, root, PdptOf(ib), ib.pdpt);
      assert Entry(m', root, PdOf(ib), ib.pd) == Entry(m, root, PdOf(ib), ib.pd);
      if PtOf(ia) == PtOf(ib) && ia.pt == ib.pt {
        assert Leaf(m', root, vb) == e;
      } else {
        assert Leaf(m', root, vb) == Leaf(m, root, vb);
      }
    }
  }

  // ---- map ----

  /**
   What `map` answers, decided by the arguments, the page map and the number of free frames: virtual addresses
   in the two canonical halves, both addresses on page boundaries, physical addresses below 2^52.
   */
  ghost function MapOutcome(s: Machine, root: nat, va: u64, pa: u64): Result<(), PagingError> {
    if 0x8000_0000_0000 <= va < 0xFFFF_8000_0000_0000 then Err(NotCanonical)
    else if va % 4096 != 0 then Err(VirtualUnaligned)
    else if pa % 4096 != 0 then Err(PhysicalUnaligned)
    else if pa >= 0x10_0000_0000_0000 then Err(PhysicalTooLarge)
    else if va in Pages(s.memory, root) then Err(AlreadyMapped)
    else if |s.frames.Free()| < Missing(s.memory, root, IndexesOf(va)) then Err(OutOfMemory)
    else Ok(())
  }

  /** The checks on the arguments, in the order in which they are made. */
  lemma ArgumentsMean(va: u64, pa: u64)
    ensures ArgumentError(va, pa) ==
            if 0x8000_0000_0000 <= va < 0xFFFF_8000_0000_0000 then Some(NotCanonical)
            else if va % 4096 != 0 then Some(VirtualUnaligned)
            else if pa % 4096 != 0 then Some(PhysicalUnaligned)
            else if pa >= 0x10_0000_0000_0000 then Some(PhysicalTooLarge)
            else None
  {
    hide IsCanonical;
    CanonicalHalves(va);
  }

  lemma PageIsLeaf(m: Memory, root: nat, va: u64)
    requires IsPage(va)
    ensures va in Pages(m, root) <==> IsPresent(Leaf(m, root, va))
  {
  }

  lemma SameTables(m: Memory, m': Memory, root: nat)
    requires forall q: Path :: q.Valid() ==> Resolve(m', root, q) == Resolve(m, root, q)
    ensures Tables(m', root) == Tables(m, root)
  {
    hide Resolve;
    forall f: nat | f < MAX_FRAMES
      ensures IsTable(m', root, f) <==> IsTable(m, root, f)
    {
      if IsTable(m', root, f) {
        var q: Path :| q.Valid() && Resolve(m', root, q) == Some(f * FRAME_SIZE);
        assert Resolve(m, root, q) == Some(f * FRAME_SIZE);
      }
      if IsTable(m, root, f) {
        var q: Path :| q.Valid() && Resolve(m, root, q) == Some(f * FRAME_SIZE);
        assert Resolve(m', root, q) == Some(f * FRAME_SIZE);
      }
    }
  }

  /** Setting the leaf once the walk has created every table. */
  lemma SetLeaf(s: Machine, root: nat, va: u64, pt: nat, e: u64)
    requires SpaceOk(s, root) && IsPage(va)
    requires Resolve(s.memory, root, PtOf(IndexesOf(va))) == Some(pt)
    requires IsPresent(e) ==> WalkGrants(s.memory, root, IndexesOf(va), IsWritable(e), IsUser(e))
    ensures var s' := s.(memory := WriteEntry(s.memory, pt, IndexesOf(va).pt, e));
            && SpaceOk(s', root)
            && (forall q: Path :: q.Valid() ==> Resolve(s'.memory, root, q) == Resolve(s.memory, root, q))
            && Pages(s'.memory, root) ==
               (if IsPresent(e) then Pages(s.memory, root)[va := Mapping(EntryAddress(e), IsWritable(e), IsUser(e))]
                else Pages(s.memory, root) - {va})
  {
    hide And, Entry, Resolve, IndexesOf, TreeOk, RightsOk, IsPresent, IsWritable, IsUser, EntryAddress, Pages, IsPage, WriteEntry;
    var ix := IndexesOf(va);
    var m' := WriteEntry(s.memory, pt, ix.pt, e);
    TreeOkUnshared(s, root);
    WriteChangesOneEntry(s.memory, root, PtOf(ix), pt, ix.pt, e);
    TreeOkAfterWrite(s, root, PtOf(ix), pt, ix.pt, e);
    RightsAfterWrite(s.memory, m', root, va, e);
    PagesAfterWrite(s.memory, m', root, va, e);
  }

  ghost predicate MapEffect(s: Machine, s': Machine, root: nat, va: u64, pa: u64, writable: bool, user: bool, ok: bool) {
    && SpaceOk(s', root)
    && GrewByTables(s, s', root)
    && LinksGrowOn(s.memory, s'.memory, root, IndexesOf(va))
    && Pages(s'.memory, root) ==
       if ok then Pages(s.memory, root)[va := Mapping(pa, writable, user)] else Pages(s.memory, root)
  }

  lemma WalkKeepsSpace(s: Machine, s': Machine, root: nat, ix: Indexes)
    requires ix.Valid() && SpaceOk(s, root) && TreeOk(s', root) && Extends(s, s', root, ix)
    ensures SpaceOk(s', root) && Pages(s'.memory, root) == Pages(s.memory, root)
    ensures forall va: u64 :: Leaf(s'.memory, root, va) == Leaf(s.memory, root, va)
  {
    hide And, Entry, Resolve, IndexesOf, TreeOk, RightsOk, IsPresent, Pages;
    ExtendsKeepsRights(s, s', root, ix);
    SameLeavesSamePages(s.memory, s'.memory, root);
  }

  lemma MapGrowth(s: Machine, s1: Machine, s2: Machine, root: nat, ix: Indexes)
    requires ix.Valid() && Extends(s, s1, root, ix) && s2.frames == s1.frames
    requires forall q: Path :: q.Valid() ==> Resolve(s2.memory, root, q) == Resolve(s1.memory, root, q)
    ensures GrewByTables(s, s2, root) && LinksGrowOn(s.memory, s2.memory, root, ix)
  {
    hide And, Entry, Resolve, Tables;
    SameTables(s1.memory, s2.memory, root);
  }

  /**
   `map` answers `MapOutcome`; when it succeeds it adds exactly the requested page with the requested
   rights, when it fails it changes no page, and every frame it took is linked into the tree.
   */
  lemma MapSpec(s: Machine, root: nat, va: u64, pa: u64, writable: bool, user: bool)
    requires SpaceOk(s, root)
    ensures var (s', r) := Map(s, root, va, pa, writable, user);
            r == MapOutcome(s, root, va, pa) && MapEffect(s, s', root, va, pa, writable, user, r.Ok?)
  {
    hide And, Entry, Resolve, IndexesOf, IsCanonical, TreeOk, RightsOk, IsPresent, IsWritable, IsUser, EntryAddress,
      Pages, MakeEntry, WalkCreating, Extends, GrewByTables, LinksGrowOn, WriteEntry, WalkGrants, TableAt;
    var ix := IndexesOf(va);
    ArgumentsMean(va, pa);
    if ArgumentError(va, pa).Some? {
      MapNothing(s, root, ix);
    } else {
      var (s1, r1) := WalkCreating(s, root, ix, writable, user);
      WalkSpec(s, root, ix, writable, user);
      WalkKeepsSpace(s, s1, root, ix);
      PageIsLeaf(s.memory, root, va);
      if va in Pages(s.memory, root) {
        LeafNeedsWalk(s.memory, root, va);
      }
      MapGrowth(s, s1, s1, root, ix);
      if r1.Some? {
        var pt := r1.value;
        EntryResolved(s1.memory, root, PtOf(ix), pt, ix.pt);
        if va !in Pages(s.memory, root) {
          var e := MakeEntry(pa, writable, user);
          MakeEntryFields(pa, writable, user);
          SetLeaf(s1, root, va, pt, e);
          MapGrowth(s, s1, s1.(memory := WriteEntry(s1.memory, pt, ix.pt, e)), root, ix);
        }
      }
    }
  }

  /** Exactly when `map` succeeds. */
  lemma MapSucceedsIff(s: Machine, root: nat, va: u64, pa: u64, writable: bool, user: bool)
    requires SpaceOk(s, root)
    ensures Map(s, root, va, pa, writable, user).1.Ok? <==>
            && (va < 0x8000_0000_0000 || va >= 0xFFFF_8000_0000_0000)
            && va % 4096 == 0 && pa % 4096 == 0 && pa < 0x10_0000_0000_0000
            && va !in Pages(s.memory, root)
            && |s.frames.Free()| >= Missing(s.memory, root, IndexesOf(va))
  {
    hide SpaceOk, Map, MapEffect, Pages, Missing, IndexesOf;
    MapSpec(s, root, va, pa, writable, user);
  }

  lemma MapNothing(s: Machine, root: nat, ix: Indexes)
    requires ix.Valid() && TreeOk(s, root)
    ensures GrewByTables(s, s, root) && LinksGrowOn(s.memory, s.memory, root, ix)
  {
    ExtendsSelf(s, root, ix);
  }

  lemma EntryResolved(m: Memory, root: nat, p: Path, a: nat, i: nat)
    requires p.Valid() && i < ENTRIES && Resolve(m, root, p) == Some(a)
    ensures Entry(m, root, p, i) == TableAt(m, a)[i]
  {
  }

  // ---- unmap ----

  /** What `unmap` answers: the first missing table on the walk, the missing page, or the page's frame. */
  ghost function UnmapOutcome(m: Memory, root: nat, va: u64): Result<u64, PagingError> {
    var ix := IndexesOf(va);
    if 0x8000_0000_0000 <= va < 0xFFFF_8000_0000_0000 then Err(NotCanonical)
    else if va % 4096 != 0 then Err(VirtualUnaligned)
    else if Resolve(m, root, PdptOf(ix)).None? then Err(TableMissing(4))
    else if Resolve(m, root, PdOf(ix)).None? then Err(TableMissing(3))
    else if Resolve(m, root, PtOf(ix)).None? then Err(TableMissing(2))
    else if va !in Pages(m, root) then Err(NotMapped)
    else Ok(Pages(m, root)[va].frame)
  }

  lemma UnmapWalk(s: Machine, root: nat, va: u64)
    requires TreeOk(s, root) && IsPage(va)
    ensures var (m', r) := Unmap(s.memory, root, va);
            var p := Resolve(s.memory, root, PtOf(IndexesOf(va)));
            var e := Leaf(s.memory, root, va);
            && r == (if Resolve(s.memory, root, PdptOf(IndexesOf(va))).None? then Err(TableMissing(4))
                     else if Resolve(s.memory, root, PdOf(IndexesOf(va))).None? then Err(TableMissing(3))
                     else if p.None? then Err(TableMissing(2))
                     else if !IsPresent(e) then Err(NotMapped)
                     else Ok(EntryAddress(e)))
            && (r.Ok? <==> IsPresent(e))
            && (r.Ok? ==> p.Some? && r.value == EntryAddress(e)
                          && m' == WriteEntry(s.memory, p.value, IndexesOf(va).pt, 0))
            && (r.Err? ==> m' == s.memory)
  {
    hide And, IndexesOf, IsCanonical, WriteEntry;
    var m := s.memory;
    var ix := IndexesOf(va);
    EntryBelow(m, root, Root, ix.pml4, ix.pdpt);
    EntryBelow(m, root, PdptOf(ix), ix.pdpt, ix.pd);
    EntryBelow(m, root, PdOf(ix), ix.pd, ix.pt);
    ResolveChild(m, root, Root, ix.pml4);
    ResolveChild(m, root, PdptOf(ix), ix.pdpt);
    ResolveChild(m, root, PdOf(ix), ix.pd);
    NothingPresentInZero();
    assert IsPresent(Entry(m, root, PdptOf(ix), ix.pdpt)) ==> !IsHuge(Entry(m, root, PdptOf(ix), ix.pdpt));
    assert IsPresent(Entry(m, root, PdOf(ix), ix.pd)) ==> !IsHuge(Entry(m, root, PdOf(ix), ix.pd));
  }

  /** `unmap` answers `UnmapOutcome`: it succeeds exactly on mapped pages, removes that page alone and returns its frame. */
  lemma UnmapSpec(s: Machine, root: nat, va: u64)
    requires SpaceOk(s, root)
    ensures var (m', r) := Unmap(s.memory, root, va);
            && SpaceOk(s.(memory := m'), root)
            && Tables(m', root) == Tables(s.memory, root)
            && (forall q: Path :: q.Valid() ==> Resolve(m', root, q) == Resolve(s.memory, root, q))
            && r == UnmapOutcome(s.memory, root, va)
            && (r.Ok? <==> IsPage(va) && va in Pages(s.memory, root))
            && (r.Ok? ==> r.value == Pages(s.memory, root)[va].frame
                          && Pages(m', root) == Pages(s.memory, root) - {va})
            && (r.Err? ==> m' == s.memory && r.error != HugePageEntry)
  {
    hide And, Entry, Resolve, IndexesOf, IsCanonical, TreeOk, RightsOk, IsPresent, IsWritable, IsUser, EntryAddress, WriteEntry, TableAt, Leaf;
    CanonicalHalves(va);
    if IsPage(va) {
      var (m', r) := Unmap(s.memory, root, va);
      UnmapWalk(s, root, va);
      PageIsLeaf(s.memory, root, va);
      NothingPresentInZero();
      if r.Ok? {
        SetLeaf(s, root, va, Resolve(s.memory, root, PtOf(IndexesOf(va))).value, 0);
        SameTables(s.memory, m', root);
      }
    }
  }
}
