/**
 One level of the walk: what `get_or_create_table` keeps and changes in the tree of tables.
 */
module Descend {
  import opened Words
  import opened PageEntries
  import opened Frames
  import opened PageTree
  import opened Paging

  /** A write that keeps the links and adds no huge entry keeps the tree. */
  lemma TreeOkAfterWrite(s: Machine, root: nat, p: Path, a: nat, i: nat, e: u64)
    requires p.Valid() && i < ENTRIES
    requires TreeOk(s, root) && Resolve(s.memory, root, p) == Some(a)
    requires p.Depth() == 3 ||
             (var o := Entry(s.memory, root, p, i);
              IsPresent(e) == IsPresent(o) && EntryAddress(e) == EntryAddress(o) && IsHuge(e) == IsHuge(o))
    ensures TreeOk(s.(memory := WriteEntry(s.memory, a, i, e)), root)
  {
    hide And;
    WriteChangesOneEntry(s.memory, root, p, a, i, e);
  }

  lemma UnsharedAfterLink(s: Machine, m': Memory, root: nat, c: Path, f: nat)
    requires c.Valid() && TreeOk(s, root) && !Owns(s.frames, f)
    requires forall q: Path :: q.Valid() ==>
               Resolve(m', root, q) == if q == c then Some(f) else Resolve(s.memory, root, q)
    ensures Unshared(m', root)
  {
    hide And, Entry, Resolve, Owns;
  }

  /** Linking a freshly allocated, zeroed table keeps the tree. */
  lemma TreeOkAfterLink(s: Machine, root: nat, p: Path, a: nat, i: nat, f: u64, e: u64)
    requires p.Valid() && p.Depth() < 3 && i < ENTRIES
    requires TreeOk(s, root) && Resolve(s.memory, root, p) == Some(a)
    requires !IsPresent(Entry(s.memory, root, p, i))
    requires Allocate(s.frames).1 == Some(f) && IsPresent(e) && EntryAddress(e) == f && !IsHuge(e)
    ensures TreeOk(Machine(WriteEntry(s.memory[f := ZeroTable()], a, i, e), Allocate(s.frames).0), root)
  {
    hide And, Owns, Lowest, ZeroTable, WriteEntry;
    var m' := WriteEntry(s.memory[f := ZeroTable()], a, i, e);
    var s' := Machine(m', Allocate(s.frames).0);
    AllocateTakesLowest(s.frames);
    LinkChangesOneEntry(s, root, p, a, i, f, e);
    UnsharedAfterLink(s, m', root, Child(p, i), f);
    forall q: Path | q.Valid() && Resolve(m', root, q).Some?
      ensures Owns(s'.frames, Resolve(m', root, q).value)
    {
      OwnsAfterAllocate(s.frames, Resolve(m', root, q).value);
    }
    forall q: Path, j: nat | q.Valid() && q.Depth() < 3 && j < ENTRIES && IsPresent(Entry(m', root, q, j))
      ensures !IsHuge(Entry(m', root, q, j))
    {
    }
  }

  /** What one level of the walk leaves behind. */
  ghost predicate Descended(s: Machine, s': Machine, root: nat, p: Path, i: nat, writable: bool, user: bool, child: u64)
    requires p.Valid() && p.Depth() < 3 && i < ENTRIES
  {
    var o := Entry(s.memory, root, p, i);
    var e := Entry(s'.memory, root, p, i);
    && UpdatedAt(s.memory, s'.memory, root, p, i, e)
    && Resolve(s'.memory, root, Child(p, i)) == Some(child)
    && (forall q: Path :: q.Valid() && q != Child(p, i) ==> Resolve(s'.memory, root, q) == Resolve(s.memory, root, q))
    && IsPresent(e)
    && IsWritable(e) == ((IsPresent(o) && IsWritable(o)) || writable)
    && IsUser(e) == ((IsPresent(o) && IsUser(o)) || user)
    && (if IsPresent(o) then s'.frames == s.frames && child == EntryAddress(o) else Allocate(s.frames) == (s'.frames, Some(child)))
  }

  lemma DescendExisting(s: Machine, root: nat, p: Path, a: nat, i: nat, writable: bool, user: bool)
    requires p.Valid() && p.Depth() < 3 && i < ENTRIES
    requires TreeOk(s, root) && Resolve(s.memory, root, p) == Some(a)
    requires IsPresent(Entry(s.memory, root, p, i))
    ensures var (s', r) := GetOrCreate(s, a, i, writable, user);
            r.Some? && TreeOk(s', root) && Descended(s, s', root, p, i, writable, user, r.value)
  {
    hide And, TreeOk, Widen, EntryAddress;
    var o := Entry(s.memory, root, p, i);
    var e := Widen(o, writable, user);
    WidenFields(o, writable, user);
    TreeOkAfterWrite(s, root, p, a, i, e);
    assert Unshared(s.memory, root) by { TreeOkUnshared(s, root); }
    WriteChangesOneEntry(s.memory, root, p, a, i, e);
  }

  lemma TreeOkUnshared(s: Machine, root: nat)
    requires TreeOk(s, root)
    ensures Unshared(s.memory, root) && s.frames.Valid()
  {
  }

  lemma DescendCreating(s: Machine, root: nat, p: Path, a: nat, i: nat, writable: bool, user: bool)
    requires p.Valid() && p.Depth() < 3 && i < ENTRIES
    requires TreeOk(s, root) && Resolve(s.memory, root, p) == Some(a)
    requires !IsPresent(Entry(s.memory, root, p, i)) && Allocate(s.frames).1.Some?
    ensures var (s', r) := GetOrCreate(s, a, i, writable, user);
            r.Some? && TreeOk(s', root) && Descended(s, s', root, p, i, writable, user, r.value)
  {
    hide And, TreeOk, MakeEntry, EntryAddress;
    var f := Allocate(s.frames).1.value;
    assert f % PAGE_SIZE == 0 && f <= ADDRESS_MASK && !Owns(s.frames, f) by {
      TreeOkUnshared(s, root);
      AllocateTakesLowest(s.frames);
    }
    var e := MakeEntry(f, writable, user);
    MakeEntryFields(f, writable, user);
    TreeOkAfterLink(s, root, p, a, i, f, e);
    LinkChangesOneEntry(s, root, p, a, i, f, e);
  }

  /** `get_or_create_table` fails only for want of a frame, and then changes nothing. */
  lemma DescendStep(s: Machine, root: nat, p: Path, a: nat, i: nat, writable: bool, user: bool)
    requires p.Valid() && p.Depth() < 3 && i < ENTRIES
    requires TreeOk(s, root) && Resolve(s.memory, root, p) == Some(a)
    ensures var (s', r) := GetOrCreate(s, a, i, writable, user);
            && TreeOk(s', root)
            && (r.None? <==> !IsPresent(Entry(s.memory, root, p, i)) && s.frames.Free() == {})
            && (r.None? ==> s' == s)
            && (r.Some? ==> Descended(s, s', root, p, i, writable, user, r.value))
  {
    hide And, TreeOk, Descended, MakeEntry, EntryAddress;
    TreeOkUnshared(s, root);
    AllocateTakesLowest(s.frames);
    if IsPresent(Entry(s.memory, root, p, i)) {
      DescendExisting(s, root, p, a, i, writable, user);
    } else if Allocate(s.frames).1.Some? {
      DescendCreating(s, root, p, a, i, writable, user);
    }
  }
}
