/**
 Physical memory as 512-entry tables, and the tree of tables a PML4 spans in it.

 `Resolve` follows a path of indexes to a table address and `Entry` reads through a path.
 The two write lemmas say that, when no two paths share a table, an in-place update of one
 table is seen through exactly one path and index.
 */
module PageTree {
  import opened Words
  import opened PageEntries
  import opened Frames

  type Table = t: seq<u64> | |t| == ENTRIES witness seq(512, _ => 0)

  function ZeroTable(): Table {
    seq(ENTRIES, _ => 0)
  }

  type Memory = map<nat, Table>

  /** The table at a physical address; addresses never written read as zero. */
  function TableAt(m: Memory, address: nat): Table {
    if address in m then m[address] else ZeroTable()
  }

  function WriteEntry(m: Memory, address: nat, index: nat, e: u64): Memory
    requires index < ENTRIES
  {
    m[address := TableAt(m, address)[index := e]]
  }

  datatype Path = Root | Child(parent: Path, index: nat) {
    function Depth(): nat {
      match this
      case Root => 0
      case Child(p, _) => 1 + p.Depth()
    }

    /** A path to a PML4, PDPT, PD or PT: at most three steps, each a table index. */
    predicate Valid() {
      match this
      case Root => true
      case Child(p, i) => i < ENTRIES && p.Valid() && p.Depth() < 3
    }
  }

  function Resolve(m: Memory, root: nat, p: Path): Option<nat>
    requires p.Valid()
    decreases p, 0
  {
    match p
    case Root => Some(root)
    case Child(q, i) =>
      var e := Entry(m, root, q, i);
      if IsPresent(e) then Some(EntryAddress(e)) else None
  }

  function Entry(m: Memory, root: nat, p: Path, i: nat): u64
    requires p.Valid() && i < ENTRIES
    decreases p, 1
  {
    match Resolve(m, root, p)
    case None => 0
    case Some(a) => TableAt(m, a)[i]
  }

  datatype Machine = Machine(memory: Memory, frames: FrameState)

  /** No two paths reach the same table. */
  ghost predicate Unshared(m: Memory, root: nat) {
    forall p: Path, q: Path ::
      p.Valid() && q.Valid() && Resolve(m, root, p).Some? && Resolve(m, root, p) == Resolve(m, root, q) ==> p == q
  }

  /** Every table of the tree sits in a frame that the allocator has handed out. */
  ghost predicate TablesOwned(s: Machine, root: nat) {
    forall p: Path :: p.Valid() && Resolve(s.memory, root, p).Some? ==>
      Owns(s.frames, Resolve(s.memory, root, p).value)
  }

  ghost predicate NoHugeEntries(m: Memory, root: nat) {
    forall p: Path, i: nat :: p.Valid() && p.Depth() < 3 && i < ENTRIES && IsPresent(Entry(m, root, p, i)) ==>
      !IsHuge(Entry(m, root, p, i))
  }

  ghost predicate TreeOk(s: Machine, root: nat) {
    && s.frames.Valid()
    && Unshared(s.memory, root)
    && TablesOwned(s, root)
    && NoHugeEntries(s.memory, root)
  }

  /** Seen through the tree, m' differs from m at one path and index only. */
  ghost predicate UpdatedAt(m: Memory, m': Memory, root: nat, p: Path, i: nat, e: u64) {
    forall q: Path, j: nat :: q.Valid() && j < ENTRIES ==>
      Entry(m', root, q, j) == if q == p && j == i then e else Entry(m, root, q, j)
  }

  // ---- Writing an entry that keeps its link ----

  lemma {:induction false} ResolveAfterWrite(m: Memory, root: nat, p: Path, a: nat, i: nat, e: u64, q: Path)
    requires p.Valid() && i < ENTRIES && q.Valid()
    requires Unshared(m, root) && Resolve(m, root, p) == Some(a)
    requires p.Depth() == 3 ||
             (var o := Entry(m, root, p, i);
              IsPresent(e) == IsPresent(o) && EntryAddress(e) == EntryAddress(o))
    ensures Resolve(WriteEntry(m, a, i, e), root, q) == Resolve(m, root, q)
    ensures forall j: nat :: j < ENTRIES ==>
              Entry(WriteEntry(m, a, i, e), root, q, j) == if q == p && j == i then e else Entry(m, root, q, j)
  {
    hide And;
    if q.Child? {
      ResolveAfterWrite(m, root, p, a, i, e, q.parent);
    }
  }

  /** Writing an entry through its table changes what is read at its own path and nowhere else. */
  lemma WriteChangesOneEntry(m: Memory, root: nat, p: Path, a: nat, i: nat, e: u64)
    requires p.Valid() && i < ENTRIES
    requires Unshared(m, root) && Resolve(m, root, p) == Some(a)
    requires p.Depth() == 3 ||
             (var o := Entry(m, root, p, i);
              IsPresent(e) == IsPresent(o) && EntryAddress(e) == EntryAddress(o))
    ensures var m' := WriteEntry(m, a, i, e);
            && UpdatedAt(m, m', root, p, i, e)
            && (forall q: Path :: q.Valid() ==> Resolve(m', root, q) == Resolve(m, root, q))
  {
    forall q: Path | q.Valid() {
      ResolveAfterWrite(m, root, p, a, i, e, q);
    }
  }

  // ---- Linking a zeroed table ----

  lemma {:induction false} ResolveAfterLink(s: Machine, root: nat, p: Path, a: nat, i: nat, f: u64, e: u64, q: Path)
    requires p.Valid() && p.Depth() < 3 && i < ENTRIES && q.Valid()
    requires TreeOk(s, root) && Resolve(s.memory, root, p) == Some(a)
    requires !IsPresent(Entry(s.memory, root, p, i))
    requires !Owns(s.frames, f) && IsPresent(e) && EntryAddress(e) == f
    ensures var m' := WriteEntry(s.memory[f := ZeroTable()], a, i, e);
            && Resolve(m', root, q) == (if q == Child(p, i) then Some(f) else Resolve(s.memory, root, q))
            && (forall j: nat :: j < ENTRIES ==>
                  Entry(m', root, q, j) == if q == p && j == i then e else Entry(s.memory, root, q, j))
  {
    hide And, IsHuge;
    if q.Child? {
      ResolveAfterLink(s, root, p, a, i, f, e, q.parent);
    }
    assert Owns(s.frames, a);
    if Resolve(s.memory, root, q).Some? {
      assert Owns(s.frames, Resolve(s.memory, root, q).value);
    }
  }

  lemma LinkChangesOneEntry(s: Machine, root: nat, p: Path, a: nat, i: nat, f: u64, e: u64)
    requires p.Valid() && p.Depth() < 3 && i < ENTRIES
    requires TreeOk(s, root) && Resolve(s.memory, root, p) == Some(a)
    requires !IsPresent(Entry(s.memory, root, p, i))
    requires !Owns(s.frames, f) && IsPresent(e) && EntryAddress(e) == f
    ensures var m' := WriteEntry(s.memory[f := ZeroTable()], a, i, e);
            && UpdatedAt(s.memory, m', root, p, i, e)
            && (forall q: Path :: q.Valid() ==>
                  Resolve(m', root, q) == if q == Child(p, i) then Some(f) else Resolve(s.memory, root, q))
  {
    forall q: Path | q.Valid() {
      ResolveAfterLink(s, root, p, a, i, f, e, q);
    }
  }
}
