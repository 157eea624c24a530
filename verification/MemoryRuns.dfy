/**
 The memory subsystem as one state machine: any number of address spaces over one physical memory
 and one frame allocator. Every run refines the map from address space to page map.
 */
module MemoryRuns {
  import opened Words
  import opened PageEntries
  import opened Frames
  import opened PageTree
  import opened Paging
  import opened MappingProofs
  import opened AddressSpaces
  import opened KernelHeap
  import opened Isolation

  /** The machine, and the PML4 addresses of the address spaces created so far. */
  datatype System = System(machine: Machine, spaces: set<nat>)

  datatype Op =
    | NewSpaceOp
    | MapOp(root: nat, va: u64, pa: u64, writable: bool, user: bool)
    | UnmapOp(root: nat, va: u64)
    | IdentityOp(root: nat, start: u64, end: u64, writable: bool)
    | HeapOp(root: nat, heap: Heap, pages: u64)
    | AllocateOp
    | ReleaseOp(address: u64)

  datatype Answer = Answer(ok: bool, value: nat)

  function Step(sys: System, op: Op): (System, Answer) {
    var s := sys.machine;
    match op
    case NewSpaceOp =>
      var (s', r) := NewSpace(s);
      if r.Some? then (System(s', sys.spaces + {r.value}), Answer(true, r.value))
      else (sys.(machine := s'), Answer(false, 0))
    case MapOp(root, va, pa, w, u) =>
      var (s', r) := Map(s, root, va, pa, w, u);
      (sys.(machine := s'), Answer(r.Ok?, 0))
    case UnmapOp(root, va) =>
      var (m, r) := Unmap(s.memory, root, va);
      (sys.(machine := s.(memory := m)), Answer(r.Ok?, if r.Ok? then r.value else 0))
    case IdentityOp(root, start, end, w) =>
      var (s', r) := IdentityMap(s, root, start, end, w);
      (sys.(machine := s'), Answer(r.Ok?, 0))
    case HeapOp(root, heap, pages) =>
      var (s', _, r) := Initialize(s, root, heap, pages);
      (sys.(machine := s'), Answer(r.Ok?, 0))
    case AllocateOp =>
      var (frames, r) := Allocate(s.frames);
      (sys.(machine := s.(frames := frames)), Answer(r.Some?, if r.Some? then r.value else 0))
    case ReleaseOp(address) =>
      (sys.(machine := s.(frames := Release(s.frames, address))), Answer(true, 0))
  }

  ghost predicate Inv(sys: System) {
    && sys.machine.frames.Valid()
    && (forall r :: r in sys.spaces ==> SpaceOk(sys.machine, r))
    && (forall r, q :: r in sys.spaces && q in sys.spaces && r != q ==>
          Tables(sys.machine.memory, r) !! Tables(sys.machine.memory, q))
  }

  /** Callers name an existing address space, and give back no frame that holds a table. */
  ghost predicate Allowed(sys: System, op: Op) {
    match op
    case NewSpaceOp => true
    case AllocateOp => true
    case ReleaseOp(address) =>
      forall r :: r in sys.spaces ==> address / FRAME_SIZE !in Tables(sys.machine.memory, r)
    case MapOp(root, _, _, _, _) => root in sys.spaces
    case UnmapOp(root, _) => root in sys.spaces
    case IdentityOp(root, _, _, _) => root in sys.spaces
    case HeapOp(root, _, _) => root in sys.spaces
  }

  // ---- The abstract machine ----

  type AbsSpaces = map<nat, map<nat, Mapping>>

  ghost function Abs(sys: System): AbsSpaces {
    map r | r in sys.spaces :: Pages(sys.machine.memory, r)
  }

  /** What each operation may do to the page maps, given its answer. */
  ghost predicate AbsStep(abs: AbsSpaces, abs': AbsSpaces, op: Op, a: Answer)
  {
    match op
    case NewSpaceOp => if a.ok then a.value !in abs && abs' == abs[a.value := map[]] else abs' == abs
    case MapOp(root, va, pa, w, u) =>
      root in abs &&
      if a.ok then
        var pages: map<nat, Mapping> := abs[root][va := Mapping(pa, w, u)];
        va !in abs[root] && abs' == abs[root := pages]
      else abs' == abs
    case UnmapOp(root, va) =>
      root in abs && (a.ok <==> va in abs[root]) &&
      if a.ok then a.value == abs[root][va].frame && abs' == abs[root := abs[root] - {va}] else abs' == abs
    case IdentityOp(root, start, end, w) =>
      root in abs && exists upto: nat ::
        && start <= upto <= TWO64 && PrefixEnd(start, end, upto, a.ok)
        && abs' == abs[root := abs[root] + IdentityPages(start, upto, w)]
        && abs[root].Keys !! IdentityPages(start, upto, w).Keys
    case HeapOp(root, heap, pages) =>
      root in abs &&
      if a.ok then exists hs: seq<nat> :: Backing(hs) && |hs| == pages &&
                     abs' == abs[root := abs[root] + HeapPagesFrom(hs, 0)] &&
                     abs[root].Keys !! HeapPagesFrom(hs, 0).Keys
      else abs' == abs
    case AllocateOp => abs' == abs
    case ReleaseOp(_) => abs' == abs
  }

  // ---- One operation on one space, seen from all of them ----

  lemma OthersApart(sys: System, s': Machine, root: nat, other: nat)
    requires Inv(sys) && root in sys.spaces && other in sys.spaces && other != root
    requires TreeOk(s', root)
    requires (Tables(s'.memory, root) - Tables(sys.machine.memory, root)) !! sys.machine.frames.used
    ensures forall p: Path :: p.Valid() && Resolve(sys.machine.memory, other, p).Some? ==>
              !TableAddress(s'.memory, root, Resolve(sys.machine.memory, other, p).value)
  {
    hide And, Resolve, Entry, Tables, RightsOk;
    var s := sys.machine;
    TablesAreOwned(s, other);
    forall p: Path | p.Valid() && Resolve(s.memory, other, p).Some?
      ensures !TableAddress(s'.memory, root, Resolve(s.memory, other, p).value)
    {
      var a := Resolve(s.memory, other, p).value;
      assert Owns(s.frames, a);
      InTables(s.memory, other, p, a);
      assert a / FRAME_SIZE !in Tables(s'.memory, root);
      forall q: Path | q.Valid()
        ensures Resolve(s'.memory, root, q) != Some(a)
      {
        if Resolve(s'.memory, root, q) == Some(a) {
          InTables(s'.memory, root, q, a);
        }
      }
    }
  }

  lemma SpaceStep(sys: System, s': Machine, root: nat)
    requires Inv(sys) && root in sys.spaces
    requires SpaceOk(s', root) && WritesOwnTables(sys.machine.memory, s'.memory, root)
    requires sys.machine.frames.owned <= s'.frames.owned
    requires (Tables(s'.memory, root) - Tables(sys.machine.memory, root)) !! sys.machine.frames.used
    ensures Inv(sys.(machine := s'))
    ensures Abs(sys.(machine := s')) == Abs(sys)[root := Pages(s'.memory, root)]
  {
    hide And, Resolve, Entry, Tables, Pages, WritesOwnTables;
    var s := sys.machine;
    SpaceFrames(s', root);
    forall r | r in sys.spaces && r != root
      ensures SpaceOk(s', r)
      ensures Pages(s'.memory, r) == Pages(s.memory, r)
      ensures Tables(s'.memory, r) == Tables(s.memory, r)
      ensures Tables(s'.memory, r) !! Tables(s'.memory, root)
    {
      OthersApart(sys, s', root, r);
      OtherSpaceKept(s, s', root, r);
      TablesAreOwned(s, r);
    }
  }

  lemma NewSpaceStep(sys: System)
    requires Inv(sys)
    ensures var (sys', a) := Step(sys, NewSpaceOp);
            Inv(sys') && AbsStep(Abs(sys), Abs(sys'), NewSpaceOp, a)
  {
    hide And, Resolve, Entry, Pages, SpaceOk, Tables, Allocate, ZeroTable;
    var s := sys.machine;
    var (s', r) := NewSpace(s);
    NewSpaceSpec(s);
    AllocateTakesLowest(s.frames);
    if r.Some? {
      var root := r.value;
      FreshRoot(s);
      forall q | q in sys.spaces
        ensures q != root
        ensures SpaceOk(s', q) && Pages(s'.memory, q) == Pages(s.memory, q)
        ensures Tables(s'.memory, q) == Tables(s.memory, q)
        ensures Tables(s'.memory, q) !! Tables(s'.memory, root)
      {
        RootOwned(s, q);
        ApartFromFresh(s, s', root, q);
        OtherSpaceKept(s, s', root, q);
        SpaceTree(s, q);
        TablesAreOwned(s, q);
        SpaceFrames(s, q);
      }
      assert Abs(sys.(machine := s', spaces := sys.spaces + {root})) == Abs(sys)[root := map[]];
    }
  }

  lemma RootOwned(s: Machine, root: nat)
    requires SpaceOk(s, root)
    ensures Owns(s.frames, root)
  {
    assert Resolve(s.memory, root, Root) == Some(root);
  }

  /** After the PML4 has been zeroed it is the only table of its tree and the only table written. */
  lemma FreshRoot(s: Machine)
    requires s.frames.Valid() && NewSpace(s).1.Some?
    ensures var (s', r) := NewSpace(s);
            && WritesOwnTables(s.memory, s'.memory, r.value)
            && (forall a: nat :: TableAddress(s'.memory, r.value, a) ==> a == r.value)
            && Tables(s'.memory, r.value) <= {r.value / FRAME_SIZE}
  {
    hide And, Resolve, Entry;
    var (s', r) := NewSpace(s);
    var root := r.value;
    forall q: Path | q.Valid()
      ensures Resolve(s'.memory, root, q) == if q == Root then Some(root) else None
    {
      EmptyRootResolves(s'.memory, root, q);
    }
    assert TableAddress(s'.memory, root, root) by { assert Resolve(s'.memory, root, Root) == Some(root); }
  }

  lemma ApartFromFresh(s: Machine, s': Machine, root: nat, other: nat)
    requires SpaceOk(s, other) && !Owns(s.frames, root)
    requires forall a: nat :: TableAddress(s'.memory, root, a) ==> a == root
    ensures forall p: Path :: p.Valid() && Resolve(s.memory, other, p).Some? ==>
              !TableAddress(s'.memory, root, Resolve(s.memory, other, p).value)
  {
    hide And, Resolve, TableAddress;
  }

  // ---- Each operation ----

  lemma MapStep(sys: System, op: Op)
    requires Inv(sys) && Allowed(sys, op) && op.MapOp?
    ensures var (sys', a) := Step(sys, op);
            Inv(sys') && AbsStep(Abs(sys), Abs(sys'), op, a)
  {
    hide And, Resolve, Entry, Pages, SpaceOk, Tables, Map, WritesOwnTables, LinksGrowOn, IndexesOf, Missing, ArgumentError;
    var s := sys.machine;
    MapSpec(s, op.root, op.va, op.pa, op.writable, op.user);
    MapConfined(s, op.root, op.va, op.pa, op.writable, op.user);
    SpaceStep(sys, Map(s, op.root, op.va, op.pa, op.writable, op.user).0, op.root);
  }

  lemma UnmapStep(sys: System, op: Op)
    requires Inv(sys) && Allowed(sys, op) && op.UnmapOp?
    ensures var (sys', a) := Step(sys, op);
            Inv(sys') && AbsStep(Abs(sys), Abs(sys'), op, a)
  {
    hide And, Resolve, Entry, Pages, SpaceOk, Tables, Unmap, WritesOwnTables, IsCanonical;
    var s := sys.machine;
    UnmapSpec(s, op.root, op.va);
    UnmapConfined(s, op.root, op.va);
    PagesArePages(s.memory, op.root, op.va);
    SpaceStep(sys, s.(memory := Unmap(s.memory, op.root, op.va).0), op.root);
  }

  lemma PagesArePages(m: Memory, root: nat, va: u64)
    ensures va in Pages(m, root) ==> IsPage(va)
  {
  }

  lemma IdentityStep(sys: System, op: Op)
    requires Inv(sys) && Allowed(sys, op) && op.IdentityOp?
    ensures var (sys', a) := Step(sys, op);
            Inv(sys') && AbsStep(Abs(sys), Abs(sys'), op, a)
  {
    hide And, Resolve, Entry, Pages, SpaceOk, Tables, IdentityLoop, WritesOwnTables, IdentityPages;
    var s := sys.machine;
    var upto := IdentityMapSpec(s, op.root, op.start, op.end, op.writable);
    SelfConfined(s.memory, op.root);
    if op.start % PAGE_SIZE == 0 && op.end % PAGE_SIZE == 0 {
      IdentityLoopConfined(s, op.root, op.start, op.end, op.writable);
    }
    SpaceStep(sys, IdentityMap(s, op.root, op.start, op.end, op.writable).0, op.root);
    assert Abs(Step(sys, op).0) == Abs(sys)[op.root := Abs(sys)[op.root] + IdentityPages(op.start, upto, op.writable)];
  }

  lemma HeapStep(sys: System, op: Op)
    requires Inv(sys) && Allowed(sys, op) && op.HeapOp?
    ensures var (sys', a) := Step(sys, op);
            Inv(sys') && AbsStep(Abs(sys), Abs(sys'), op, a)
  {
    hide And, Resolve, Entry, Pages, SpaceOk, Tables, HeapLoop, WritesOwnTables, HeapPagesFrom, NewLinksOnHeap, Backing, FramesFrom;
    var s := sys.machine;
    var hs := InitializeSpec(s, op.root, op.heap, op.pages);
    SelfConfined(s.memory, op.root);
    if op.pages <= HEAP_PAGES {
      HeapInvStart(s, op.root, op.pages);
      HeapLoopConfined(s, s, op.root, [], op.pages);
    }
    SpaceStep(sys, Initialize(s, op.root, op.heap, op.pages).0, op.root);
    if Initialize(s, op.root, op.heap, op.pages).2.Ok? {
      assert Abs(Step(sys, op).0) == Abs(sys)[op.root := Abs(sys)[op.root] + HeapPagesFrom(hs, 0)];
    }
  }

  lemma FrameStep(sys: System, op: Op)
    requires Inv(sys) && Allowed(sys, op) && (op.AllocateOp? || op.ReleaseOp?)
    ensures var (sys', a) := Step(sys, op);
            Inv(sys') && AbsStep(Abs(sys), Abs(sys'), op, a)
  {
    hide And, Resolve, Entry, Pages, SpaceOk, Tables, Allocate, Release;
    var s := sys.machine;
    AllocateTakesLowest(s.frames);
    if op.ReleaseOp? {
      ReleaseReturnsOne(s.frames, op.address);
    }
    forall r | r in sys.spaces
      ensures SpaceOk(Step(sys, op).0.machine, r)
    {
      if op.AllocateOp? {
        AllocateKeepsSpace(s, r);
      } else {
        ReleaseKeepsSpace(s, r, op.address);
      }
    }
  }

  /** Every operation keeps the invariant and does to the page maps what its answer says. */
  lemma StepRefines(sys: System, op: Op)
    requires Inv(sys) && Allowed(sys, op)
    ensures var (sys', a) := Step(sys, op);
            Inv(sys') && AbsStep(Abs(sys), Abs(sys'), op, a)
  {
    hide Inv, Abs, AbsStep, Step, Allowed;
    match op
    case NewSpaceOp => NewSpaceStep(sys);
    case MapOp(_, _, _, _, _) => MapStep(sys, op);
    case UnmapOp(_, _) => UnmapStep(sys, op);
    case IdentityOp(_, _, _, _) => IdentityStep(sys, op);
    case HeapOp(_, _, _) => HeapStep(sys, op);
    case AllocateOp => FrameStep(sys, op);
    case ReleaseOp(_) => FrameStep(sys, op);
  }

  // ---- Runs ----

  function Run(sys: System, ops: seq<Op>): System
    decreases |ops|
  {
    if ops == [] then sys else Run(Step(sys, ops[0]).0, ops[1..])
  }

  ghost predicate AllAllowed(sys: System, ops: seq<Op>)
    decreases |ops|
  {
    ops == [] || (Allowed(sys, ops[0]) && AllAllowed(Step(sys, ops[0]).0, ops[1..]))
  }

  /** The abstract machine can follow the run step by step. */
  ghost predicate Simulates(sys: System, ops: seq<Op>)
    decreases |ops|
  {
    ops == [] ||
    (var (sys', a) := Step(sys, ops[0]);
     AbsStep(Abs(sys), Abs(sys'), ops[0], a) && Simulates(sys', ops[1..]))
  }

  /** In a state satisfying the invariant, translation and rights read off the abstract page map. */
  ghost predicate ReadsAs(sys: System, abs: AbsSpaces) {
    forall r, va: u64 :: r in sys.spaces ==>
      && r in abs
      && Translate(sys.machine.memory, r, va) == Lookup(abs[r], va)
      && (va in abs[r] ==> EffectiveRights(sys.machine.memory, r, va) == (abs[r][va].writable, abs[r][va].user))
  }

  lemma InvReadsAs(sys: System)
    requires Inv(sys)
    ensures ReadsAs(sys, Abs(sys))
  {
    hide And, Resolve, Entry, Tables, Translate, IsPresent, IsWritable, IsUser, IndexesOf, EffectiveRights, Lookup, IsPage;
    forall r, va: u64 | r in sys.spaces
      ensures Translate(sys.machine.memory, r, va) == Lookup(Abs(sys)[r], va)
      ensures va in Abs(sys)[r] ==>
                EffectiveRights(sys.machine.memory, r, va) == (Abs(sys)[r][va].writable, Abs(sys)[r][va].user)
    {
      TranslateIsLookup(sys.machine, r, va);
    }
  }

  lemma {:induction false} RunKeepsInv(sys: System, ops: seq<Op>)
    requires Inv(sys) && AllAllowed(sys, ops)
    ensures Inv(Run(sys, ops)) && Simulates(sys, ops)
    decreases |ops|
  {
    hide Inv, Abs, AbsStep, Step, Allowed;
    if ops != [] {
      StepRefines(sys, ops[0]);
      RunKeepsInv(Step(sys, ops[0]).0, ops[1..]);
    }
  }

  /**
   From any allocator state with no address space yet, over every run of operations: the abstract
   machine simulates the run, `translate` equals the lookup in the abstract page map of each space at
   every 64-bit address, the rights the processor grants on every mapped page are those of its own
   mapping, and in every space no table is shared, huge, or held in a frame that is not handed out.
   */
  lemma RunRefinesPageMaps(frames: FrameState, memory: Memory, ops: seq<Op>)
    requires frames.Valid()
    requires AllAllowed(System(Machine(memory, frames), {}), ops)
    ensures var sys := System(Machine(memory, frames), {});
            var sys' := Run(sys, ops);
            && Simulates(sys, ops)
            && Abs(sys) == map[]
            && ReadsAs(sys', Abs(sys'))
            && (forall r :: r in sys'.spaces ==> TreeOk(sys'.machine, r))
  {
    hide Step, Allowed, AbsStep, ReadsAs, TreeOk, RightsOk, Tables;
    var sys := System(Machine(memory, frames), {});
    RunKeepsInv(sys, ops);
    InvReadsAs(Run(sys, ops));
  }
}
