/** The pages behind the kernel heap: malloc appends them in the kernel half, fork takes the task
    structure from there, and copy-on-write takes the page at the limit away. */
module HeapPages {
  import opened Bits
  import opened Options
  import opened Addresses
  import opened PageTables
  import opened CopyOnWrite
  import opened DirectMapping
  import opened Forking
  import opened Boot
  import opened Systems
  import opened Refinement
  import S = Scheduling
  import Frames
  import Heaps

  // The number of the heap's first page, and that of the first page of the top-level slot after
  // those that a heap can grow into.
  const FIRST: nat := 0x8_1000_0000
  const LAST_SLOT: nat := 0xf_f800_0000

  function PageCountOf(h: Heaps.Heap): int {
    (h.end - Heaps.START) / 0x1000
  }

  // A page that the kernel alone may read and write: no flag but these and the present bit.
  predicate KernelData(e: nat) {
    e % 0x1000 == 3
  }

  lemma DataIsPresent(e: nat)
    requires KernelData(e)
    ensures Present(e) && Writable(e) && !UserBit(e)
  {
    RightsAre(e);
    assert e == 0x1000 * (e / 0x1000) + 3 == 8 * (0x200 * (e / 0x1000)) + 3;
    EighthsOf(0x200 * (e / 0x1000), 3);
  }

  // Every page of the heap is mapped, and no page after it up to the kernel's image.
  ghost predicate HeapMapped(s: Machine, h: Heaps.Heap) {
    && (forall v: nat :: 0x8_1000_0000 <= v < 0x8_1000_0000 + PageCountOf(h) ==> KernelData(Get(s.mem, s.kernel, 4, v)))
    && (forall v: nat :: 0x8_1000_0000 + PageCountOf(h) <= v < 0xf_f800_0000 ==> Get(s.mem, s.kernel, 4, v) == 0)
  }

  lemma HeapAddresses(h: Heaps.Heap)
    requires Heaps.HeapOk(h)
    ensures PageOf(Heaps.START) == FIRST && PageOf(Heaps.LIMIT) == SCRATCH == FIRST + 0x20_0000
    ensures 0 < PageCountOf(h) && FIRST + PageCountOf(h) <= PAGES
    ensures h.end == Heaps.START + 0x1000 * PageCountOf(h)
    ensures h.end <= Heaps.LIMIT <==> PageCountOf(h) <= 0x20_0000
  {
    hide Heaps.Chain;
    assert Heaps.START + 24 <= h.end;
  }

  // ----- what copy-on-write does to the heap

  // Every address of a tiled heap belongs to a chunk.
  lemma {:induction false} ChunkAt(h: Heaps.Heap, a: nat, x: nat) returns (c: nat)
    requires Heaps.Tiles(h, a) && a <= x < h.end
    ensures c in Heaps.Chain(h, a) && c in h.hdrs && c <= x < c + 24 + h.hdrs[c].size
    decreases h.end - a
  {
    if x < a + 24 + h.hdrs[a].size {
      c := a;
    } else {
      c := ChunkAt(h, Heaps.Next(h, a), x);
    }
  }

  /** A copy-on-write fault leaves the heap mapped if and only if the heap ends at or below its limit.
      Otherwise exactly the page at the limit is lost, which belongs to a chunk of the heap. */
  lemma CowKeepsTheHeapIff(h: Heaps.Heap, s: Machine, roles: seq<Role>, r: nat, v: nat)
    requires Heaps.HeapOk(h) && HeapMapped(s, h)
    requires Ok(s, roles) && IsRoot(roles, r) && v < LOWER && s.cr3 == r
    requires Present(Get(s.mem, r, 4, v)) && UserBit(Get(s.mem, r, 4, v))
    requires Frames.Available(s.pmm) >= CowCost(s)
    ensures Cow(s, r, v).Some?
    ensures var s' := Cow(s, r, v).value.1;
      && (HeapMapped(s', h) <==> h.end <= 0xffff_8102_0000_0000)
      && (forall w: nat :: 0x8_1000_0000 <= w < 0x8_1000_0000 + PageCountOf(h) && w != 0x8_1020_0000 ==>
            Get(s'.mem, s'.kernel, 4, w) == Get(s.mem, s.kernel, 4, w))
      && (h.end > 0xffff_8102_0000_0000 ==>
            && Present(Get(s.mem, s.kernel, 4, 0x8_1020_0000)) && !Present(Get(s'.mem, s'.kernel, 4, 0x8_1020_0000))
            && exists c: nat :: c in h.hdrs && c <= 0xffff_8102_0000_0000 < c + 24 + h.hdrs[c].size)
  {
    hide Get, Present, Writable, UserBit, Huge, Fr, Cow, CowCost, Heaps.Chain;
    HeapAddresses(h);
    ScratchIndices();
    ZeroAbsent();
    var f, s', roles' := CowEffect(s, roles, r, v);
    assert IsRoot(roles, s.kernel);
    if h.end > Heaps.LIMIT {
      var c := ChunkAt(h, Heaps.START, Heaps.LIMIT);
      DataIsPresent(Get(s.mem, s.kernel, 4, SCRATCH));
    }
  }

  // ----- pages in the kernel half

  lemma SlotOfHeapPage(v: nat)
    requires FIRST <= v < LAST_SLOT
    ensures LOWER <= v < PAGES && Shift(v, 3) != 256 && Shift(v, 3) != 511
  {
    assert Shift(v, 1) == v / 512;
    assert Shift(v, 2) == v / 512 / 512;
    assert Shift(v, 3) == v / 512 / 512 / 512;
  }

  // A page of the heap is mapped: no user page changes, and no task's memory.
  ghost predicate KernelPageAdded(s: Machine, s': Machine, roles: seq<Role>, roles': seq<Role>, v: nat) {
    && Stable(s, roles, s', roles')
    && Present(Get(s'.mem, s.kernel, 4, v))
    && (!Present(Get(s.mem, s.kernel, 4, v)) ==> KernelData(Get(s'.mem, s.kernel, 4, v)))
    && (forall q: nat, w: nat :: IsRoot(roles, q) && w < PAGES && (w != v || Present(Get(s.mem, s.kernel, 4, v))) ==>
          Get(s'.mem, q, 4, w) == Get(s.mem, q, 4, w))
  }

  lemma RequestKernelPage(s: Machine, roles: seq<Role>, v: nat)
    returns (s': Machine, roles': seq<Role>)
    requires MemoryOk(s, roles) && FIRST <= v < LAST_SLOT
    requires Frames.Available(s.pmm) >= PageCost(s, s.kernel, v)
    ensures RequestPage(s, s.kernel, v, 2) == Some(s') && KernelPageAdded(s, s', roles, roles', v)
    ensures Frames.Available(s'.pmm) == Frames.Available(s.pmm) - PageCost(s, s.kernel, v)
  {
    hide Get, Present, Writable, UserBit, Huge, Fr, Missing, MapAt, AloneOn, NoHuge, MemoryOf;
    SlotOfHeapPage(v);
    var k := s.kernel;
    assert IsRoot(roles, k) && NodeOk(roles, k);
    RootOnPath(roles, k, v);
    NoHugeOnPath(s.mem, roles, k, k, k, v);
    RootWalkable(s.mem, roles, k, k, v);
    if Present(Get(s.mem, k, 4, v)) {
      s', roles' := s, roles;
    } else {
      var f;
      f, s', roles' := RequestPageEffect(s, roles, k, v, 2);
      PresentLeaf(f);
      KernelPageIsStable(s, s', roles, roles', v, f);
    }
  }

  lemma PresentLeaf(f: nat)
    ensures KernelData(LeafEntry(f, 2))
  {
    hide LeafEntry;
    LeafFlags(f, 2);
  }

  lemma KernelPageIsStable(s: Machine, s': Machine, roles: seq<Role>, roles': seq<Role>, v: nat, f: nat)
    requires MemoryOk(s, roles) && LOWER <= v < PAGES && Requested(s, s', roles, roles', s.kernel, v, 2, f)
    requires !Present(Get(s.mem, s.kernel, 4, v)) && IsRoot(roles, s.kernel)
    ensures Stable(s, roles, s', roles')
  {
    hide Get, Present, Writable, UserBit, Huge, Fr, LeafEntry, AloneOn, MemoryOf;
    forall q: nat, w: nat, q': nat, w': nat
      | IsRoot(roles', q) && IsRoot(roles', q') && w < LOWER && w' < LOWER
      ensures AloneOn(s'.mem, q, w, q', w')
    {
      assert IsRoot(roles, q) && IsRoot(roles, q');
      assert AloneOn(s.mem, q, w, q', w');
      SameAlone(s.mem, s'.mem, q, w, q', w');
    }
    forall q: nat | IsRoot(roles, q)
      ensures MemoryOf(s'.mem, q) == MemoryOf(s.mem, q)
    {
      forall w: nat | w < LOWER
        ensures SamePageContents(s.mem, q, s'.mem, q, w)
      {
        MappedIsData(s.mem, roles, s.kernel, q, w);
        SameContents(s, s', roles, q, w);
      }
      MemoryEqual(s.mem, q, s'.mem, q);
    }
  }

  lemma SameAlone(m: seq<nat>, m': seq<nat>, q: nat, w: nat, q': nat, w': nat)
    requires AloneOn(m, q, w, q', w') && Get(m', q, 4, w) == Get(m, q, 4, w) && Get(m', q', 4, w') == Get(m, q', 4, w')
    ensures AloneOn(m', q, w, q', w')
  {
    hide Get, Present, Writable, Fr;
  }

  lemma SameContents(s: Machine, s': Machine, roles: seq<Role>, q: nat, w: nat)
    requires FreeOk(s, roles) && OthersUntouched(s, s'.mem, roles) && |s'.mem| == |s.mem|
    requires Get(s'.mem, q, 4, w) == Get(s.mem, q, 4, w)
    requires var e := Get(s.mem, q, 4, w); Present(e) ==> Fr(e) < |roles| && roles[Fr(e)].Data?
    ensures SamePageContents(s.mem, q, s'.mem, q, w)
  {
    hide Get, Present, Fr, Rd;
    var e := Get(s.mem, q, 4, w);
    if Present(e) {
      assert SameFrame(s.mem, s'.mem, Fr(e));
    }
  }

  // Mapping the pages of an append.
  ghost predicate KernelRangeAdded(s: Machine, s': Machine, roles: seq<Role>, roles': seq<Role>, v: nat, n: nat) {
    && Stable(s, roles, s', roles')
    && (forall w: nat :: v <= w < v + n ==>
          && Present(Get(s'.mem, s.kernel, 4, w))
          && (!Present(Get(s.mem, s.kernel, 4, w)) ==> KernelData(Get(s'.mem, s.kernel, 4, w))))
    && (forall q: nat, w: nat ::
          IsRoot(roles, q) && w < PAGES && (w < v || v + n <= w || Present(Get(s.mem, s.kernel, 4, w))) ==>
          Get(s'.mem, q, 4, w) == Get(s.mem, q, 4, w))
  }

  lemma {:induction false} RequestKernelRange(s: Machine, roles: seq<Role>, v: nat, n: nat)
    returns (s': Machine, roles': seq<Role>)
    requires MemoryOk(s, roles) && FIRST <= v && v + n <= LAST_SLOT
    requires Frames.Available(s.pmm) >= RangeCost(s, s.kernel, v, n, 2)
    ensures RequestRange(s, s.kernel, v, n, 2) == Some(s') && KernelRangeAdded(s, s', roles, roles', v, n)
    ensures Frames.Available(s'.pmm) == Frames.Available(s.pmm) - RangeCost(s, s.kernel, v, n, 2)
    decreases n
  {
    hide Get, Present, Ok, Coherent, Exclusive, MemoryOf, RequestPage, PageCost;
    if n == 0 {
      s', roles' := s, roles;
    } else {
      var s1, roles1 := RequestKernelPage(s, roles, v);
      s', roles' := RequestKernelRange(s1, roles1, v + 1, n - 1);
      KernelIsRoot(s, roles);
      assert Get(s'.mem, s.kernel, 4, v) == Get(s1.mem, s.kernel, 4, v);
    }
  }

  // ----- the first page

  // Requesting a kernel page leaves the top-level table as it is.
  lemma RequestKeepsTop(s: Machine, roles: seq<Role>, v: nat)
    requires Ok(s, roles) && FIRST <= v < LAST_SLOT && Frames.Available(s.pmm) >= PageCost(s, s.kernel, v)
    ensures RequestPage(s, s.kernel, v, 2).Some?
    ensures SameFrame(s.mem, RequestPage(s, s.kernel, v, 2).value.mem, s.kernel)
  {
    hide Get, Present, Writable, UserBit, Huge, Fr, Missing, MapAt, NoHuge, Layout, FreeOk;
    SlotOfHeapPage(v);
    var k := s.kernel;
    KernelIsRoot(s, roles);
    RootNode(s.mem, roles, k, k);
    RootOnPath(roles, k, v);
    NoHugeOnPath(s.mem, roles, k, k, k, v);
    RootWalkable(s.mem, roles, k, k, v);
    if !Present(Get(s.mem, k, 4, v)) {
      AllocEffect(s, roles);
      TopStays(Alloc(s).value.1, roles, k, v, LeafEntry(Alloc(s).value.0, 2));
    }
  }

  /** libk_init on a kernel without user pages: the first page of the heap is mapped, at exact cost, and
      nothing else changes. */
  lemma HeapStarts(s: Machine, roles: seq<Role>)
    returns (s': Machine, roles': seq<Role>)
    requires MemoryOk(s, roles) && LowerHalfEmpty(s.mem, s.kernel)
    requires forall j: nat :: j < 256 ==> Rd(s.mem, s.kernel, j) == 0
    requires forall w: nat :: 0x8_1000_0000 <= w < 0xf_f800_0000 ==> Get(s.mem, s.kernel, 4, w) == 0
    requires Frames.Available(s.pmm) >= PageCost(s, s.kernel, FIRST)
    ensures RequestRange(s, s.kernel, FIRST, 1, 2) == Some(s') && Stable(s, roles, s', roles')
    ensures Heaps.HeapOk(Heaps.Init()) && HeapMapped(s', Heaps.Init())
    ensures LowerHalfEmpty(s'.mem, s.kernel) && Tables(s'.mem, s.kernel, 4) == 0
    ensures forall w: nat :: LOWER <= w < PAGES && w != FIRST ==>
      Get(s'.mem, s.kernel, 4, w) == Get(s.mem, s.kernel, 4, w)
    ensures Frames.Available(s'.pmm) == Frames.Available(s.pmm) - PageCost(s, s.kernel, FIRST)
  {
    hide Get, Present, Ok, Coherent, Exclusive, MemoryOf, PageCost, Tables, Heaps.HeapOk, HeapMapped, KernelData;
    Heaps.InitOk();
    s', roles' := RequestKernelPage(s, roles, FIRST);
    ZeroAbsent();
    FirstPageMapped(s, s', roles, roles');
    RequestKeepsTop(s, roles, FIRST);
    KernelIsRoot(s, roles);
    OneIsEnough(s, s.kernel, FIRST);
    NoTables(s'.mem, s.kernel, 0);
    TablesOfTop(s'.mem, s.kernel);
  }

  lemma FirstPageMapped(s: Machine, s': Machine, roles: seq<Role>, roles': seq<Role>)
    requires MemoryOk(s, roles) && s'.kernel == s.kernel
    requires forall w: nat :: 0x8_1000_0000 <= w < 0xf_f800_0000 ==> Get(s.mem, s.kernel, 4, w) == 0
    requires KernelData(Get(s'.mem, s.kernel, 4, 0x8_1000_0000))
    requires forall q: nat, w: nat ::
      IsRoot(roles, q) && w < PAGES && w != 0x8_1000_0000 ==> Get(s'.mem, q, 4, w) == Get(s.mem, q, 4, w)
    ensures HeapMapped(s', Heaps.Init())
  {
    hide Get, KernelData, Exclusive, Coherent, Present;
    KernelIsRoot(s, roles);
    Heaps.InitOk();
    assert PageCountOf(Heaps.Init()) == 1;
  }

  lemma OneIsEnough(s: Machine, k: nat, v: nat)
    ensures RequestRange(s, k, v, 1, 2) == RequestPage(s, k, v, 2)
  {
    hide RequestPage;
  }

  lemma TablesOfTop(m: seq<nat>, k: nat)
    ensures Tables(m, k, 4) == TablesFrom(m, k, 4, 0)
  {
  }

  // ----- malloc with its pages

  // What malloc does to the page tables: it maps the pages that it appends.
  function MallocPages(s: Machine, h: Heaps.Heap, n: Word): Option<Machine>
    requires Heaps.Tiles(h, Heaps.START)
  {
    if Appends(h, n) then
      RequestRange(s, s.kernel, FIRST + (h.end - Heaps.START) / 0x1000, Heaps.Appended(Heaps.Want(n)) / 0x1000, 2)
    else Some(s)
  }

  predicate Appends(h: Heaps.Heap, n: Word)
    requires Heaps.Tiles(h, Heaps.START)
  {
    n != 0 && h.hdrs[Heaps.Find(h, Heaps.START, Heaps.Want(n))].size == 0 &&
    Heaps.Find(h, Heaps.START, Heaps.Want(n)) + 24 <= Heaps.LIMIT
  }

  function MallocCost(s: Machine, h: Heaps.Heap, n: Word): nat
    requires Heaps.Tiles(h, Heaps.START) && h.end >= Heaps.START
  {
    if Appends(h, n) then
      RangeCost(s, s.kernel, FIRST + (h.end - Heaps.START) / 0x1000, Heaps.Appended(Heaps.Want(n)) / 0x1000, 2)
    else 0
  }

  // A heap is mapped further once the pages after it are.
  lemma MappedFurther(s: Machine, s': Machine, roles: seq<Role>, roles': seq<Role>,
                      h: Heaps.Heap, h': Heaps.Heap, n: nat)
    requires HeapMapped(s, h) && IsRoot(roles, s.kernel) && s'.kernel == s.kernel && 0 < PageCountOf(h)
    requires KernelRangeAdded(s, s', roles, roles', 0x8_1000_0000 + PageCountOf(h), n)
    requires 0x8_1000_0000 + PageCountOf(h) + n <= 0xf_f800_0000 && PageCountOf(h') == PageCountOf(h) + n
    ensures HeapMapped(s', h')
  {
    hide Get, Stable, KernelData, PageCountOf;
    ZeroAbsent();
  }

  lemma MappedAsFar(s: Machine, h: Heaps.Heap, h': Heaps.Heap)
    requires HeapMapped(s, h) && h'.end == h.end
    ensures HeapMapped(s, h')
  {
  }

  lemma MorePages(h: Heaps.Heap, h': Heaps.Heap, n: nat)
    requires Heaps.START <= h.end && h'.end == h.end + 0x1000 * n
    ensures PageCountOf(h') == PageCountOf(h) + n
  {
  }

  // The appended pages stay below the last top-level slot.
  ghost predicate Fits(h: Heaps.Heap, n: Word)
    requires Heaps.Tiles(h, Heaps.START)
  {
    Appends(h, n) ==> FIRST + PageCountOf(h) + Heaps.Appended(Heaps.Want(n)) / 0x1000 <= LAST_SLOT
  }

  /** malloc keeps the heap mapped, new pages included, touches no task's memory and no stale translation
      is left; it takes exactly the frames for the appended pages. */
  lemma MallocKeepsTheHeapMapped(s: Machine, roles: seq<Role>, h: Heaps.Heap, n: Word)
    returns (s': Machine, roles': seq<Role>)
    requires Heaps.HeapOk(h) && HeapMapped(s, h) && Fits(h, n)
    requires h.end >= Heaps.START
    requires MemoryOk(s, roles) && Frames.Available(s.pmm) >= MallocCost(s, h, n)
    ensures MallocPages(s, h, n) == Some(s') && Stable(s, roles, s', roles')
    ensures Frames.Available(s'.pmm) == Frames.Available(s.pmm) - MallocCost(s, h, n)
    ensures HeapMapped(s', Heaps.AfterMalloc(h, n).0)
  {
    hide Get, Present, Ok, Coherent, Exclusive, MemoryOf, Heaps.Find, Heaps.Split, Heaps.Extend, Heaps.Appended,
      Heaps.Want, Heaps.Chain, Heaps.Tiles, KernelData, HeapMapped, Heaps.AfterMalloc;
    HeapAddresses(h);
    NewEnd(h, n);
    KernelIsRoot(s, roles);
    if Appends(h, n) {
      Heaps.AppendedIs(Heaps.Want(n));
      var pages := Heaps.Appended(Heaps.Want(n)) / 0x1000;
      s', roles' := RequestKernelRange(s, roles, FIRST + PageCountOf(h), pages);
      MorePages(h, Heaps.AfterMalloc(h, n).0, pages);
      MappedFurther(s, s', roles, roles', h, Heaps.AfterMalloc(h, n).0, pages);
    } else {
      s', roles' := s, roles;
      MappedAsFar(s, h, Heaps.AfterMalloc(h, n).0);
    }
  }

  // How the end of the heap moves.
  lemma NewEnd(h: Heaps.Heap, n: Word)
    requires Heaps.HeapOk(h)
    ensures Heaps.AfterMalloc(h, n).0.end == h.end + if Appends(h, n) then Heaps.Appended(Heaps.Want(n)) else 0
  {
    hide Heaps.Find, Heaps.Appended, Heaps.Chain;
  }

  // ----- fork with the task structure from the heap

  // sizeof(struct task): twenty-one words and the identifier, packed
  const TASK_SIZE: nat := 169

  /** syscall_fork with its malloc: the kernel, what the processes see, and the heap afterwards.  If
      malloc fails, the code writes through a null pointer and stops. */
  function ForkWithMalloc(sys: System, h: Heaps.Heap, frame: S.Frame, junk: Word): Option<(System, Out, Heaps.Heap)>
    requires sys.ring != [] && Heaps.Tiles(h, Heaps.START)
  {
    var (h1, block) := Heaps.AfterMalloc(h, TASK_SIZE);
    if block.None? then None
    else
      var s1 :- MallocPages(sys.mach, h, TASK_SIZE);
      var (sys2, out) :- Step(sys.(mach := s1), ForkCall(frame, junk));
      Some((sys2, out, h1))
  }

  // The frames that it takes: for the appended page, the new top-level table, and the copied tables.
  function ForkCost(sys: System, h: Heaps.Heap): nat
    requires sys.ring != [] && Heaps.Tiles(h, Heaps.START) && h.end >= Heaps.START
  {
    MallocCost(sys.mach, h, TASK_SIZE) +
    match MallocPages(sys.mach, h, TASK_SIZE)
    case None => 0
    case Some(s1) => 1 + Tables(s1.mem, sys.ring[0].vmap, 4)
  }

  /** A fork that takes its task structure from the kernel heap shows the processes what the ideal fork
      shows, keeps the invariant, keeps the heap mapped, takes exactly `ForkCost` frames, and adds
      exactly the structure to the live blocks if and only if the chunk found for it was roomy.  It fails
      only when the heap has passed its limit and no chunk is large enough. */
  lemma ForkWithMallocEffect(sys: System, roles: seq<Role>, h: Heaps.Heap, frame: S.Frame, junk: Word)
    returns (sys': System, out: Out, h': Heaps.Heap, roles': seq<Role>)
    requires Inv(sys, roles) && !sys.halted && Heaps.HeapOk(h) && HeapMapped(sys.mach, h) && h.end >= Heaps.START
    requires h.end <= 0xffff_8102_0000_0000 || !Heaps.NothingSuits(h, 169 + 24)
    requires Frames.Available(sys.mach.pmm) >= ForkCost(sys, h)
    ensures ForkWithMalloc(sys, h, frame, junk) == Some((sys', out, h')) && Inv(sys', roles')
    ensures IdealStep(Abstract(sys), ForkCall(frame, junk)) == (Abstract(sys'), out)
    ensures Frames.Available(sys'.mach.pmm) == Frames.Available(sys.mach.pmm) - ForkCost(sys, h)
    ensures HeapMapped(sys'.mach, h')
    ensures Heaps.AfterMalloc(h, 169).1.Some?
    ensures var c := Heaps.AfterMalloc(h, 169).1.value;
      Heaps.Gains(h, h', c, 169) <==> Heaps.Roomy(h, 169)
  {
    hide Get, Present, Ok, Coherent, Exclusive, MemoryOf, Heaps.Find, Heaps.AfterMalloc, Heaps.Appended, Heaps.Chain,
      Heaps.Tiles, Heaps.Roomy, Heaps.Gains, Heaps.Suits, MallocPages, MallocCost, Step, IdealStep, AbstractRing,
      Tables;
    OnePage(h);
    Heaps.MallocEffect(h, TASK_SIZE);
    var s1, roles1 := MallocKeepsTheHeapMapped(sys.mach, roles, h, TASK_SIZE);
    var sys1 := sys.(mach := s1);
    StableSystem(sys, roles, sys1, roles1);
    sys', out, roles' := ForkStep(sys1, roles1, frame, junk);
    h' := Heaps.AfterMalloc(h, TASK_SIZE).0;
    ForkKeepsTheKernelHalf(sys1, roles1, sys', h', frame, junk);
  }

  // The structure of the first task comes from the first page.
  lemma FirstStructure()
    ensures Heaps.HeapOk(Heaps.Init()) && Heaps.Mappable(Heaps.Init(), 169)
    ensures var (h, r) := Heaps.AfterMalloc(Heaps.Init(), 169);
      && r == Some(0xffff_8100_0000_0000) && h.end == Heaps.Init().end && Heaps.HeapOk(h)
      && Heaps.Live(h, Heaps.START) == {Heaps.Block(0xffff_8100_0000_0018, 169)}
  {
    Heaps.InitOk();
    assert Heaps.Find(Heaps.Init(), Heaps.START, Heaps.Want(TASK_SIZE)) == Heaps.START;
    hide Heaps.Find, Heaps.HeapOk, Heaps.Live, Heaps.Split;
    Heaps.SplitOk(Heaps.Init(), Heaps.START, TASK_SIZE);
    Heaps.SplitHeaders(Heaps.Init(), Heaps.START, TASK_SIZE);
  }

  // The request of a task structure appends one page, if any.
  lemma OnePage(h: Heaps.Heap)
    requires Heaps.HeapOk(h) && (h.end <= Heaps.LIMIT || !Heaps.NothingSuits(h, Heaps.Want(TASK_SIZE)))
    ensures Heaps.Want(TASK_SIZE) == 193 && Heaps.Appended(193) == 0x1000
    ensures Heaps.Mappable(h, TASK_SIZE) && Fits(h, TASK_SIZE)
    ensures FIRST <= FIRST + PageCountOf(Heaps.AfterMalloc(h, TASK_SIZE).0) <= PAGES
  {
    hide Heaps.Find, Heaps.Appended, Heaps.Chain, Heaps.AfterMalloc, Heaps.NothingSuits;
    HeapAddresses(h);
    Heaps.AppendedIs(193);
    Heaps.SearchFails(h, 193);
    NewEnd(h, TASK_SIZE);
    var c := Heaps.Find(h, Heaps.START, 193);
    Heaps.ChainBounds(h, Heaps.START);
    assert h.hdrs[c].size == 0 ==> c + 24 == h.end by { assert Heaps.Tiles(h, c); }
  }

  lemma ForkKeepsTheKernelHalf(sys: System, roles: seq<Role>, sys': System, h: Heaps.Heap, frame: S.Frame, junk: Word)
    requires Inv(sys, roles) && !sys.halted && HeapMapped(sys.mach, h)
    requires Frames.Available(sys.mach.pmm) >= 1 + Tables(sys.mach.mem, sys.ring[0].vmap, 4)
    requires Step(sys, ForkCall(frame, junk)).Some? && sys' == Step(sys, ForkCall(frame, junk)).value.0
    requires FIRST <= FIRST + PageCountOf(h) <= PAGES
    ensures HeapMapped(sys'.mach, h)
    ensures Frames.Available(sys'.mach.pmm) ==
      Frames.Available(sys.mach.pmm) - (1 + Tables(sys.mach.mem, sys.ring[0].vmap, 4))
  {
    hide Get, Present, Coherent, Exclusive, Tables, ForkSpace, S.Insert, S.Child, ClearWritable, KernelData;
    var n, s1, roles1 := ForkEffect(sys.mach, roles, sys.ring[0].vmap);
    KernelIsRoot(sys.mach, roles);
  }
}
