/** How the kernel gets to its first task: the top-level setup of `paging_initialize`, and the
    address space that `task_create` (`kernel/src/task/task.c`) makes.  The invariant that all
    runs keep holds when the first task starts. */
module Boot {
  import opened Options
  import opened PageTables
  import opened PageTableCopy
  import opened CopyOnWrite
  import opened DirectMapping
  import opened FrameManagement
  import opened Forking
  import opened Systems
  import S = Scheduling
  import Frames

  // ----- paging_initialize

  // One turn of the loop over the upper half: a cleared table, linked for the kernel only.
  function AddKernelTable(s: Machine, k: nat, i: nat): Option<Machine>
    requires i < 512
  {
    var (c, s1) :- Alloc(s);
    if InMemory(s1.mem, k) && InMemory(s1.mem, c) then
      Some(s1.(mem := NewTable(s1.mem, k, i, c, 0x1000 * c + 1)))
    else None
  }

  function AddKernelTables(s: Machine, k: nat, i: nat): Option<Machine>
    requires i <= 512
    decreases 512 - i
  {
    if i == 512 then Some(s)
    else
      var s1 :- AddKernelTable(s, k, i);
      AddKernelTables(s1, k, i + 1)
  }

  // The 1 GiB pages of a direct map, n of them from slot `first` on.
  function HugePages(m: seq<nat>, t: nat, first: nat, n: nat): (m': seq<nat>)
    requires InMemory(m, t) && first + n <= 512
    ensures |m'| == |m|
    ensures forall g: nat, j: nat :: j < 512 ==>
      Rd(m', g, j) == if g == t && first <= j < first + n then 0x4000_0000 * (j - first) + 0x83 else Rd(m, g, j)
  {
    if n == 0 then m else Put(HugePages(m, t, first, n - 1), t, first + n - 1, 0x4000_0000 * (n - 1) + 0x83)
  }

  // 4 GiB from VADDR_HIGHER and 2 GiB from VADDR_KERNEL
  function DirectMaps(m: seq<nat>, k: nat): Option<seq<nat>> {
    if InMemory(m, k) && InMemory(m, Fr(Rd(m, k, 256))) then
      var m1 := HugePages(m, Fr(Rd(m, k, 256)), 0, 4);
      if InMemory(m1, Fr(Rd(m1, k, 511))) then Some(HugePages(m1, Fr(Rd(m1, k, 511)), 510, 2)) else None
    else None
  }

  // The kernel's top-level table with its upper half, and the direct maps of 1 GiB pages.
  function LowTables(s: Machine): Option<Machine> {
    var (k, s1) :- Alloc(s);
    var s2 :- AddKernelTables(s1.(mem := PutFrame(s1.mem, k, Zeros()), kernel := k), k, 256);
    var m :- DirectMaps(s2.mem, k);
    Some(s2.(mem := m))
  }

  /** paging_initialize */
  function InitializeTables(s: Machine, mmap: seq<Region>): Option<Machine> {
    var s1 :- LowTables(s);
    var s2 :- MapMemory(s1, s1.kernel, mmap);
    var s3 :- UnmapAt(s2, s1.kernel, 4, 0);
    Some(s3.(cr3 := s1.kernel, tlb := map[]))
  }

  // The frames that it takes: 257, and the tables for memory above 4 GiB.
  function InitialCost(s: Machine, mmap: seq<Region>): nat {
    257 + match LowTables(s) case None => 0 case Some(s1) => MemoryCost(s1, s1.kernel, mmap)
  }

  // The layout while the upper half is being filled: slots from i on are still empty.
  ghost predicate Filling(m: seq<nat>, roles: seq<Role>, k: nat, i: nat) {
    && |m| == 512 * |roles| && |roles| <= LOWER
    && (forall r: nat :: IsRoot(roles, r) <==> r == k)
    && (forall f :: 0 <= f < |roles| ==> NodeOk(roles, f))
    && (forall f, j: nat :: 0 <= f < |roles| && roles[f].Node? && j < 512 ==> SlotOk(m, roles, f, j))
    && (forall j :: 256 <= j < i ==> UpperOk(m, k, k, j))
    && (forall j: nat :: j < 256 || i <= j < 512 ==> Rd(m, k, j) == 0)
    && (forall f :: 0 <= f < |roles| && roles[f].Node? && roles[f].level == 3 ==> ZeroFrame(m, f))
    && (forall j :: 256 <= j < i ==> Rd(m, k, j) % 0x1000 == 1)
  }

  lemma AddKernelTableEffect(s: Machine, roles: seq<Role>, k: nat, i: nat)
    returns (s': Machine, roles': seq<Role>)
    requires Filling(s.mem, roles, k, i) && FreeOk(s, roles) && 256 <= i < 512
    requires Frames.Available(s.pmm) > 0
    ensures AddKernelTable(s, k, i) == Some(s') && Filling(s'.mem, roles', k, i + 1) && FreeOk(s', roles')
    ensures Frames.Available(s'.pmm) == Frames.Available(s.pmm) - 1 && s'.kernel == s.kernel
  {
    Frames.RequestOneEffect(s.pmm);
    assert IsRoot(roles, k);
    var c := Alloc(s).value.0;
    s' := AddKernelTable(s, k, i).value;
    roles' := roles[c := Node(Shared, 3, i)];
    EntryBits(c, 1);
    FillingStep(s.mem, s'.mem, roles, k, i, c);
    forall g | 0 <= g < |roles'| && Frames.Free(s'.pmm, g)
      ensures roles'[g].Unused? && (s'.pmm.lastFree <= g ==> ZeroFrame(s'.mem, g))
    {
      assert Frames.Free(s.pmm, g) && (s.pmm.lastFree <= g ==> ZeroFrame(s.mem, g));
    }
  }

  lemma FillingStep(m: seq<nat>, m': seq<nat>, roles: seq<Role>, k: nat, i: nat, c: nat)
    requires Filling(m, roles, k, i) && 256 <= i < 512 && c < |roles| && roles[c].Unused?
    requires InMemory(m, k) && InMemory(m, c) && m' == NewTable(m, k, i, c, 0x1000 * c + 1)
    requires var x := 0x1000 * c + 1; Fr(x) == c && Present(x) && !Huge(x) && !UserBit(x)
    ensures Filling(m', roles[c := Node(Shared, 3, i)], k, i + 1)
  {
    hide Present, Writable, UserBit, Huge, Fr;
    var roles' := roles[c := Node(Shared, 3, i)];
    assert NodeOk(roles, k) && IsRoot(roles, k);
    ZeroAbsent();
    assert forall r: nat :: IsRoot(roles', r) ==> IsRoot(roles, r);
    forall g | 0 <= g < |roles'|
      ensures NodeOk(roles', g)
    {
      assert NodeOk(roles, g);
    }
    forall g, j: nat | 0 <= g < |roles'| && roles'[g].Node? && j < 512
      ensures SlotOk(m', roles', g, j)
    {
      assert g != c ==> SlotOk(m, roles, g, j);
    }
    forall j | 256 <= j < i + 1
      ensures UpperOk(m', k, k, j)
    {
      assert j < i ==> UpperOk(m, k, k, j);
    }
    forall f | 0 <= f < |roles'| && roles'[f].Node? && roles'[f].level == 3
      ensures ZeroFrame(m', f)
    {
      assert f != c ==> ZeroFrame(m, f);
    }
  }

  lemma {:induction false} AddKernelTablesEffect(s: Machine, roles: seq<Role>, k: nat, i: nat)
    returns (s': Machine, roles': seq<Role>)
    requires Filling(s.mem, roles, k, i) && FreeOk(s, roles) && 256 <= i <= 512
    requires Frames.Available(s.pmm) >= 512 - i
    ensures AddKernelTables(s, k, i) == Some(s') && Filling(s'.mem, roles', k, 512) && FreeOk(s', roles')
    ensures Frames.Available(s'.pmm) == Frames.Available(s.pmm) - (512 - i) && s'.kernel == s.kernel
    decreases 512 - i
  {
    hide Filling, FreeOk, AddKernelTable;
    if i == 512 {
      s', roles' := s, roles;
    } else {
      var s1, roles1 := AddKernelTableEffect(s, roles, k, i);
      s', roles' := AddKernelTablesEffect(s1, roles1, k, i + 1);
    }
  }

  lemma FilledIsLayout(m: seq<nat>, roles: seq<Role>, k: nat)
    requires Filling(m, roles, k, 512)
    ensures Layout(m, roles, k) && IsRoot(roles, k)
    ensures var e := Rd(m, k, 256); DirectMapAt(roles, Fr(e))
    ensures var e := Rd(m, k, 511); DirectMapAt(roles, Fr(e))
  {
    hide Present, Writable, UserBit, Huge, Fr;
    assert IsRoot(roles, k) && NodeOk(roles, k);
    forall i: nat | i == 256 || i == 511
      ensures DirectMapAt(roles, Fr(Rd(m, k, i)))
    {
      assert UpperOk(m, k, k, i) && SlotOk(m, roles, k, i);
    }
  }

  predicate DirectMapAt(roles: seq<Role>, t: nat) {
    t < |roles| && DirectMap(roles[t])
  }

  lemma {:induction false} HugePagesKeepLayout(m: seq<nat>, roles: seq<Role>, kernel: nat, t: nat, first: nat, n: nat)
    requires Layout(m, roles, kernel) && DirectMapAt(roles, t) && first + n <= 512
    ensures Layout(HugePages(m, t, first, n), roles, kernel)
  {
    hide Writable, UserBit;
    var m' := HugePages(m, t, first, n);
    forall f, j: nat | 0 <= f < |roles| && roles[f].Node? && j < 512
      ensures SlotOk(m', roles, f, j)
    {
      assert SlotOk(m, roles, f, j);
      if f == t && first <= j < first + n {
        HugeEntry(j - first);
      }
    }
    forall q, j | IsRoot(roles, q) && 256 <= j < 512
      ensures UpperOk(m', kernel, q, j)
    {
      assert UpperOk(m, kernel, q, j);
    }
  }

  ghost predicate LowerHalfEmpty(m: seq<nat>, r: nat) {
    forall w: nat :: w < LOWER ==> Get(m, r, 4, w) == 0
  }

  // ----- the direct map below 4 GiB

  lemma KernelIndices(w: nat)
    requires 0x8_0000_0000 <= w < 0x10_0000_0000
    ensures Idx(w, 4) == w / 0x800_0000 && 256 <= w / 0x800_0000 < 512 && Idx(w, 3) == w / 0x4_0000 % 512
  {
    assert Shift(w, 1) == w / 512;
    assert Shift(w, 2) == w / 512 / 512;
    assert Shift(w, 3) == w / 512 / 512 / 512;
    hide Shift;
    PageQuotients(w);
  }

  lemma PageQuotients(w: nat)
    ensures w / 512 / 512 == w / 0x4_0000 && w / 512 / 512 / 512 == w / 0x800_0000
  {
  }

  // Slot j of the table behind the top-level entry i.
  function SetUpWord(i: nat, j: nat): nat {
    if i == 256 && j < 4 then 0x4000_0000 * j + 0x83
    else if i == 511 && 510 <= j then 0x4000_0000 * (j - 510) + 0x83
    else 0
  }

  // The tables of the upper half before memory above 4 GiB is mapped.
  ghost predicate LowMapped(m: seq<nat>, k: nat) {
    forall i: nat :: 256 <= i < 512 ==> UpperTable(m, k, i)
  }

  ghost predicate UpperTable(m: seq<nat>, k: nat, i: nat) {
    var e := Rd(m, k, i);
    && Present(e) && !Huge(e) && e % 0x1000 == 1
    && forall j: nat :: j < 512 ==> Rd(m, Fr(e), j) == SetUpWord(i, j)
  }

  lemma LowPages(m: seq<nat>, k: nat, w: nat)
    requires LowMapped(m, k) && 0x8_0000_0000 <= w < 0x10_0000_0000
    ensures Get(m, k, 4, w) == KernelEntry([], w)
  {
    hide Present, Huge, Fr, Idx;
    var i, j := w / 0x800_0000, w / 0x4_0000 % 512;
    KernelIndices(w);
    assert UpperTable(m, k, i);
    ZeroAbsent();
    SetUpEntry(w);
    HugeEntry(j);
    HugeEntry(if j >= 510 then j - 510 else 0);
    if SetUpWord(i, j) == 0 {
      UnfoldAbsent(m, k, w);
    } else {
      UnfoldHuge(m, k, w);
    }
  }

  lemma SetUpEntry(w: nat)
    requires 0x8_0000_0000 <= w < 0x10_0000_0000
    ensures SetUpWord(w / 0x800_0000, w / 0x4_0000 % 512) == KernelEntry([], w)
  {
    hide Listed;
    assert !Listed([], w - 0x8_0000_0000) by { NothingListed(w - 0x8_0000_0000); }
    var q := w / 0x4_0000;
    assert w / 0x800_0000 == q / 512;
    assert q == 512 * (q / 512) + q % 512;
  }

  lemma NothingListed(p: nat)
    ensures !Listed([], p)
  {
  }

  lemma UnfoldHuge(m: seq<nat>, k: nat, w: nat)
    requires var e := Rd(m, k, Idx(w, 4)); Present(e) && !Huge(e)
    requires var x := Rd(m, Fr(Rd(m, k, Idx(w, 4))), Idx(w, 3)); Present(x) && Huge(x)
    ensures Get(m, k, 4, w) == Rd(m, Fr(Rd(m, k, Idx(w, 4))), Idx(w, 3))
  {
    hide Present, Huge, Fr, Idx;
  }

  lemma UnfoldAbsent(m: seq<nat>, k: nat, w: nat)
    requires var e := Rd(m, k, Idx(w, 4)); Present(e) && !Huge(e)
    requires !Present(Rd(m, Fr(Rd(m, k, Idx(w, 4))), Idx(w, 3)))
    ensures Get(m, k, 4, w) == 0
  {
    hide Present, Huge, Fr, Idx;
  }

  // The tables of the upper half are cleared and distinct.
  lemma FilledTables(m: seq<nat>, roles: seq<Role>, k: nat, i: nat)
    requires Filling(m, roles, k, 512) && 256 <= i < 512
    ensures var e := Rd(m, k, i);
      && Present(e) && !Huge(e) && e % 0x1000 == 1 && ZeroFrame(m, Fr(e))
      && Fr(e) < |roles| && roles[Fr(e)] == Node(Shared, 3, i) && Fr(e) != k
  {
    hide Present, Writable, UserBit, Huge, Fr;
    assert IsRoot(roles, k) && NodeOk(roles, k);
    assert UpperOk(m, k, k, i) && SlotOk(m, roles, k, i);
  }

  lemma DirectMapsEffect(m: seq<nat>, roles: seq<Role>, k: nat)
    requires Filling(m, roles, k, 512)
    ensures DirectMaps(m, k).Some?
    ensures var m' := DirectMaps(m, k).value;
      && Layout(m', roles, k) && LowMapped(m', k) && SameFrame(m, m', k)
      && forall g: nat :: g < |roles| && roles[g].Unused? ==> SameFrame(m, m', g)
  {
    hide Present, Writable, UserBit, Huge, Fr, HugePages, Filling;
    FilledIsLayout(m, roles, k);
    FilledTables(m, roles, k, 256);
    FilledTables(m, roles, k, 511);
    var low, high := Fr(Rd(m, k, 256)), Fr(Rd(m, k, 511));
    HugePagesKeepLayout(m, roles, k, low, 0, 4);
    HugePagesKeepLayout(HugePages(m, low, 0, 4), roles, k, high, 510, 2);
    var m' := DirectMaps(m, k).value;
    forall i: nat | 256 <= i < 512
      ensures UpperTable(m', k, i)
    {
      FilledTables(m, roles, k, i);
    }
  }

  // The first half of the setup.
  lemma LowTablesEffect(s: Machine, frameCount: nat)
    returns (s': Machine, roles': seq<Role>)
    requires |s.mem| == 512 * frameCount && frameCount <= LOWER && FreeOk(s, seq(frameCount, i => Unused))
    requires Frames.Available(s.pmm) >= 257
    ensures LowTables(s) == Some(s') && Ok(s', roles')
    ensures forall r: nat :: IsRoot(roles', r) <==> r == s'.kernel
    ensures LowMapped(s'.mem, s'.kernel) && forall j: nat :: j < 256 ==> Rd(s'.mem, s'.kernel, j) == 0
    ensures Frames.Available(s'.pmm) == Frames.Available(s.pmm) - 257
  {
    hide AddKernelTables, Present, Writable, UserBit, Huge, Fr, DirectMaps, Layout, LowMapped, Frames.Valid;
    Frames.RequestOneEffect(s.pmm);
    var k := Alloc(s).value.0;
    var s1 := Alloc(s).value.1;
    s1 := s1.(mem := PutFrame(s1.mem, k, Zeros()), kernel := k);
    var roles := seq(frameCount, i => Unused);
    EmptyTable(s, s1, roles, k);
    var s2;
    s2, roles' := AddKernelTablesEffect(s1, roles[k := Node(User(k), 4, 0)], k, 256);
    DirectMapsEffect(s2.mem, roles', k);
    s' := s2.(mem := DirectMaps(s2.mem, k).value);
    forall g | 0 <= g < |roles'| && Frames.Free(s'.pmm, g)
      ensures roles'[g].Unused? && (s'.pmm.lastFree <= g ==> ZeroFrame(s'.mem, g))
    {
      assert SameFrame(s2.mem, s'.mem, g) && (s2.pmm.lastFree <= g ==> ZeroFrame(s2.mem, g));
    }
  }

  /** From memory in which nothing is in use, initialization makes a well-formed kernel table with all of
      the upper half present and the lower half empty, at exact cost; and every page of the kernel half has
      exactly the entry that `KernelEntry` says. */
  lemma InitializeTablesEffect(s: Machine, frameCount: nat, mmap: seq<Region>)
    returns (s': Machine, roles': seq<Role>)
    requires |s.mem| == 512 * frameCount && frameCount <= LOWER && FreeOk(s, seq(frameCount, i => Unused))
    requires ExtentsOk(mmap) && Frames.Available(s.pmm) >= InitialCost(s, mmap)
    ensures InitializeTables(s, mmap) == Some(s') && Ok(s', roles') && LowerHalfEmpty(s'.mem, s'.kernel)
    ensures forall r: nat :: IsRoot(roles', r) <==> r == s'.kernel
    ensures s'.cr3 == s'.kernel && s'.tlb == map[] && Tables(s'.mem, s'.kernel, 4) == 0
    ensures Frames.Available(s'.pmm) == Frames.Available(s.pmm) - InitialCost(s, mmap)
    ensures mmap == [] ==> Frames.Available(s'.pmm) == Frames.Available(s.pmm) - 257
    ensures KernelHalfIs(s'.mem, s'.kernel, mmap, {})
    ensures forall j: nat :: j < 256 ==> Rd(s'.mem, s'.kernel, j) == 0
    ensures forall i: nat :: 256 <= i < 512 ==> Rd(s'.mem, s'.kernel, i) % 0x1000 == 1
  {
    hide Get, Present, Writable, UserBit, Huge, Fr, Layout, LowTables, LowMapped, MapMemory, UnmapAt, Listed;
    var s1, roles1 := LowTablesEffect(s, frameCount);
    var k := s1.kernel;
    LowIsClear(s1.mem, k);
    var s2;
    s2, roles' := MapMemoryEffect(s1, roles1, k, mmap);
    s' := s2.(cr3 := k, tlb := map[]);
    assert Rd(s2.mem, k, Idx(0, 4)) == 0 by { ShiftBounds(0); }
    TableInMemory(s2, roles', k);
    NothingToUnmap(s2, k);
    forall w: nat | w < LOWER
      ensures Get(s'.mem, k, 4, w) == 0
    {
      AbsentAtTop(s'.mem, k, w);
    }
    NoTables(s'.mem, k, 0);
    forall w: nat | 0x8_0000_0000 <= w < 0x10_0000_0000
      ensures Get(s'.mem, k, 4, w) == KernelEntry(mmap, w)
    {
      LowPages(s1.mem, k, w);
      NothingListed(w - 0x8_0000_0000);
    }
    LowLinks(s1.mem, k);
  }

  lemma LowLinks(m: seq<nat>, k: nat)
    requires LowMapped(m, k)
    ensures forall i: nat :: 256 <= i < 512 ==> Rd(m, k, i) % 0x1000 == 1
  {
    hide Present, Huge, Fr;
    forall i: nat | 256 <= i < 512
      ensures Rd(m, k, i) % 0x1000 == 1
    {
      assert UpperTable(m, k, i);
    }
  }

  lemma LowIsClear(m: seq<nat>, k: nat)
    requires LowMapped(m, k)
    ensures HighClear(m, k)
  {
    hide Get, LowMapped, Listed;
    ZeroAbsent();
    forall w: nat | LOWER + FOUR_GIB <= w < LOWER + ONE_TIB
      ensures !Huge(Get(m, k, 4, w))
    {
      LowPages(m, k, w);
      NothingListed(w - 0x8_0000_0000);
    }
  }

  lemma {:induction false} NoTables(m: seq<nat>, t: nat, i: nat)
    requires i <= 256 && forall j: nat :: j < 256 ==> Rd(m, t, j) == 0
    ensures TablesFrom(m, t, 4, i) == 0
    decreases 256 - i
  {
    if i < 256 {
      ZeroAbsent();
      NoTables(m, t, i + 1);
    }
  }

  // Unmapping page 0 finds no table.
  lemma NothingToUnmap(s: Machine, k: nat)
    requires InMemory(s.mem, k) && Rd(s.mem, k, Idx(0, 4)) == 0
    ensures UnmapAt(s, k, 4, 0) == Some(s)
  {
    ZeroAbsent();
  }

  lemma AbsentAtTop(m: seq<nat>, k: nat, w: nat)
    requires w < LOWER && forall j: nat :: j < 256 ==> Rd(m, k, j) == 0
    ensures Get(m, k, 4, w) == 0
  {
    ShiftBounds(w);
  }

  lemma EmptyTable(s: Machine, s1: Machine, roles: seq<Role>, k: nat)
    requires |s.mem| == 512 * |roles| && |roles| <= LOWER && k < |roles|
    requires forall f :: 0 <= f < |roles| ==> roles[f] == Unused
    requires FreeOk(s, roles) && Frames.Free(s.pmm, k) && !Frames.Free(s1.pmm, k)
    requires Frames.Valid(s1.pmm) && Frames.Total(s1.pmm) == |roles| && s.pmm.lastFree <= s1.pmm.lastFree
    requires forall f: nat :: Frames.Free(s1.pmm, f) ==> Frames.Free(s.pmm, f)
    requires InMemory(s.mem, k) && s1.mem == PutFrame(s.mem, k, Zeros())
    ensures var roles' := roles[k := Node(User(k), 4, 0)];
      Filling(s1.mem, roles', k, 256) && FreeOk(s1, roles')
  {
    hide Writable, UserBit, Huge, Fr;
    var roles' := roles[k := Node(User(k), 4, 0)];
    ZeroAbsent();
    assert forall r: nat :: IsRoot(roles', r) ==> r == k;
    assert IsRoot(roles', k);
    forall g | 0 <= g < |roles'| && Frames.Free(s1.pmm, g)
      ensures roles'[g].Unused? && (s1.pmm.lastFree <= g ==> ZeroFrame(s1.mem, g))
    {
      assert s.pmm.lastFree <= g ==> ZeroFrame(s.mem, g);
    }
    forall f, j: nat | 0 <= f < |roles'| && roles'[f].Node? && j < 512
      ensures SlotOk(s1.mem, roles', f, j)
    {
      assert Rd(s1.mem, k, j) == 0;
    }
  }

  // ----- mapping pages for a task

  ghost predicate MemoryOk(s: Machine, roles: seq<Role>) {
    Ok(s, roles) && Coherent(s) && Exclusive(s.mem, roles) && IsRoot(roles, s.cr3)
  }

  ghost predicate SameRoots(roles: seq<Role>, roles': seq<Role>) {
    forall q: nat :: IsRoot(roles', q) <==> IsRoot(roles, q)
  }

  // An entry of a page that the user may read and write: no flag but these and the present bit.
  predicate UserData(e: nat) {
    e % 0x1000 == 7
  }

  // Page v is mapped afterwards; a page already present stays as it is, a new one has the flags given,
  // and the present bit, and reads as zero; no other page of any address space changes.
  ghost predicate PageAdded(s: Machine, s': Machine, roles: seq<Role>, r: nat, v: nat, flags: nat) {
    var e, e' := Get(s.mem, r, 4, v), Get(s'.mem, r, 4, v);
    && Present(e')
    && (if Present(e) then e' == e
        else e' % 0x1000 == (if flags % 2 == 1 then flags else flags + 1) && ZeroFrame(s'.mem, Fr(e')))
    && OthersKept(s.mem, s'.mem, roles, r, v)
  }

  // The frames that vmm_request_at takes for one page: none if the page is mapped, otherwise one
  // and the missing tables.
  function PageCost(s: Machine, r: nat, v: nat): (n: nat)
    ensures n <= 4
  {
    if Present(Get(s.mem, r, 4, v)) then 0 else 1 + Missing(s.mem, r, 4, v)
  }

  lemma RequestPageKeepsMemory(s: Machine, roles: seq<Role>, r: nat, v: nat, flags: nat)
    returns (s': Machine, roles': seq<Role>)
    requires MemoryOk(s, roles) && IsRoot(roles, r) && v < LOWER && flags < 0x100 && UserBit(flags) && Writable(flags)
    requires Frames.Available(s.pmm) >= PageCost(s, r, v)
    ensures RequestPage(s, r, v, flags) == Some(s') && MemoryOk(s', roles')
    ensures SameRoots(roles, roles') && PageAdded(s, s', roles, r, v, flags)
    ensures s'.cr3 == s.cr3 && s'.kernel == s.kernel
    ensures Frames.Available(s'.pmm) ==
            Frames.Available(s.pmm) - if Present(Get(s.mem, r, 4, v)) then 0 else 1 + Missing(s.mem, r, 4, v)
  {
    hide Get, Present, Writable, UserBit, Huge, Fr, Missing, MapAt, AloneOn, NoHuge;
    WalkIsClear(s.mem, roles, s.kernel, r, v);
    RootWalkable(s.mem, roles, s.kernel, r, v);
    if Present(Get(s.mem, r, 4, v)) {
      s', roles' := s, roles;
    } else {
      var f;
      f, s', roles' := RequestPageEffect(s, roles, r, v, flags);
      LeafFlags(f, flags);
      NewPageIsExclusive(s, s', roles, roles', r, v, flags, f);
    }
  }

  lemma NewPageIsExclusive(s: Machine, s': Machine, roles: seq<Role>, roles': seq<Role>,
                           r: nat, v: nat, flags: nat, f: nat)
    requires Ok(s, roles) && Exclusive(s.mem, roles) && IsRoot(roles, r) && v < LOWER && flags < 0x100
    requires Requested(s, s', roles, roles', r, v, flags, f)
    ensures Exclusive(s'.mem, roles')
  {
    hide Get, Present, Writable, UserBit, Huge, Fr, Layout, FreeOk;
    forall q: nat, w: nat, q': nat, w': nat
      | IsRoot(roles', q) && IsRoot(roles', q') && w < LOWER && w' < LOWER
      ensures AloneOn(s'.mem, q, w, q', w')
    {
      assert IsRoot(roles, q) && IsRoot(roles, q');
      assert AloneOn(s.mem, q, w, q', w');
      MappedIsData(s.mem, roles, s.kernel, q, w);
      MappedIsData(s.mem, roles, s.kernel, q', w');
    }
  }

  // The frames that vmm_request_at takes for a range; tables created for one page serve the next.
  function RangeCost(s: Machine, r: nat, v: nat, n: nat, flags: nat): (cost: nat)
    requires flags < 0x100
    ensures cost <= 4 * n
    decreases n
  {
    if n == 0 then 0
    else
      PageCost(s, r, v) +
      (match RequestPage(s, r, v, flags) case None => 0 case Some(s1) => RangeCost(s1, r, v + 1, n - 1, flags))
  }

  // vmm_request_at: afterwards every page of the range is mapped, and pages outside it, and
  // pages of it that were mapped before, have their old entries.
  lemma {:induction false} RequestRangeEffect(s: Machine, roles: seq<Role>, r: nat, v: nat, n: nat, flags: nat)
    returns (s': Machine, roles': seq<Role>)
    requires MemoryOk(s, roles) && IsRoot(roles, r) && v + n <= LOWER
    requires flags < 0x100 && UserBit(flags) && Writable(flags)
    requires Frames.Available(s.pmm) >= RangeCost(s, r, v, n, flags)
    ensures RequestRange(s, r, v, n, flags) == Some(s') && MemoryOk(s', roles')
    ensures SameRoots(roles, roles') && s'.cr3 == s.cr3 && s'.kernel == s.kernel
    ensures Frames.Available(s'.pmm) == Frames.Available(s.pmm) - RangeCost(s, r, v, n, flags)
    ensures forall w: nat :: v <= w < v + n ==>
      && Present(Get(s'.mem, r, 4, w))
      && (!Present(Get(s.mem, r, 4, w)) ==>
          Get(s'.mem, r, 4, w) % 0x1000 == if flags % 2 == 1 then flags else flags + 1)
    ensures forall q: nat, w: nat ::
      IsRoot(roles, q) && w < PAGES && (q != r || w < v || v + n <= w || Present(Get(s.mem, q, 4, w))) ==>
      Get(s'.mem, q, 4, w) == Get(s.mem, q, 4, w)
    decreases n
  {
    hide Get, Present, UserBit, MemoryOk, RequestPage, ZeroFrame;
    if n == 0 {
      s', roles' := s, roles;
    } else {
      var s1, roles1 := RequestPageKeepsMemory(s, roles, r, v, flags);
      s', roles' := RequestRangeEffect(s1, roles1, r, v + 1, n - 1, flags);
    }
  }

  // ----- task_create

  // The pages of one loadable segment.
  datatype Segment = Segment(page: nat, count: nat)

  const USER_FLAGS: nat := 6          // PAGING_USER | PAGING_WRITABLE
  const STACK_PAGE: nat := 0x7_ffff_ffff   // of the initial stack pointer 0x7ffffffffff0

  function MapSegments(s: Machine, r: nat, segments: seq<Segment>): Option<Machine>
    decreases |segments|
  {
    if segments == [] then Some(s)
    else
      var s1 :- RequestRange(s, r, segments[0].page, segments[0].count, USER_FLAGS);
      MapSegments(s1, r, segments[1..])
  }

  // The address space of a new task, which is active while it is filled.
  function CreateTaskSpace(s: Machine, parent: nat, segments: seq<Segment>): Option<(nat, Machine)> {
    var (n, s1) :- CopySpace(s, parent);
    var s2 :- MapSegments(s1.(cr3 := n, tlb := map[]), n, segments);
    var s3 :- RequestRange(s2, n, STACK_PAGE, 1, USER_FLAGS);
    Some((n, s3))
  }

  // The pages of all segments.
  function PageCount(segments: seq<Segment>): nat {
    if segments == [] then 0 else segments[0].count + PageCount(segments[1..])
  }

  function SegmentCost(s: Machine, r: nat, segments: seq<Segment>): (cost: nat)
    ensures cost <= 4 * PageCount(segments)
    decreases |segments|
  {
    if segments == [] then 0
    else
      RangeCost(s, r, segments[0].page, segments[0].count, USER_FLAGS) +
      (match RequestRange(s, r, segments[0].page, segments[0].count, USER_FLAGS)
       case None => 0
       case Some(s1) => SegmentCost(s1, r, segments[1..]))
  }

  /** The frames that task_create takes. */
  function TaskCost(s: Machine, parent: nat, segments: seq<Segment>): (cost: nat)
    ensures cost <= 1 + Tables(s.mem, parent, 4) + 4 * PageCount(segments) + 4
  {
    1 + Tables(s.mem, parent, 4) +
    match CopySpace(s, parent)
    case None => 0
    case Some((n, s1)) =>
      var s2 := s1.(cr3 := n, tlb := map[]);
      SegmentCost(s2, n, segments) +
      match MapSegments(s2, n, segments) case None => 0 case Some(s3) => RangeCost(s3, n, STACK_PAGE, 1, USER_FLAGS)
  }

  ghost predicate SegmentsOk(segments: seq<Segment>) {
    forall i :: 0 <= i < |segments| ==> segments[i].page + segments[i].count <= LOWER
  }

  ghost predicate Covers(segments: seq<Segment>, w: nat) {
    exists i :: 0 <= i < |segments| && segments[i].page <= w < segments[i].page + segments[i].count
  }

  lemma {:induction false} MapSegmentsEffect(s: Machine, roles: seq<Role>, r: nat, segments: seq<Segment>)
    returns (s': Machine, roles': seq<Role>)
    requires MemoryOk(s, roles) && IsRoot(roles, r) && SegmentsOk(segments)
    requires Frames.Available(s.pmm) >= SegmentCost(s, r, segments)
    ensures MapSegments(s, r, segments) == Some(s') && MemoryOk(s', roles')
    ensures SameRoots(roles, roles') && s'.cr3 == s.cr3 && s'.kernel == s.kernel
    ensures Frames.Available(s'.pmm) == Frames.Available(s.pmm) - SegmentCost(s, r, segments)
    ensures forall w: nat :: w < LOWER ==>
      && (Present(Get(s'.mem, r, 4, w)) <==> Present(Get(s.mem, r, 4, w)) || Covers(segments, w))
      && (!Present(Get(s.mem, r, 4, w)) && Covers(segments, w) ==> UserData(Get(s'.mem, r, 4, w)))
      && (Present(Get(s.mem, r, 4, w)) ==> Get(s'.mem, r, 4, w) == Get(s.mem, r, 4, w))
    ensures forall q: nat, w: nat :: IsRoot(roles, q) && LOWER <= w < PAGES ==>
      Get(s'.mem, q, 4, w) == Get(s.mem, q, 4, w)
    decreases |segments|
  {
    hide Get, Present, MemoryOk, RequestRange, RangeCost;
    if segments == [] {
      s', roles' := s, roles;
    } else {
      UserFlags();
      var first := segments[0];
      assert first.page + first.count <= LOWER;
      var s1, roles1 := RequestRangeEffect(s, roles, r, first.page, first.count, USER_FLAGS);
      assert SegmentsOk(segments[1..]);
      s', roles' := MapSegmentsEffect(s1, roles1, r, segments[1..]);
      forall w: nat | w < LOWER && Covers(segments, w) && !(first.page <= w < first.page + first.count)
        ensures Covers(segments[1..], w)
      {
        var i :| 0 <= i < |segments| && segments[i].page <= w < segments[i].page + segments[i].count;
        assert segments[1..][i - 1] == segments[i];
      }
    }
  }

  lemma UserFlags()
    ensures USER_FLAGS < 0x100 && UserBit(USER_FLAGS) && Writable(USER_FLAGS)
  {
  }

  ghost predicate SameKernelHalf(m: seq<nat>, m': seq<nat>, k: nat) {
    forall w: nat :: 0x8_0000_0000 <= w < 0x10_0000_0000 ==> Get(m', k, 4, w) == Get(m, k, 4, w)
  }

  // After initialization, the first task starts in a state that satisfies the invariant of all
  // runs, with the pages of its segments and its stack mapped.
  lemma FirstTaskStarts(s: Machine, roles: seq<Role>, segments: seq<Segment>, task: S.Task<nat>, tid: nat)
    returns (n: nat, s': Machine, roles': seq<Role>)
    requires Ok(s, roles) && LowerHalfEmpty(s.mem, s.kernel)
    requires forall r: nat :: IsRoot(roles, r) <==> r == s.kernel
    requires SegmentsOk(segments)
    requires Frames.Available(s.pmm) >= TaskCost(s, s.kernel, segments)
    ensures CreateTaskSpace(s, s.kernel, segments) == Some((n, s'))
    ensures Inv(System(s', [task.(vmap := n)], tid, false), roles')
    ensures Frames.Available(s'.pmm) == Frames.Available(s.pmm) - TaskCost(s, s.kernel, segments)
    ensures forall w: nat :: w < LOWER ==>
      if Covers(segments, w) || w == 0x7_ffff_ffff then UserData(Get(s'.mem, n, 4, w))
      else !Present(Get(s'.mem, n, 4, w))
    ensures s'.kernel == s.kernel && SameKernelHalf(s.mem, s'.mem, s.kernel)
  {
    hide Get, Present, CopySpace, MapSegments, RequestRange, Tables, SegmentCost, RangeCost, AloneOn;
    UserFlags();
    ZeroAbsent();
    var s1, roles1;
    n, s1, roles1 := CopySpaceEffect(s, roles, s.kernel);
    var s2 := s1.(cr3 := n, tlb := map[]);
    forall q: nat, w: nat, q': nat, w': nat
      | IsRoot(roles1, q) && IsRoot(roles1, q') && w < LOWER && w' < LOWER
      ensures AloneOn(s2.mem, q, w, q', w')
    {
      NothingMapped(s.mem, s2.mem, s.kernel, n, q, w);
      NoneAlone(s2.mem, q, w, q', w');
    }
    var s3, roles3 := MapSegmentsEffect(s2, roles1, n, segments);
    s', roles' := RequestRangeEffect(s3, roles3, n, STACK_PAGE, 1, USER_FLAGS);
  }

  lemma NothingMapped(m: seq<nat>, m': seq<nat>, k: nat, n: nat, q: nat, w: nat)
    requires LowerHalfEmpty(m, k) && (q == k || q == n) && w < LOWER
    requires Get(m', k, 4, w) == Get(m, k, 4, w) && Get(m', n, 4, w) == Get(m, k, 4, w)
    ensures !Present(Get(m', q, 4, w))
  {
    hide Get;
  }

  lemma NoneAlone(m: seq<nat>, q: nat, w: nat, q': nat, w': nat)
    requires !Present(Get(m, q, 4, w))
    ensures AloneOn(m, q, w, q', w')
  {
  }

  // The pages that task_create maps for a segment cover exactly its bytes: the page count is the
  // size, from the start of the first page, rounded up.
  lemma SegmentPages(vaddr: nat, memsz: nat, a: nat)
    requires vaddr <= a < vaddr + memsz
    ensures var count := (memsz + vaddr % 0x1000 + 0xfff) / 0x1000;
      && vaddr / 0x1000 <= a / 0x1000 < vaddr / 0x1000 + count
      && (vaddr / 0x1000 + count - 1) * 0x1000 < vaddr + memsz
  {
    var first, offset := vaddr / 0x1000, vaddr % 0x1000;
    assert vaddr == 0x1000 * first + offset;
  }
}
