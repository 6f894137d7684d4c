/** The direct map of physical memory: `paging_initialize` maps the first 4 GiB with 1 GiB pages and
    the rest of the memory map with 4 KiB pages, each frame at VADDR_HIGHER plus its address. */
module DirectMapping {
  import opened Options
  import opened PageTables
  import opened CopyOnWrite
  import opened FrameManagement
  import Frames

  const FOUR_GIB: nat := 0x10_0000      // in pages
  const ONE_TIB: nat := 0x1000_0000     // in pages; the kernel heap begins there

  // The loop over one entry of the memory map, from page p on.
  function MapExtent(s: Machine, k: nat, p: nat, end: nat): Option<Machine>
    decreases end - p
  {
    if p >= end then Some(s)
    else if p < FOUR_GIB then MapExtent(s, k, p + 1, end)
    else
      var s1 :- MapAt(s, k, 4, LOWER + p, LeafEntry(p, 2));
      MapExtent(s1, k, p + 1, end)
  }

  function FirstPage(r: Region): nat {
    r.base / 0x1000
  }

  function EndPage(r: Region): nat {
    r.base / 0x1000 + (r.length + 0xfff) / 0x1000
  }

  function MapMemory(s: Machine, k: nat, mmap: seq<Region>): Option<Machine>
    decreases |mmap|
  {
    if mmap == [] then Some(s)
    else
      var s1 :- MapExtent(s, k, FirstPage(mmap[0]), EndPage(mmap[0]));
      MapMemory(s1, k, mmap[1..])
  }

  // An entry lies below 4 GiB, or it starts at a page boundary and ends where the heap begins or below.
  predicate ExtentOk(r: Region) {
    || r.base + r.length <= 0x1_0000_0000
    || (r.base % 0x1000 == 0 && r.base + r.length <= 0x100_0000_0000)
  }

  ghost predicate ExtentsOk(mmap: seq<Region>) {
    forall i :: 0 <= i < |mmap| ==> ExtentOk(mmap[i])
  }

  // Frame p holds bytes of a region.
  predicate HoldsBytes(r: Region, p: nat) {
    r.base < 0x1000 * p + 0x1000 && 0x1000 * p < r.base + r.length
  }

  // Frame p holds bytes of an entry of the memory map.
  ghost predicate Listed(mmap: seq<Region>, p: nat) {
    exists i :: 0 <= i < |mmap| && HoldsBytes(mmap[i], p)
  }

  lemma ExtentPages(r: Region)
    requires ExtentOk(r)
    ensures EndPage(r) <= 0x1000_0000 && (r.base % 0x1000 != 0 ==> EndPage(r) <= 0x10_0000)
    ensures forall p: nat :: p >= 0x10_0000 ==> (HoldsBytes(r, p) <==> FirstPage(r) <= p < EndPage(r))
    ensures forall p: nat :: HoldsBytes(r, p) ==> p < 0x1000_0000
  {
  }

  /** The entry of kernel page w after initialization: 1 GiB pages for the first 4 GiB, pages of their own
      for the frames of the memory map from there on, the kernel's image in the last 2 GiB, and nothing
      else. */
  ghost function KernelEntry(mmap: seq<Region>, w: nat): nat
    requires 0x8_0000_0000 <= w
  {
    if w < 0x8_0010_0000 then 0x4000_0000 * ((w - 0x8_0000_0000) / 0x4_0000) + 0x83
    else if w < 0x8_1000_0000 then
      if Listed(mmap, w - 0x8_0000_0000) then 0x1000 * (w - 0x8_0000_0000) + 3 else 0
    else if w < 0xf_fff8_0000 then 0
    else 0x4000_0000 * ((w - 0xf_fff8_0000) / 0x4_0000) + 0x83
  }

  // The tables that the map takes.
  function ExtentCost(s: Machine, k: nat, p: nat, end: nat): nat
    decreases end - p
  {
    if p >= end then 0
    else if p < FOUR_GIB then ExtentCost(s, k, p + 1, end)
    else
      Missing(s.mem, k, 4, LOWER + p) +
      (match MapAt(s, k, 4, LOWER + p, LeafEntry(p, 2)) case None => 0 case Some(s1) => ExtentCost(s1, k, p + 1, end))
  }

  function MemoryCost(s: Machine, k: nat, mmap: seq<Region>): nat
    decreases |mmap|
  {
    if mmap == [] then 0
    else
      ExtentCost(s, k, FirstPage(mmap[0]), EndPage(mmap[0])) +
      (match MapExtent(s, k, FirstPage(mmap[0]), EndPage(mmap[0]))
       case None => 0
       case Some(s1) => MemoryCost(s1, k, mmap[1..]))
  }

  // Page w leads to frame p, for the kernel to read and write: by a 1 GiB page, or by a page of its own.
  predicate LeadsTo(m: seq<nat>, k: nat, w: nat, p: nat) {
    var e := Get(m, k, 4, w);
    && e % 8 == 3
    && p == e / 0x1000 + (if e / 0x80 % 2 == 1 then w % 0x4_0000 else 0)
  }

  /** The direct map leads to frame p. */
  predicate DirectPage(m: seq<nat>, k: nat, p: nat) {
    LeadsTo(m, k, 0x8_0000_0000 + p, p)
  }

  /** The kernel's image: the last 2 GiB of addresses lead to the first 2 GiB of memory. */
  predicate ImagePage(m: seq<nat>, k: nat, p: nat) {
    LeadsTo(m, k, 0xf_fff8_0000 + p, p)
  }

  // The whole kernel half, page by page, but for the pages excepted.
  ghost predicate KernelHalfIs(m: seq<nat>, k: nat, mmap: seq<Region>, except: set<nat>) {
    forall w: nat :: 0x8_0000_0000 <= w < 0x10_0000_0000 && w !in except ==> Get(m, k, 4, w) == KernelEntry(mmap, w)
  }

  lemma HugeEntry(j: nat)
    ensures var e := 0x4000_0000 * j + 0x83;
      Present(e) && Writable(e) && !UserBit(e) && Huge(e) && Fr(e) == 0x4_0000 * j
  {
    EntryBits(0x4_0000 * j, 0x83);
    HugeFlags();
    assert 0x1000 * (0x4_0000 * j) == 0x4000_0000 * j;
  }

  lemma HugeFlags()
    ensures Present(0x83) && Writable(0x83) && !UserBit(0x83) && Huge(0x83)
    ensures Present(3) && Writable(3) && !UserBit(3) && !Huge(3)
  {
  }

  /** Where the kernel half leads to: the frames of the memory map and those below 4 GiB at the direct map,
      the first 2 GiB at the kernel's image; and no other page of the image's 512 GiB is mapped. */
  lemma KernelHalfLeads(m: seq<nat>, k: nat, mmap: seq<Region>, except: set<nat>)
    requires KernelHalfIs(m, k, mmap, except) && ExtentsOk(mmap)
    requires forall w: nat :: w in except ==> 0x8_1000_0000 <= w < 0xf_f800_0000
    ensures forall p: nat :: p < 0x10_0000 || Listed(mmap, p) ==> DirectPage(m, k, p)
    ensures forall p: nat :: p < 0x8_0000 ==> ImagePage(m, k, p) && Huge(Get(m, k, 4, 0xf_fff8_0000 + p))
    ensures forall w: nat :: 0xf_f800_0000 <= w < 0xf_fff8_0000 ==> Get(m, k, 4, w) == 0
  {
    hide Get, Present, Writable, UserBit, Huge, Fr, Listed, LeadsTo;
    forall p: nat | p < 0x10_0000 || Listed(mmap, p)
      ensures DirectPage(m, k, p)
    {
      ListedInMemory(mmap, p);
      var w := 0x8_0000_0000 + p;
      assert Get(m, k, 4, w) == KernelEntry(mmap, w);
      if p < 0x10_0000 {
        LeadsByHugePage(m, k, w, p);
      } else {
        LeadsByPage(m, k, w, p);
      }
    }
    forall p: nat | p < 0x8_0000
      ensures ImagePage(m, k, p) && Huge(Get(m, k, 4, 0xf_fff8_0000 + p))
    {
      HugeEntry(p / 0x4_0000);
      LeadsByHugePage(m, k, 0xf_fff8_0000 + p, p);
    }
  }

  lemma LeadsByHugePage(m: seq<nat>, k: nat, w: nat, p: nat)
    requires Get(m, k, 4, w) == 0x4000_0000 * (p / 0x4_0000) + 0x83 && w % 0x4_0000 == p % 0x4_0000
    ensures LeadsTo(m, k, w, p)
  {
    hide Get;
    var j := p / 0x4_0000;
    WordParts(0x4_0000 * j, 0x83);
    assert 0x1000 * (0x4_0000 * j) + 0x83 == Get(m, k, 4, w);
    assert p == 0x4_0000 * j + p % 0x4_0000;
  }

  // A word that combines a frame with flags.
  lemma WordParts(f: nat, flags: nat)
    requires flags == 3 || flags == 0x83
    ensures var e := 0x1000 * f + flags;
      e % 8 == 3 && e / 0x1000 == f && e / 0x80 % 2 == flags / 0x80
  {
    Quotient128(32 * f + flags / 0x80, 3);
    AddMultiple(flags / 0x80, 16 * f);
    EighthsOf(512 * f + flags / 8, 3);
    FrameOfWord(f, flags);
    assert 0x1000 * f + flags == 8 * (512 * f + flags / 8) + 3 == 0x80 * (32 * f + flags / 0x80) + 3;
  }

  lemma FrameOfWord(f: nat, flags: nat)
    requires flags < 0x1000
    ensures (0x1000 * f + flags) / 0x1000 == f
  {
  }

  lemma LeadsByPage(m: seq<nat>, k: nat, w: nat, p: nat)
    requires Get(m, k, 4, w) == 0x1000 * p + 3
    ensures LeadsTo(m, k, w, p)
  {
    hide Get;
    WordParts(p, 3);
  }

  lemma ListedInMemory(mmap: seq<Region>, p: nat)
    requires ExtentsOk(mmap)
    ensures Listed(mmap, p) ==> p < 0x1000_0000
  {
    if Listed(mmap, p) {
      var i :| 0 <= i < |mmap| && HoldsBytes(mmap[i], p);
      ExtentPages(mmap[i]);
    }
  }

  // ----- one page

  // A walk that ends in no huge page meets none.
  lemma {:induction false} NoHugeIfGet(m: seq<nat>, t: nat, level: nat, v: nat)
    requires level > 0 && !Huge(Get(m, t, level, v))
    ensures NoHuge(m, t, level, v)
    decreases level
  {
    hide Huge, Fr;
    var e := Rd(m, t, Idx(v, level));
    if level > 1 && Present(e) && !Huge(e) {
      NoHugeIfGet(m, Fr(e), level - 1, v);
    }
  }

  // No 1 GiB page lies above the first 4 GiB of the direct map.
  ghost predicate HighClear(m: seq<nat>, k: nat) {
    forall w: nat :: LOWER + FOUR_GIB <= w < LOWER + ONE_TIB ==> !Huge(Get(m, k, 4, w))
  }

  lemma DirectEntry(p: nat)
    ensures !Huge(LeafEntry(p, 2)) && LeafEntry(p, 2) == 0x1000 * p + 3
  {
    EntryBits(p, 3);
  }

  // Mapping a kernel page leaves the top-level table as it is.
  lemma TopStays(s: Machine, roles: seq<Role>, k: nat, v: nat, leaf: nat)
    requires Ok(s, roles) && IsRoot(roles, k) && LOWER <= v < PAGES && NoHuge(s.mem, k, 4, v)
    requires Frames.Available(s.pmm) >= Missing(s.mem, k, 4, v)
    ensures MapAt(s, k, 4, v, leaf).Some? && SameFrame(s.mem, MapAt(s, k, 4, v, leaf).value.mem, k)
  {
    hide Present, Writable, UserBit, Huge, Fr, MapAt;
    assert NodeOk(roles, k);
    RootOnPath(roles, k, v);
    UpperHalfPresent(s.mem, roles, s.kernel, k, v);
    PathStep(s.mem, roles, s.kernel, k, k, v);
    var e := Rd(s.mem, k, Idx(v, 4));
    var s', roles' := MapEffect(s, roles, Fr(e), k, v, leaf);
    UnfoldTop(s, k, v, leaf);
  }

  lemma UnfoldTop(s: Machine, k: nat, v: nat, leaf: nat)
    requires InMemory(s.mem, k) && Present(Rd(s.mem, k, Idx(v, 4)))
    ensures MapAt(s, k, 4, v, leaf) == MapAt(s, Fr(Rd(s.mem, k, Idx(v, 4))), 3, v, leaf)
  {
  }

  // The effect of mapping part of the high memory: n tables were taken, and pages outside keep their
  // entries.
  ghost predicate Extended(s: Machine, s': Machine, roles: seq<Role>, roles': seq<Role>, k: nat, n: nat) {
    && Ok(s', roles') && s'.kernel == s.kernel && s'.cr3 == s.cr3
    && (forall q: nat :: IsRoot(roles', q) <==> IsRoot(roles, q))
    && Frames.Available(s'.pmm) == Frames.Available(s.pmm) - n
    && HighClear(s'.mem, k) && SameFrame(s.mem, s'.mem, k)
  }

  // Exactly the pages of the direct map from p up to `end`, as far as they are beyond 4 GiB, are new.
  ghost predicate MapsExactly(m: seq<nat>, m': seq<nat>, k: nat, p: nat, end: nat) {
    forall w: nat :: w < PAGES ==>
      Get(m', k, 4, w) ==
        if 0x8_0010_0000 <= w && 0x8_0000_0000 + p <= w < 0x8_0000_0000 + end then 0x1000 * (w - 0x8_0000_0000) + 3
        else Get(m, k, 4, w)
  }

  lemma MapDirectPage(s: Machine, roles: seq<Role>, k: nat, p: nat)
    returns (s': Machine, roles': seq<Role>)
    requires Ok(s, roles) && IsRoot(roles, k) && HighClear(s.mem, k) && FOUR_GIB <= p < ONE_TIB
    requires Frames.Available(s.pmm) >= Missing(s.mem, k, 4, LOWER + p)
    ensures MapAt(s, k, 4, LOWER + p, LeafEntry(p, 2)) == Some(s')
    ensures Extended(s, s', roles, roles', k, Missing(s.mem, k, 4, LOWER + p))
    ensures MapsExactly(s.mem, s'.mem, k, p, p + 1)
  {
    hide Get, Present, Writable, UserBit, Huge, Fr, Layout, FreeOk, MapAt, Missing, NoHuge;
    NoHugeIfGet(s.mem, k, 4, LOWER + p);
    DirectEntry(p);
    s', roles' := MapRootEffect(s, roles, k, LOWER + p, LeafEntry(p, 2));
    TopStays(s, roles, k, LOWER + p, LeafEntry(p, 2));
  }

  // ----- the whole memory map

  lemma {:induction false} MapExtentEffect(s: Machine, roles: seq<Role>, k: nat, p: nat, end: nat)
    returns (s': Machine, roles': seq<Role>)
    requires Ok(s, roles) && IsRoot(roles, k) && HighClear(s.mem, k) && end <= ONE_TIB
    requires Frames.Available(s.pmm) >= ExtentCost(s, k, p, end)
    ensures MapExtent(s, k, p, end) == Some(s') && Extended(s, s', roles, roles', k, ExtentCost(s, k, p, end))
    ensures MapsExactly(s.mem, s'.mem, k, p, end)
    decreases end - p
  {
    hide Ok, HighClear, Missing, MapAt, LeafEntry, Get;
    if p >= end {
      s', roles' := s, roles;
    } else if p < FOUR_GIB {
      s', roles' := MapExtentEffect(s, roles, k, p + 1, end);
    } else {
      var s1, roles1 := MapDirectPage(s, roles, k, p);
      s', roles' := MapExtentEffect(s1, roles1, k, p + 1, end);
      var a, b := Missing(s.mem, k, 4, LOWER + p), ExtentCost(s1, k, p + 1, end);
      ExtendedTwice(s, s1, s', roles, roles1, roles', k, a, b);
    }
  }

  lemma ExtendedTwice(s: Machine, s1: Machine, s': Machine, roles: seq<Role>, roles1: seq<Role>, roles': seq<Role>,
                      k: nat, a: nat, b: nat)
    requires Extended(s, s1, roles, roles1, k, a) && Extended(s1, s', roles1, roles', k, b)
    ensures Extended(s, s', roles, roles', k, a + b)
  {
    hide Ok, HighClear, Get;
  }

  lemma {:induction false} MapMemoryEffect(s: Machine, roles: seq<Role>, k: nat, mmap: seq<Region>)
    returns (s': Machine, roles': seq<Role>)
    requires Ok(s, roles) && IsRoot(roles, k) && HighClear(s.mem, k) && ExtentsOk(mmap)
    requires Frames.Available(s.pmm) >= MemoryCost(s, k, mmap)
    ensures MapMemory(s, k, mmap) == Some(s') && Extended(s, s', roles, roles', k, MemoryCost(s, k, mmap))
    ensures forall w: nat :: w < PAGES ==>
      Get(s'.mem, k, 4, w) ==
        if 0x8_0010_0000 <= w < 0x8_1000_0000 && Listed(mmap, w - 0x8_0000_0000) then 0x1000 * (w - 0x8_0000_0000) + 3
        else Get(s.mem, k, 4, w)
    decreases |mmap|
  {
    hide Ok, HighClear, MapExtent, ExtentCost, Get, FirstPage, EndPage, HoldsBytes;
    if mmap == [] {
      s', roles' := s, roles;
    } else {
      var p, end := FirstPage(mmap[0]), EndPage(mmap[0]);
      ExtentPages(mmap[0]);
      var s1, roles1 := MapExtentEffect(s, roles, k, p, end);
      assert ExtentsOk(mmap[1..]);
      s', roles' := MapMemoryEffect(s1, roles1, k, mmap[1..]);
      ExtendedTwice(s, s1, s', roles, roles1, roles', k, ExtentCost(s, k, p, end), MemoryCost(s1, k, mmap[1..]));
      forall x: nat
        ensures Listed(mmap, x) <==> HoldsBytes(mmap[0], x) || Listed(mmap[1..], x)
      {
        ListedRest(mmap, x);
      }
    }
  }

  lemma ListedRest(mmap: seq<Region>, x: nat)
    requires mmap != []
    ensures Listed(mmap, x) <==> HoldsBytes(mmap[0], x) || Listed(mmap[1..], x)
  {
    hide HoldsBytes;
    if i :| 0 <= i < |mmap| && HoldsBytes(mmap[i], x) {
      assert i > 0 ==> mmap[1..][i - 1] == mmap[i];
    }
    if i :| 0 <= i < |mmap[1..]| && HoldsBytes(mmap[1..][i], x) {
      assert mmap[i + 1] == mmap[1..][i];
    }
  }

  // ----- later states

  // The kernel half of a table, the page that copy-on-write uses aside.
  ghost predicate KernelHalfKept(m: seq<nat>, m': seq<nat>, k: nat) {
    forall w: nat :: 0x8_0000_0000 <= w < 0x10_0000_0000 && w != 0x8_1020_0000 ==> Get(m', k, 4, w) == Get(m, k, 4, w)
  }

  // Where it leads to stays.
  lemma LeadsKept(m: seq<nat>, m': seq<nat>, k: nat, w: nat, p: nat)
    requires KernelHalfKept(m, m', k) && 0x8_0000_0000 <= w < 0x10_0000_0000 && w != 0x8_1020_0000
    ensures LeadsTo(m', k, w, p) <==> LeadsTo(m, k, w, p)
  {
    hide Get;
  }
}
