/** Four-level page tables that live in the physical memory they describe
    (`kernel/src/memory/paging.c`; the format is that of the Intel SDM, volume 3A, section 4.5).

    A virtual page is the 36-bit page number that the four 9-bit indices make up.  Physical
    memory is a sequence of words, 512 to a frame.  A table is named by its frame number. */
module PageTables {
  import opened Options
  import Frames

  const PAGES: nat := 0x10_0000_0000
  const LOWER: nat := 0x8_0000_0000   // pages below are user pages, pages from here the kernel's

  // ----- physical memory

  function Rd(m: seq<nat>, f: nat, i: nat): nat {
    if 512 * f + i < |m| then m[512 * f + i] else 0
  }

  predicate InMemory(m: seq<nat>, f: nat) {
    512 * f + 512 <= |m|
  }

  function Put(m: seq<nat>, f: nat, i: nat, x: nat): (m': seq<nat>)
    requires InMemory(m, f) && i < 512
    ensures |m'| == |m|
    ensures forall g: nat, j: nat :: j < 512 ==> Rd(m', g, j) == if g == f && j == i then x else Rd(m, g, j)
  {
    m[512 * f + i := x]
  }

  function PutFrame(m: seq<nat>, f: nat, words: seq<nat>): (m': seq<nat>)
    requires InMemory(m, f) && |words| == 512
    ensures |m'| == |m|
    ensures forall g: nat, j: nat :: j < 512 ==> Rd(m', g, j) == if g == f then words[j] else Rd(m, g, j)
  {
    m[..512 * f] + words + m[512 * f + 512..]
  }

  function Frame(m: seq<nat>, f: nat): (words: seq<nat>)
    requires InMemory(m, f)
    ensures |words| == 512 && forall j :: 0 <= j < 512 ==> words[j] == Rd(m, f, j)
  {
    m[512 * f..512 * f + 512]
  }

  function Zeros(): (words: seq<nat>)
    ensures |words| == 512 && forall j :: 0 <= j < 512 ==> words[j] == 0
  {
    seq(512, i => 0)
  }

  ghost predicate SameFrame(m: seq<nat>, m': seq<nat>, f: nat) {
    forall j: nat :: j < 512 ==> Rd(m', f, j) == Rd(m, f, j)
  }

  ghost predicate ZeroFrame(m: seq<nat>, f: nat) {
    forall j: nat :: j < 512 ==> Rd(m, f, j) == 0
  }

  // ----- entries

  predicate Present(e: nat) { e % 2 == 1 }
  predicate Writable(e: nat) { e / 2 % 2 == 1 }
  predicate UserBit(e: nat) { e / 4 % 2 == 1 }
  predicate Huge(e: nat) { e / 0x80 % 2 == 1 }

  function Fr(e: nat): nat { e / 0x1000 }

  lemma Eighths(q: nat, b: nat, k: nat)
    requires b < 2 && k < 4
    ensures (4 * (2 * q + b) + k) % 8 == 4 * b + k
  {
    assert 4 * (2 * q + b) + k == 8 * q + (4 * b + k);
    EighthsOf(q, 4 * b + k);
  }

  lemma EighthsOf(q: nat, k: nat)
    requires k < 8
    ensures (8 * q + k) % 8 == k
  {
  }

  // The three low bits of an entry.
  lemma RightsAre(e: nat)
    ensures Present(e) && Writable(e) && UserBit(e) <==> e % 8 == 7
    ensures Present(e) && Writable(e) && !UserBit(e) <==> e % 8 == 3
  {
    var q, k := e / 4, e % 4;
    LowBits(q, k);
    Eighths(q / 2, q % 2, k);
  }

  function ClearWritable(e: nat): nat {
    if Writable(e) then e - 2 else e
  }

  // The parts of an entry that combines a frame and flags.
  lemma EntryBits(f: nat, flags: nat)
    requires flags < 0x1000
    ensures var e := 0x1000 * f + flags;
      && Fr(e) == f && (Present(e) <==> Present(flags)) && (Writable(e) <==> Writable(flags))
      && (UserBit(e) <==> UserBit(flags)) && (Huge(e) <==> Huge(flags))
  {
    EntryBitsLow(f, flags);
    EntryHuge(f, flags);
  }

  lemma EntryBitsLow(f: nat, flags: nat)
    requires flags < 0x1000
    ensures var e := 0x1000 * f + flags;
      && (Present(e) <==> Present(flags)) && (Writable(e) <==> Writable(flags)) && (UserBit(e) <==> UserBit(flags))
  {
    hide Present, Writable, UserBit;
    var q, k := flags / 4, flags % 4;
    LowBits(0x400 * f + q, k);
    LowBits(q, k);
    EvenPart(f, q);
  }

  lemma EvenPart(f: nat, q: nat)
    ensures Present(0x400 * f + q) <==> Present(q)
  {
    AddMultiple(q, 0x200 * f);
  }

  lemma EntryHuge(f: nat, flags: nat)
    requires flags < 0x1000
    ensures Huge(0x1000 * f + flags) <==> Huge(flags)
  {
    var q, k := flags / 0x80, flags % 0x80;
    assert 0x1000 * f + flags == 0x80 * (32 * f + q) + k;
    Quotient128(32 * f + q, k);
    AddMultiple(q, 16 * f);
  }

  lemma AddMultiple(q: nat, k: nat)
    ensures (2 * k + q) % 2 == q % 2
  {
  }

  lemma Quotient128(q: nat, k: nat)
    requires k < 0x80
    ensures (0x80 * q + k) / 0x80 == q
  {
  }

  lemma LowBits(q: nat, k: nat)
    requires k < 4
    ensures Present(4 * q + k) <==> Present(k)
    ensures Writable(4 * q + k) <==> Writable(k)
    ensures UserBit(4 * q + k) <==> Present(q)
  {
    assert (4 * q + k) / 2 == 2 * q + k / 2;
  }

  lemma HighBit(q: nat, k: nat)
    requires k < 4
    ensures Huge(4 * q + k) <==> q / 32 % 2 == 1
  {
    var a, b := q / 32, q % 32;
    assert 4 * q + k == 0x80 * a + (4 * b + k);
    Quotient128(a, 4 * b + k);
  }

  // ----- indices

  function Shift(v: nat, k: nat): nat {
    if k == 0 then v else Shift(v, k - 1) / 512
  }

  // vaddr_to_index: the index of page v in its table of the given level, 4 to 1 from the top.
  function Idx(v: nat, level: nat): (i: nat)
    requires level > 0
    ensures i < 512
  {
    Shift(v, level - 1) % 512
  }

  // ----- the machine and its operations, as the C functions perform them

  datatype Machine = Machine(mem: seq<nat>, pmm: Frames.State, tlb: map<nat, nat>, kernel: nat, cr3: nat)

  // palloc(1); the model stops where the kernel would go on with a NULL frame.
  function Alloc(s: Machine): Option<(nat, Machine)> {
    var (f, p) :- Frames.Request(s.pmm, 1);
    if InMemory(s.mem, f) then Some((f, s.(pmm := p))) else None
  }

  // paging_get
  function Get(m: seq<nat>, t: nat, level: nat, v: nat): nat
    requires level > 0
    decreases level
  {
    var e := Rd(m, t, Idx(v, level));
    if level == 1 then e
    else if !Present(e) then 0
    else if Huge(e) then e
    else Get(m, Fr(e), level - 1, v)
  }

  lemma ShiftStep(v: nat, k: nat)
    requires k > 0
    ensures Shift(v, 0) == v && Shift(v, k) == Shift(v, k - 1) / 512
  {
  }

  // The four indices are the nine-bit groups of the page number, from the lowest.
  lemma IndicesAre(v: nat)
    ensures Idx(v, 1) == v % 512 && Idx(v, 2) == v / 512 % 512
    ensures Idx(v, 3) == v / 512 / 512 % 512 && Idx(v, 4) == v / 512 / 512 / 512 % 512
  {
    hide Shift;
    ShiftStep(v, 1);
    ShiftStep(v, 2);
    ShiftStep(v, 3);
  }

  /** What is read for a page is the word at the end of its walk, in the format of the processor: bit 0
      of an entry says that it is present, bit 7 of an interior one that it maps a huge page, and the
      bits from 12 on are the frame of the next table. */
  lemma GetIsTheWalk(m: seq<nat>, t: nat, v: nat)
    ensures var e4 := Rd(m, t, v / 512 / 512 / 512 % 512);
      var e3 := Rd(m, e4 / 0x1000, v / 512 / 512 % 512);
      var e2 := Rd(m, e3 / 0x1000, v / 512 % 512);
      var e1 := Rd(m, e2 / 0x1000, v % 512);
      Get(m, t, 4, v) ==
      if e4 % 2 == 0 then 0 else if e4 / 0x80 % 2 == 1 then e4
      else if e3 % 2 == 0 then 0 else if e3 / 0x80 % 2 == 1 then e3
      else if e2 % 2 == 0 then 0 else if e2 / 0x80 % 2 == 1 then e2 else e1
  {
    hide Idx;
    IndicesAre(v);
    var e4 := Rd(m, t, Idx(v, 4));
    var e3 := Rd(m, Fr(e4), Idx(v, 3));
    var e2 := Rd(m, Fr(e3), Idx(v, 2));
    assert Get(m, Fr(e3), 2, v) ==
           if !Present(e2) then 0 else if Huge(e2) then e2 else Rd(m, Fr(e2), Idx(v, 1));
    assert Get(m, Fr(e4), 3, v) ==
           if !Present(e3) then 0 else if Huge(e3) then e3 else Get(m, Fr(e3), 2, v);
  }

  // paging_map: the entry of page v becomes `leaf`.
  function MapAt(s: Machine, t: nat, level: nat, v: nat, leaf: nat): Option<Machine>
    requires level > 0
    decreases level
  {
    if !InMemory(s.mem, t) then None
    else if level == 1 then
      Some(s.(mem := Put(s.mem, t, Idx(v, 1), leaf), tlb := s.tlb - {v}))
    else
      var e := Rd(s.mem, t, Idx(v, level));
      if Present(e) then MapAt(s, Fr(e), level - 1, v, leaf)
      else
        var (f, s1) :- Alloc(s);
        var m1 := NewTable(s1.mem, t, Idx(v, level), f, TableEntry(f, v));
        MapAt(s1.(mem := m1), f, level - 1, v, leaf)
  }

  // User tables are writable and accessible on every interior level, kernel tables are not.
  function TableEntry(f: nat, v: nat): (e: nat)
    ensures Fr(e) == f && Present(e) && !Huge(e)
    ensures v < LOWER ==> Writable(e) && UserBit(e)
    ensures e % 0x1000 == if v < 0x8_0000_0000 then 7 else 1
  {
    EntryBits(f, if v < LOWER then 7 else 1);
    0x1000 * f + (if v < LOWER then 7 else 1)
  }

  // Frame f cleared, and linked at slot i of table t.
  function NewTable(m: seq<nat>, t: nat, i: nat, f: nat, x: nat): (m': seq<nat>)
    requires InMemory(m, t) && InMemory(m, f) && i < 512
    ensures |m'| == |m|
    ensures forall g: nat, j: nat :: j < 512 ==>
      Rd(m', g, j) == if g == t && j == i then x else if g == f then 0 else Rd(m, g, j)
  {
    Put(PutFrame(m, f, Zeros()), t, i, x)
  }

  // paging_unmap
  function UnmapAt(s: Machine, t: nat, level: nat, v: nat): Option<Machine>
    requires level > 0
    decreases level
  {
    if !InMemory(s.mem, t) then None
    else if level == 1 then Some(s.(mem := Put(s.mem, t, Idx(v, 1), 0), tlb := s.tlb - {v}))
    else
      var e := Rd(s.mem, t, Idx(v, level));
      if Present(e) then UnmapAt(s, Fr(e), level - 1, v) else Some(s)
  }

  // ----- the layout of tables in memory

  datatype Space = User(root: nat) | Shared

  /** What a frame is used for.  A table of some level covers the pages with a given prefix, in
      the lower half of one address space or in the kernel half that all of them share.  As a
      frame has one role, no table is reachable in two ways, except through the kernel half. */
  datatype Role = Unused | Node(space: Space, level: nat, prefix: nat) | Data

  function ChildRole(role: Role, i: nat): Role
    requires role.Node? && role.level > 1
  {
    Node(if role.level == 4 && i >= 256 then Shared else role.space, role.level - 1, 512 * role.prefix + i)
  }

  predicate LowerSlot(role: Role, i: nat)
    requires role.Node?
  {
    if role.level == 4 then i < 256 else role.space.User?
  }

  predicate IsRoot(roles: seq<Role>, r: nat) {
    r < |roles| && roles[r].Node? && roles[r].level == 4
  }

  ghost predicate NodeOk(roles: seq<Role>, f: nat)
    requires f < |roles|
  {
    roles[f].Node? ==>
      && 1 <= roles[f].level <= 4
      && (roles[f].level == 4 ==> roles[f] == Node(User(f), 4, 0))
      && (roles[f].space.User? ==> IsRoot(roles, roles[f].space.root))
  }

  // A leaf entry of a lower half maps a data frame for the user.
  ghost predicate LeafOk(roles: seq<Role>, space: Space, e: nat) {
    space.User? && Present(e) ==> UserBit(e) && Fr(e) < |roles| && roles[Fr(e)].Data?
  }

  // The tables that hold the 1 GiB pages of the kernel's two direct maps of physical memory.
  predicate DirectMap(role: Role) {
    role.Node? && role.space.Shared? && role.level == 3 && (role.prefix == 256 || role.prefix == 511)
  }

  // A present interior entry leads to the table one level down, or is a page of a direct map.
  ghost predicate InteriorOk(roles: seq<Role>, role: Role, i: nat, e: nat)
    requires role.Node? && role.level > 1
  {
    Present(e) ==>
      && (LowerSlot(role, i) ==> Writable(e) && UserBit(e))
      && (Huge(e) ==> DirectMap(role))
      && (!Huge(e) ==> Fr(e) < |roles| && roles[Fr(e)] == ChildRole(role, i))
  }

  ghost predicate SlotOk(m: seq<nat>, roles: seq<Role>, f: nat, i: nat)
    requires f < |roles| && roles[f].Node?
  {
    if roles[f].level <= 1 then LeafOk(roles, roles[f].space, Rd(m, f, i))
    else InteriorOk(roles, roles[f], i, Rd(m, f, i))
  }

  // The upper 256 entries of every top-level table are those of the kernel table, present and
  // closed to user accesses.
  ghost predicate UpperOk(m: seq<nat>, kernel: nat, r: nat, i: nat) {
    && Rd(m, r, i) == Rd(m, kernel, i)
    && Present(Rd(m, r, i)) && !Huge(Rd(m, r, i)) && !UserBit(Rd(m, r, i))
  }

  ghost predicate Layout(m: seq<nat>, roles: seq<Role>, kernel: nat) {
    && |m| == 512 * |roles| && |roles| <= LOWER
    && IsRoot(roles, kernel)
    && (forall f :: 0 <= f < |roles| ==> NodeOk(roles, f))
    && (forall f, i: nat :: 0 <= f < |roles| && roles[f].Node? && i < 512 ==> SlotOk(m, roles, f, i))
    && (forall r, i :: IsRoot(roles, r) && 256 <= i < 512 ==> UpperOk(m, kernel, r, i))
  }

  // Free frames are unused, and those that the allocator can still hand out, from its hint on, are
  // zero-filled.
  ghost predicate FreeOk(s: Machine, roles: seq<Role>) {
    && Frames.Valid(s.pmm) && Frames.Total(s.pmm) == |roles|
    && forall f :: 0 <= f < |roles| && Frames.Free(s.pmm, f) ==>
         roles[f].Unused? && (s.pmm.lastFree <= f ==> ZeroFrame(s.mem, f))
  }

  ghost predicate Ok(s: Machine, roles: seq<Role>) {
    Layout(s.mem, roles, s.kernel) && FreeOk(s, roles)
  }

  lemma KernelIsRoot(s: Machine, roles: seq<Role>)
    requires Ok(s, roles)
    ensures IsRoot(roles, s.kernel)
  {
  }

  lemma RootNode(m: seq<nat>, roles: seq<Role>, kernel: nat, r: nat)
    requires Layout(m, roles, kernel) && IsRoot(roles, r)
    ensures NodeOk(roles, r)
  {
  }

  lemma TableInMemory(s: Machine, roles: seq<Role>, t: nat)
    requires Ok(s, roles) && t < |roles|
    ensures InMemory(s.mem, t)
  {
  }

  // No entry is added to or changed in the TLB.
  ghost predicate TlbShrinks(tlb: map<nat, nat>, tlb': map<nat, nat>) {
    forall w :: w in tlb' ==> w in tlb && tlb'[w] == tlb[w]
  }

  // ----- walking

  function Own(r: nat, v: nat): Space {
    if v < LOWER then User(r) else Shared
  }

  // Table g covers page v of the address space r.
  ghost predicate OnPath(roles: seq<Role>, g: nat, r: nat, v: nat) {
    && g < |roles| && roles[g].Node? && roles[g].level > 0
    && roles[g].prefix == Shift(v, roles[g].level)
    && roles[g].space == if roles[g].level == 4 then User(r) else Own(r, v)
  }

  lemma ShiftBounds(v: nat)
    requires v < PAGES
    ensures Shift(v, 4) == 0 && Shift(v, 3) < 512
    ensures Idx(v, 4) >= 256 <==> v >= LOWER
  {
    assert Shift(v, 1) == v / 512;
    assert Shift(v, 2) == v / 512 / 512;
    assert Shift(v, 3) == v / 512 / 512 / 512;
  }

  lemma RootOnPath(roles: seq<Role>, r: nat, v: nat)
    requires v < PAGES && IsRoot(roles, r) && NodeOk(roles, r)
    ensures OnPath(roles, r, r, v)
  {
    ShiftBounds(v);
  }

  lemma PathStep(m: seq<nat>, roles: seq<Role>, kernel: nat, t: nat, r: nat, v: nat)
    requires Layout(m, roles, kernel) && v < PAGES && OnPath(roles, t, r, v) && roles[t].level > 1
    ensures var e := Rd(m, t, Idx(v, roles[t].level));
      Present(e) && !Huge(e) ==> OnPath(roles, Fr(e), r, v) && roles[Fr(e)].level == roles[t].level - 1
  {
    var i := Idx(v, roles[t].level);
    assert NodeOk(roles, t) && SlotOk(m, roles, t, i);
    ShiftBounds(v);
    assert Shift(v, roles[t].level) == Shift(v, roles[t].level - 1) / 512;
  }

  // The result of a walk depends only on the slots on its path.
  lemma {:induction false} GetLocal(m: seq<nat>, m': seq<nat>, roles: seq<Role>, kernel: nat, t: nat, r: nat, v: nat)
    requires Layout(m, roles, kernel) && v < PAGES && OnPath(roles, t, r, v)
    requires forall g: nat :: OnPath(roles, g, r, v) && roles[g].level <= roles[t].level ==>
      Rd(m', g, Idx(v, roles[g].level)) == Rd(m, g, Idx(v, roles[g].level))
    ensures Get(m', t, roles[t].level, v) == Get(m, t, roles[t].level, v)
    decreases roles[t].level
  {
    var e := Rd(m, t, Idx(v, roles[t].level));
    if roles[t].level > 1 && Present(e) && !Huge(e) {
      PathStep(m, roles, kernel, t, r, v);
      GetLocal(m, m', roles, kernel, Fr(e), r, v);
    }
  }

  // Outside the direct maps no walk meets a huge page.
  lemma {:induction false} NoHugeOnPath(m: seq<nat>, roles: seq<Role>, kernel: nat, t: nat, r: nat, v: nat)
    requires Layout(m, roles, kernel) && v < PAGES && OnPath(roles, t, r, v)
    requires Shift(v, 3) != 256 && Shift(v, 3) != 511
    ensures NoHuge(m, t, roles[t].level, v)
    decreases roles[t].level
  {
    hide Present, Writable, UserBit, Huge, Fr;
    var i := Idx(v, roles[t].level);
    assert NodeOk(roles, t) && SlotOk(m, roles, t, i);
    if roles[t].level > 1 && Present(Rd(m, t, i)) {
      PathStep(m, roles, kernel, t, r, v);
      NoHugeOnPath(m, roles, kernel, Fr(Rd(m, t, i)), r, v);
    }
  }

  // Every table that a walk reads is in memory.
  predicate Walkable(m: seq<nat>, t: nat, level: nat, v: nat)
    requires level > 0
    decreases level
  {
    var e := Rd(m, t, Idx(v, level));
    InMemory(m, t) && (level > 1 && Present(e) && !Huge(e) ==> Walkable(m, Fr(e), level - 1, v))
  }

  lemma {:induction false} WalkableBelow(m: seq<nat>, roles: seq<Role>, kernel: nat, t: nat, r: nat, v: nat)
    requires Layout(m, roles, kernel) && v < PAGES && OnPath(roles, t, r, v)
    ensures Walkable(m, t, roles[t].level, v)
    decreases roles[t].level
  {
    hide Present, Writable, UserBit, Huge, Fr;
    var e := Rd(m, t, Idx(v, roles[t].level));
    PathStepIf(m, roles, kernel, t, r, v);
    if roles[t].level > 1 && Present(e) && !Huge(e) {
      WalkableBelow(m, roles, kernel, Fr(e), r, v);
    }
  }

  lemma PathStepIf(m: seq<nat>, roles: seq<Role>, kernel: nat, t: nat, r: nat, v: nat)
    requires Layout(m, roles, kernel) && v < PAGES && OnPath(roles, t, r, v)
    ensures var e := Rd(m, t, Idx(v, roles[t].level));
      roles[t].level > 1 && Present(e) && !Huge(e) ==>
        OnPath(roles, Fr(e), r, v) && roles[Fr(e)].level == roles[t].level - 1
  {
    if roles[t].level > 1 {
      PathStep(m, roles, kernel, t, r, v);
    }
  }

  lemma RootWalkable(m: seq<nat>, roles: seq<Role>, kernel: nat, r: nat, v: nat)
    requires Layout(m, roles, kernel) && IsRoot(roles, r) && v < PAGES
    ensures Walkable(m, r, 4, v)
  {
    assert NodeOk(roles, r);
    RootOnPath(roles, r, v);
    WalkableBelow(m, roles, kernel, r, r, v);
  }

  // A page with a present entry has all its tables.
  lemma {:induction false} PresentIsMapped(m: seq<nat>, t: nat, level: nat, v: nat)
    requires level > 0 && NoHuge(m, t, level, v) && Present(Get(m, t, level, v))
    ensures Missing(m, t, level, v) == 0
    decreases level
  {
    var e := Rd(m, t, Idx(v, level));
    if level > 1 && Present(e) {
      PresentIsMapped(m, Fr(e), level - 1, v);
    }
  }

  // ----- one store into a leaf slot

  // Pages q, w and r, v are translated by the same leaf slot.
  predicate SamePage(q: nat, w: nat, r: nat, v: nat) {
    w == v && Own(q, w) == Own(r, v)
  }

  ghost predicate OthersKept(m: seq<nat>, m': seq<nat>, roles: seq<Role>, r: nat, v: nat) {
    forall q: nat, w: nat ::
      IsRoot(roles, q) && w < PAGES && !SamePage(q, w, r, v) ==> Get(m', q, 4, w) == Get(m, q, 4, w)
  }

  lemma PutLeaf(m: seq<nat>, roles: seq<Role>, kernel: nat, t: nat, r: nat, v: nat, leaf: nat)
    requires Layout(m, roles, kernel) && v < PAGES && OnPath(roles, t, r, v) && roles[t].level == 1
    requires LeafOk(roles, Own(r, v), leaf)
    ensures var m' := Put(m, t, Idx(v, 1), leaf);
      Layout(m', roles, kernel) && OthersKept(m, m', roles, r, v)
  {
    var m' := Put(m, t, Idx(v, 1), leaf);
    forall f, i: nat | 0 <= f < |roles| && roles[f].Node? && i < 512
      ensures SlotOk(m', roles, f, i)
    {
      assert SlotOk(m, roles, f, i);
    }
    forall q, i | IsRoot(roles, q) && 256 <= i < 512
      ensures UpperOk(m', kernel, q, i)
    {
      assert UpperOk(m, kernel, q, i);
    }
    forall q: nat, w: nat | IsRoot(roles, q) && w < PAGES && !SamePage(q, w, r, v)
      ensures Get(m', q, 4, w) == Get(m, q, 4, w)
    {
      assert NodeOk(roles, q);
      RootOnPath(roles, q, w);
      assert Shift(w, 1) == w / 512 && Shift(v, 1) == v / 512;
      GetLocal(m, m', roles, kernel, q, q, w);
    }
  }

  // ----- linking an empty table

  lemma {:induction false} LinkEmptyGet(m: seq<nat>, m': seq<nat>, roles: seq<Role>, kernel: nat,
                                        t: nat, i: nat, f: nat, x: nat, u: nat, r: nat, v: nat)
    requires Layout(m, roles, kernel) && v < PAGES && OnPath(roles, u, r, v)
    requires t < |roles| && roles[t].Node? && roles[t].level > 1 && i < 512 && !Present(Rd(m, t, i))
    requires f < |roles| && roles[f].Unused? && InMemory(m, t) && InMemory(m, f)
    requires m' == NewTable(m, t, i, f, x) && Fr(x) == f && Present(x) && !Huge(x)
    ensures Get(m', u, roles[u].level, v) == Get(m, u, roles[u].level, v)
    decreases roles[u].level
  {
    var e := Rd(m, u, Idx(v, roles[u].level));
    if u == t && Idx(v, roles[u].level) == i {
      assert Get(m', f, roles[u].level - 1, v) == 0;
    } else if roles[u].level > 1 && Present(e) && !Huge(e) {
      PathStep(m, roles, kernel, u, r, v);
      LinkEmptyGet(m, m', roles, kernel, t, i, f, x, Fr(e), r, v);
    }
  }

  // Linking a fresh empty table under page v changes no translation.
  lemma LinkEmpty(m: seq<nat>, m': seq<nat>, roles: seq<Role>, kernel: nat, t: nat, f: nat, x: nat, r: nat, v: nat)
    requires Layout(m, roles, kernel) && v < PAGES && OnPath(roles, t, r, v) && roles[t].level > 1
    requires roles[t].level == 4 ==> v < LOWER
    requires f < |roles| && roles[f].Unused? && !Present(Rd(m, t, Idx(v, roles[t].level)))
    requires InMemory(m, t) && InMemory(m, f) && m' == NewTable(m, t, Idx(v, roles[t].level), f, x)
    requires Fr(x) == f && Present(x) && !Huge(x)
    requires v < LOWER ==> Writable(x) && UserBit(x)
    ensures var roles' := roles[f := ChildRole(roles[t], Idx(v, roles[t].level))];
      && Layout(m', roles', kernel)
      && OnPath(roles', f, r, v) && roles'[f].level == roles[t].level - 1
    ensures forall q: nat, w: nat :: IsRoot(roles, q) && w < PAGES ==> Get(m', q, 4, w) == Get(m, q, 4, w)
  {
    var i := Idx(v, roles[t].level);
    ShiftBounds(v);
    assert NodeOk(roles, t);
    assert Shift(v, roles[t].level) == Shift(v, roles[t].level - 1) / 512;
    var roles' := roles[f := ChildRole(roles[t], i)];
    forall g | 0 <= g < |roles'|
      ensures NodeOk(roles', g)
    {
      assert NodeOk(roles, g);
    }
    forall g, j: nat | 0 <= g < |roles'| && roles'[g].Node? && j < 512
      ensures SlotOk(m', roles', g, j)
    {
      assert g != f ==> SlotOk(m, roles, g, j);
    }
    forall q, j | IsRoot(roles', q) && 256 <= j < 512
      ensures UpperOk(m', kernel, q, j)
    {
      assert UpperOk(m, kernel, q, j);
    }
    forall q: nat, w: nat | IsRoot(roles, q) && w < PAGES
      ensures Get(m', q, 4, w) == Get(m, q, 4, w)
    {
      assert NodeOk(roles, q);
      RootOnPath(roles, q, w);
      LinkEmptyGet(m, m', roles, kernel, t, i, f, x, q, q, w);
    }
  }

  // ----- paging_map

  // The tables that a mapping of page v still has to create below table t.
  function Missing(m: seq<nat>, t: nat, level: nat, v: nat): (n: nat)
    requires level > 0
    ensures n < level
    decreases level
  {
    var e := Rd(m, t, Idx(v, level));
    if level == 1 then 0
    else if Present(e) then Missing(m, Fr(e), level - 1, v)
    else level - 1
  }

  // No table on the path of page v is replaced by a huge page.
  predicate NoHuge(m: seq<nat>, t: nat, level: nat, v: nat)
    requires level > 0
    decreases level
  {
    var e := Rd(m, t, Idx(v, level));
    level == 1 || !Present(e) || (!Huge(e) && NoHuge(m, Fr(e), level - 1, v))
  }

  // Frames taken into use were free and became tables; nothing else changed its role.
  ghost predicate Grown(s: Machine, roles: seq<Role>, roles': seq<Role>) {
    && |roles'| == |roles|
    && forall f :: 0 <= f < |roles| && roles'[f] != roles[f] ==>
      Frames.Free(s.pmm, f) && roles[f].Unused? && roles'[f].Node? && roles'[f].level < 4
  }

  // Everything that is neither a table nor a free frame keeps its contents.
  ghost predicate OthersUntouched(s: Machine, m': seq<nat>, roles: seq<Role>) {
    forall g :: 0 <= g < |roles| && !roles[g].Node? && !Frames.Free(s.pmm, g) ==> SameFrame(s.mem, m', g)
  }

  ghost predicate PmmSteps(p: Frames.State, p': Frames.State, n: nat) {
    && Frames.Available(p) == Frames.Available(p') + n
    && forall f: nat :: Frames.Free(p', f) ==> Frames.Free(p, f)
  }

  lemma AllocEffect(s: Machine, roles: seq<Role>)
    requires Ok(s, roles)
    ensures Alloc(s).Some? <==> Frames.Available(s.pmm) > 0
    ensures Alloc(s).Some? ==>
      var (f, s1) := Alloc(s).value;
      && f < |roles| && roles[f].Unused? && Frames.Free(s.pmm, f) && !Frames.Free(s1.pmm, f)
      && ZeroFrame(s.mem, f) && InMemory(s.mem, f)
      && s1 == s.(pmm := s1.pmm) && Ok(s1, roles)
      && PmmSteps(s.pmm, s1.pmm, 1)
  {
    Frames.RequestOneEffect(s.pmm);
  }

  // A frame taken from the allocator may be given any contents and role.
  lemma TakeKeepsFree(s: Machine, s': Machine, roles: seq<Role>, roles': seq<Role>, f: nat)
    requires FreeOk(s, roles) && |s'.mem| == |s.mem| && |roles'| == |roles|
    requires s'.pmm == s.pmm
    requires forall g: nat :: Frames.Free(s.pmm, g) ==>
      (g < |roles| ==> roles'[g] == roles[g]) && SameFrame(s.mem, s'.mem, g)
    ensures FreeOk(s', roles')
  {
  }

  // One table created on the way: s2 is the machine with the fresh table f linked.
  lemma CreateTable(s: Machine, roles: seq<Role>, t: nat, r: nat, v: nat)
    returns (f: nat, s2: Machine, roles1: seq<Role>)
    requires Ok(s, roles) && v < PAGES && OnPath(roles, t, r, v) && roles[t].level > 1
    requires !Present(Rd(s.mem, t, Idx(v, roles[t].level))) && Frames.Available(s.pmm) > 0
    ensures Alloc(s).Some? && InMemory(s.mem, t) && InMemory(s.mem, f) && f == Alloc(s).value.0
    ensures s2 == Alloc(s).value.1.(
      mem := NewTable(s.mem, t, Idx(v, roles[t].level), f, TableEntry(f, v)))
    ensures s2 == s.(mem := s2.mem, pmm := s2.pmm) && Alloc(s).value.1.mem == s.mem
    ensures Ok(s2, roles1) && Grown(s, roles, roles1) && PmmSteps(s.pmm, s2.pmm, 1)
    ensures OnPath(roles1, f, r, v) && roles1[f].level == roles[t].level - 1
    ensures roles[f].Unused? && Frames.Free(s.pmm, f)
    ensures roles1 == roles[f := roles1[f]] && ZeroFrame(s2.mem, f) && !Frames.Free(s2.pmm, f)
    ensures forall q: nat, w: nat :: IsRoot(roles, q) && w < PAGES ==> Get(s2.mem, q, 4, w) == Get(s.mem, q, 4, w)
    ensures forall g: nat :: g != t && g != f ==> SameFrame(s.mem, s2.mem, g)
    ensures Rd(s2.mem, t, Idx(v, roles[t].level)) == TableEntry(f, v)
  {
    var i := Idx(v, roles[t].level);
    assert NodeOk(roles, t);
    AllocEffect(s, roles);
    f := Alloc(s).value.0;
    var s1 := Alloc(s).value.1;
    s2 := s1.(mem := NewTable(s.mem, t, i, f, TableEntry(f, v)));
    UpperHalfPresent(s.mem, roles, s.kernel, t, v);
    LinkEmpty(s.mem, s2.mem, roles, s.kernel, t, f, TableEntry(f, v), r, v);
    roles1 := roles[f := ChildRole(roles[t], i)];
    TakeKeepsFree(s1, s2, roles, roles1, f);
  }

  // Tables above the one that the walk starts at keep their contents.
  ghost predicate UpperTablesKept(m: seq<nat>, m': seq<nat>, roles: seq<Role>, level: nat) {
    forall g :: 0 <= g < |roles| && roles[g].Node? && roles[g].level > level ==> SameFrame(m, m', g)
  }

  // What mapping page v below table t does, creating n tables.
  ghost predicate Mapped(s: Machine, s': Machine, roles: seq<Role>, roles': seq<Role>,
                         t: nat, r: nat, v: nat, leaf: nat, n: nat)
    requires t < |roles| && roles[t].Node? && roles[t].level > 0
  {
    && Ok(s', roles') && Grown(s, roles, roles')
    && Get(s'.mem, t, roles[t].level, v) == leaf
    && OthersKept(s.mem, s'.mem, roles, r, v) && OthersUntouched(s, s'.mem, roles)
    && PmmSteps(s.pmm, s'.pmm, n)
    && s' == s.(mem := s'.mem, pmm := s'.pmm, tlb := s.tlb - {v})
    && UpperTablesKept(s.mem, s'.mem, roles, roles[t].level)
  }

  // The radix tree refines a flat map: the entry of page v becomes `leaf`, every other page of
  // every address space keeps its entry, and exactly the missing tables are allocated.
  lemma {:induction false} MapEffect(s: Machine, roles: seq<Role>, t: nat, r: nat, v: nat, leaf: nat)
    returns (s': Machine, roles': seq<Role>)
    requires Ok(s, roles) && v < PAGES && OnPath(roles, t, r, v) && LeafOk(roles, Own(r, v), leaf)
    requires NoHuge(s.mem, t, roles[t].level, v)
    requires Frames.Available(s.pmm) >= Missing(s.mem, t, roles[t].level, v)
    ensures MapAt(s, t, roles[t].level, v, leaf) == Some(s')
    ensures Mapped(s, s', roles, roles', t, r, v, leaf, Missing(s.mem, t, roles[t].level, v))
    decreases roles[t].level
  {
    var level := roles[t].level;
    if level == 1 {
      s' := MapLeaf(s, roles, t, r, v, leaf);
      roles' := roles;
    } else {
      hide Get, Layout, FreeOk, Writable, UserBit, Huge, Mapped, TableEntry, Idx, Rd;
      var e := Rd(s.mem, t, Idx(v, level));
      if Present(e) {
        PathStep(s.mem, roles, s.kernel, t, r, v);
        s', roles' := MapEffect(s, roles, Fr(e), r, v, leaf);
        MapThrough(s, s', roles, roles', t, Fr(e), r, v, leaf, Missing(s.mem, t, level, v));
      } else {
        var f, s2, roles1 := CreateTable(s, roles, t, r, v);
        s', roles' := MapEffect(s2, roles1, f, r, v, leaf);
        MapAfterCreate(s, s2, s', roles, roles1, roles', t, f, r, v, leaf);
      }
    }
  }

  lemma MapLeaf(s: Machine, roles: seq<Role>, t: nat, r: nat, v: nat, leaf: nat) returns (s': Machine)
    requires Ok(s, roles) && v < PAGES && OnPath(roles, t, r, v) && LeafOk(roles, Own(r, v), leaf)
    requires roles[t].level == 1
    ensures MapAt(s, t, 1, v, leaf) == Some(s') && Mapped(s, s', roles, roles, t, r, v, leaf, 0)
  {
    PutLeaf(s.mem, roles, s.kernel, t, r, v, leaf);
    s' := MapAt(s, t, 1, v, leaf).value;
  }

  // What the walk does from the next table on, it does from this one.
  lemma MapThrough(s: Machine, s': Machine, roles: seq<Role>, roles': seq<Role>, t: nat, c: nat,
                   r: nat, v: nat, leaf: nat, n: nat)
    requires OnPath(roles, t, r, v) && OnPath(roles, c, r, v) && roles[t].level == roles[c].level + 1 > 1
    requires var e := Rd(s.mem, t, Idx(v, roles[t].level)); Present(e) && !Huge(e) && Fr(e) == c
    requires Mapped(s, s', roles, roles', c, r, v, leaf, n)
    ensures Mapped(s, s', roles, roles', t, r, v, leaf, n)
  {
    hide Layout, FreeOk, Present, Huge, Fr, Idx;
    assert SameFrame(s.mem, s'.mem, t);
  }

  lemma MapAfterCreate(s: Machine, s2: Machine, s': Machine, roles: seq<Role>, roles1: seq<Role>, roles': seq<Role>,
                       t: nat, f: nat, r: nat, v: nat, leaf: nat)
    requires OnPath(roles, t, r, v) && roles[t].level > 1 && f < |roles| && roles[f].Unused?
    requires s2 == s.(mem := s2.mem, pmm := s2.pmm) && t != f
    requires Ok(s, roles) && Frames.Free(s.pmm, f) && f < LOWER
    requires Grown(s, roles, roles1) && PmmSteps(s.pmm, s2.pmm, 1)
    requires roles1 == roles[f := roles1[f]] && roles1[f].Node? && roles1[f].level == roles[t].level - 1
    requires forall q: nat, w: nat :: IsRoot(roles, q) && w < PAGES ==> Get(s2.mem, q, 4, w) == Get(s.mem, q, 4, w)
    requires forall g: nat :: g != t && g != f ==> SameFrame(s.mem, s2.mem, g)
    requires Rd(s2.mem, t, Idx(v, roles[t].level)) == TableEntry(f, v)
    requires Mapped(s2, s', roles1, roles', f, r, v, leaf, roles[t].level - 2)
    ensures Mapped(s, s', roles, roles', t, r, v, leaf, roles[t].level - 1)
  {
    assert SameFrame(s2.mem, s'.mem, t);
    forall g | 0 <= g < |roles| && !roles[g].Node? && !Frames.Free(s.pmm, g)
      ensures SameFrame(s.mem, s'.mem, g)
    {
      assert SameFrame(s.mem, s2.mem, g) && SameFrame(s2.mem, s'.mem, g);
    }
    forall g | 0 <= g < |roles| && roles[g].Node? && roles[g].level > roles[t].level
      ensures SameFrame(s.mem, s'.mem, g)
    {
      assert SameFrame(s.mem, s2.mem, g) && SameFrame(s2.mem, s'.mem, g);
    }
    forall q: nat, w: nat | IsRoot(roles, q) && w < PAGES && !SamePage(q, w, r, v)
      ensures Get(s'.mem, q, 4, w) == Get(s.mem, q, 4, w)
    {
      assert IsRoot(roles1, q);
    }
  }

  // A top-level slot of the upper half is always present.
  lemma UpperHalfPresent(m: seq<nat>, roles: seq<Role>, kernel: nat, t: nat, v: nat)
    requires Layout(m, roles, kernel) && t < |roles| && roles[t].Node? && v < PAGES
    ensures roles[t].level == 4 && v >= LOWER ==> Present(Rd(m, t, Idx(v, 4))) && !Huge(Rd(m, t, Idx(v, 4)))
  {
    ShiftBounds(v);
    if roles[t].level == 4 && v >= LOWER {
      assert UpperOk(m, kernel, t, Idx(v, 4));
    }
  }

  // ----- translations of whole address spaces

  // The kernel half is the same in every address space.
  lemma KernelHalfShared(m: seq<nat>, roles: seq<Role>, kernel: nat, q: nat, r: nat, v: nat)
    requires Layout(m, roles, kernel) && IsRoot(roles, q) && IsRoot(roles, r) && LOWER <= v < PAGES
    ensures Get(m, q, 4, v) == Get(m, r, 4, v)
  {
    ShiftBounds(v);
    assert UpperOk(m, kernel, q, Idx(v, 4)) && UpperOk(m, kernel, r, Idx(v, 4));
  }

  // Pages of two address spaces have the same entry in a flat view exactly as `SamePage` says.
  lemma MapRootEffect(s: Machine, roles: seq<Role>, r: nat, v: nat, leaf: nat)
    returns (s': Machine, roles': seq<Role>)
    requires Ok(s, roles) && v < PAGES && IsRoot(roles, r) && LeafOk(roles, Own(r, v), leaf)
    requires NoHuge(s.mem, r, 4, v) && Frames.Available(s.pmm) >= Missing(s.mem, r, 4, v)
    ensures MapAt(s, r, 4, v, leaf) == Some(s')
    ensures Ok(s', roles') && Grown(s, roles, roles') && OthersUntouched(s, s'.mem, roles)
    ensures PmmSteps(s.pmm, s'.pmm, Missing(s.mem, r, 4, v))
    ensures s' == s.(mem := s'.mem, pmm := s'.pmm, tlb := s.tlb - {v})
    ensures forall q: nat, w: nat :: IsRoot(roles, q) && w < PAGES ==>
      Get(s'.mem, q, 4, w) == if SamePage(q, w, r, v) then leaf else Get(s.mem, q, 4, w)
  {
    assert NodeOk(roles, r);
    RootOnPath(roles, r, v);
    s', roles' := MapEffect(s, roles, r, r, v, leaf);
    forall q: nat, w: nat | IsRoot(roles, q) && w < PAGES && SamePage(q, w, r, v)
      ensures Get(s'.mem, q, 4, w) == leaf
    {
      if q != r {
        KernelHalfShared(s'.mem, roles', s.kernel, q, r, v);
      }
    }
  }

  // ----- paging_unmap

  // After unmapping, the entry of page v is zero and it is in no TLB that held only present
  // entries; every other page of every address space keeps its entry, and no frame is taken.
  ghost predicate Unmapped(s: Machine, s': Machine, roles: seq<Role>, t: nat, r: nat, v: nat)
    requires t < |roles| && roles[t].Node? && roles[t].level > 0
  {
    && Ok(s', roles)
    && Get(s'.mem, t, roles[t].level, v) == 0
    && OthersKept(s.mem, s'.mem, roles, r, v)
    && (forall g :: 0 <= g < |roles| && !roles[g].Node? ==> SameFrame(s.mem, s'.mem, g))
    && s' == s.(mem := s'.mem, tlb := s'.tlb)
    && s'.tlb == (if Missing(s.mem, t, roles[t].level, v) == 0 then s.tlb - {v} else s.tlb)
    && Missing(s'.mem, t, roles[t].level, v) == Missing(s.mem, t, roles[t].level, v)
    && UpperTablesKept(s.mem, s'.mem, roles, roles[t].level)
  }

  lemma {:induction false} UnmapEffect(s: Machine, roles: seq<Role>, t: nat, r: nat, v: nat)
    returns (s': Machine)
    requires Ok(s, roles) && v < PAGES && OnPath(roles, t, r, v) && NoHuge(s.mem, t, roles[t].level, v)
    ensures UnmapAt(s, t, roles[t].level, v) == Some(s') && Unmapped(s, s', roles, t, r, v)
    decreases roles[t].level
  {
    var level := roles[t].level;
    var e := Rd(s.mem, t, Idx(v, level));
    if level == 1 {
      PutLeaf(s.mem, roles, s.kernel, t, r, v, 0);
      s' := UnmapAt(s, t, level, v).value;
    } else if Present(e) {
      PathStep(s.mem, roles, s.kernel, t, r, v);
      s' := UnmapEffect(s, roles, Fr(e), r, v);
      assert SameFrame(s.mem, s'.mem, t);
    } else {
      s' := s;
    }
  }

  // ----- paging_copy

  function Slots(level: nat): nat {
    if level == 4 then 256 else 512
  }

  // paging_copy_recursive: leaf tables are copied as they are, interior tables slot by slot
  // into a frame that is not cleared first.
  function CopyTable(s: Machine, dst: nat, src: nat, level: nat): Option<Machine>
    requires level > 0
    decreases level, 513
  {
    if !InMemory(s.mem, dst) || !InMemory(s.mem, src) then None
    else if level == 1 then Some(s.(mem := PutFrame(s.mem, dst, Frame(s.mem, src))))
    else CopySlots(s, dst, src, level, 0)
  }

  function CopySlots(s: Machine, dst: nat, src: nat, level: nat, i: nat): Option<Machine>
    requires level > 1 && i <= Slots(level)
    decreases level, 512 - i
  {
    if i == Slots(level) then Some(s)
    else if !InMemory(s.mem, dst) || !InMemory(s.mem, src) then None
    else if !Present(Rd(s.mem, src, i)) then CopySlots(s, dst, src, level, i + 1)
    else
      var (f, s1) :- Alloc(s);
      var s2 :- CopyTable(s1, f, Fr(Rd(s1.mem, src, i)), level - 1);
      if !InMemory(s2.mem, dst) then None
      else
        var m := Put(s2.mem, dst, i, 0x1000 * f + Rd(s2.mem, src, i) % 0x1000);
        CopySlots(s2.(mem := m), dst, src, level, i + 1)
  }

  // The tables below t in the lower half, t itself not counted.
  function Tables(m: seq<nat>, t: nat, level: nat): nat
    decreases level, 513
  {
    if level <= 1 then 0 else TablesFrom(m, t, level, 0)
  }

  function TablesFrom(m: seq<nat>, t: nat, level: nat, i: nat): nat
    requires level > 1 && i <= Slots(level)
    decreases level, 512 - i
  {
    if i == Slots(level) then 0
    else
      (if Present(Rd(m, t, i)) then 1 + Tables(m, Fr(Rd(m, t, i)), level - 1) else 0)
      + TablesFrom(m, t, level, i + 1)
  }

  // A table in the lower half of address space r.
  predicate UserTable(roles: seq<Role>, t: nat, r: nat, level: nat, prefix: nat) {
    t < |roles| && roles[t] == Node(User(r), level, prefix)
  }

  ghost predicate UserTablesSame(m: seq<nat>, m': seq<nat>, roles: seq<Role>, r: nat, level: nat) {
    forall g :: 0 <= g < |roles| && roles[g].Node? && roles[g].space == User(r) && roles[g].level <= level ==>
      SameFrame(m, m', g)
  }

  lemma {:induction false} TablesLocal(m: seq<nat>, m': seq<nat>, roles: seq<Role>, kernel: nat,
                                       t: nat, r: nat, level: nat, i: nat)
    requires Layout(m, roles, kernel) && level > 1 && i <= Slots(level)
    requires t < |roles| && roles[t].Node? && roles[t].space == User(r) && roles[t].level == level
    requires UserTablesSame(m, m', roles, r, level)
    ensures TablesFrom(m', t, level, i) == TablesFrom(m, t, level, i)
    decreases level, 512 - i
  {
    if i < Slots(level) {
      assert SameFrame(m, m', t);
      TablesLocal(m, m', roles, kernel, t, r, level, i + 1);
      var e := Rd(m, t, i);
      if Present(e) && level > 2 {
        assert SlotOk(m, roles, t, i);
        TablesLocal(m, m', roles, kernel, Fr(e), r, level - 1, 0);
      }
    }
  }
}
