/** The page-fault step of copy-on-write (`kernel/src/memory/cow.c`) and the demand mapping it
    uses (`kernel/src/memory/vmm.c`). */
module CopyOnWrite {
  import Bits
  import opened Options
  import opened PageTables
  import opened PageTableCopy
  import Frames

  // The kernel page 0xffff810200000000 at which the old frame is mapped while it is copied.
  const SCRATCH: nat := 0x8_1020_0000

  // What the processor uses for page v: the cached translation if there is one.
  function Translate(s: Machine, v: nat): nat {
    if v in s.tlb then s.tlb[v] else Get(s.mem, s.cr3, 4, v)
  }

  // Every cached translation is one that a walk of the active tables gives now.
  ghost predicate Coherent(s: Machine) {
    forall w: nat :: w in s.tlb ==> w < PAGES && Present(s.tlb[w]) && s.tlb[w] == Get(s.mem, s.cr3, 4, w)
  }

  // paddr | flags | PAGING_PRESENT, for eight flag bits
  function LeafEntry(f: nat, flags: nat): (e: nat)
    requires flags < 0x100
    ensures Fr(e) == f && Present(e)
    ensures (Writable(e) <==> Writable(flags)) && (UserBit(e) <==> UserBit(flags))
  {
    var flags' := if flags % 2 == 1 then flags else flags + 1;
    SetPresentBit(flags);
    EntryBits(f, flags');
    0x1000 * f + flags'
  }

  // The flags of a leaf entry are those given and the present bit, and no other.
  lemma LeafFlags(f: nat, flags: nat)
    requires flags < 0x100
    ensures LeafEntry(f, flags) % 0x1000 == if flags % 2 == 1 then flags else flags + 1
  {
    hide Present, Writable, UserBit, Fr;
    LowPart(f, if flags % 2 == 1 then flags else flags + 1);
  }

  lemma LowPart(f: nat, flags: nat)
    requires flags < 0x1000
    ensures (0x1000 * f + flags) % 0x1000 == flags
  {
  }

  lemma SetPresentBit(flags: nat)
    ensures flags % 2 == 0 ==> Present(flags + 1)
    ensures flags % 2 == 0 ==> (Writable(flags + 1) <==> Writable(flags))
    ensures flags % 2 == 0 ==> (UserBit(flags + 1) <==> UserBit(flags))
  {
    LowBits(flags / 4, flags % 4);
    if flags % 2 == 0 {
      LowBits(flags / 4, flags % 4 + 1);
    }
  }

  // (entry & 0xfff) | PAGING_WRITABLE, passed as an eight-bit argument
  function CowFlags(e: nat): (flags: nat)
    ensures flags < 0x100 && Writable(flags)
    ensures (Present(flags) <==> Present(e)) && (UserBit(flags) <==> UserBit(e))
  {
    var low := e % 0x100;
    LowByte(e);
    SetWritableBit(low);
    if low / 2 % 2 == 1 then low else low + 2
  }

  lemma LowByte(e: nat)
    ensures Present(e % 0x100) <==> Present(e)
    ensures UserBit(e % 0x100) <==> UserBit(e)
  {
    ByteParts(e / 0x100, e % 0x100 / 4, e % 0x100 % 4);
  }

  lemma ByteParts(a: nat, q: nat, k: nat)
    requires q < 64 && k < 4
    ensures Present(0x100 * a + (4 * q + k)) <==> Present(4 * q + k)
    ensures UserBit(0x100 * a + (4 * q + k)) <==> UserBit(4 * q + k)
  {
    hide UserBit, Present;
    LowBits(q, k);
    LowBits(64 * a + q, k);
    assert 4 * (64 * a + q) + k == 0x100 * a + (4 * q + k);
    SameParity(q, 32 * a);
  }

  lemma SameParity(q: nat, k: nat)
    ensures Present(2 * k + q) <==> Present(q)
  {
  }

  lemma SetWritableBit(low: nat)
    requires low < 0x100
    ensures low / 2 % 2 == 0 ==> low + 2 < 0x100 && Writable(low + 2)
    ensures low / 2 % 2 == 0 ==> (Present(low + 2) <==> Present(low))
    ensures low / 2 % 2 == 0 ==> (UserBit(low + 2) <==> UserBit(low))
  {
    var q, k := low / 4, low % 4;
    LowBits(q, k);
    if k < 2 {
      LowBits(q, k + 2);
    }
  }

  // The new page keeps every flag of the low byte, and gains write access if it had none.
  lemma CowFlagsKeepTheRest(e: nat)
    ensures CowFlags(e) == e % 0x100 + (if e / 2 % 2 == 1 then 0 else 2)
    ensures Present(e) ==> forall f: nat :: LeafEntry(f, CowFlags(e)) == 0x1000 * f + CowFlags(e)
  {
    HalfOfByte(e / 0x100, e % 0x100);
    assert e == 0x100 * (e / 0x100) + e % 0x100;
    assert Present(CowFlags(e)) <==> Present(e);
  }

  lemma HalfOfByte(q: nat, low: nat)
    requires low < 0x100
    ensures (0x100 * q + low) / 2 % 2 == low / 2 % 2
  {
    var h, l := low / 2, low % 2;
    Bits.Halved(0x80 * q + h, l);
    AddMultiple(h, 0x40 * q);
  }

  // ----- demand mapping

  // One turn of the loop of vmm_request_at: a page that is present is left alone.
  function RequestPage(s: Machine, table: nat, v: nat, flags: nat): Option<Machine>
    requires flags < 0x100
  {
    if !Walkable(s.mem, table, 4, v) then None
    else if Present(Get(s.mem, table, 4, v)) then Some(s)
    else
      var (f, s1) :- Alloc(s);
      MapAt(s1, table, 4, v, LeafEntry(f, flags))
  }

  // vmm_request_at for n pages from page v on
  function RequestRange(s: Machine, table: nat, v: nat, n: nat, flags: nat): Option<Machine>
    requires flags < 0x100
    decreases n
  {
    if n == 0 then Some(s)
    else
      var s1 :- RequestPage(s, table, v, flags);
      RequestRange(s1, table, v + 1, n - 1, flags)
  }

  // A frame taken from the allocator for data.
  lemma TakeData(s: Machine, roles: seq<Role>)
    returns (f: nat, s1: Machine, roles1: seq<Role>)
    requires Ok(s, roles) && Frames.Available(s.pmm) > 0
    ensures Alloc(s) == Some((f, s1)) && f < |roles| && roles[f].Unused? && Frames.Free(s.pmm, f)
    ensures roles1 == roles[f := Data] && Ok(s1, roles1)
    ensures s1 == s.(pmm := s1.pmm) && PmmSteps(s.pmm, s1.pmm, 1)
    ensures !Frames.Free(s1.pmm, f) && ZeroFrame(s1.mem, f)
  {
    hide Present, Writable, UserBit, Huge, Fr;
    AllocEffect(s, roles);
    f := Alloc(s).value.0;
    s1 := Alloc(s).value.1;
    roles1 := roles[f := Data];
    DataLayout(s.mem, roles, s.kernel, f);
  }

  lemma DataLayout(m: seq<nat>, roles: seq<Role>, kernel: nat, f: nat)
    requires Layout(m, roles, kernel) && f < |roles| && roles[f].Unused?
    ensures Layout(m, roles[f := Data], kernel)
  {
    hide Present, Writable, UserBit, Huge, Fr;
    var roles1 := roles[f := Data];
    forall g | 0 <= g < |roles1|
      ensures NodeOk(roles1, g)
    {
      assert NodeOk(roles, g);
    }
    forall g, j: nat | 0 <= g < |roles1| && roles1[g].Node? && j < 512
      ensures SlotOk(m, roles1, g, j)
    {
      assert SlotOk(m, roles, g, j);
    }
    forall q, j | IsRoot(roles1, q) && 256 <= j < 512
      ensures UpperOk(m, kernel, q, j)
    {
      assert IsRoot(roles, q);
    }
  }

  // Frames taken into use were free; f becomes data, the others become tables.
  ghost predicate GrownBy(s: Machine, roles: seq<Role>, roles': seq<Role>, f: nat) {
    && |roles'| == |roles| && f < |roles| && roles[f].Unused? && roles'[f].Data? && Frames.Free(s.pmm, f)
    && forall g :: 0 <= g < |roles| && roles'[g] != roles[g] ==>
      Frames.Free(s.pmm, g) && roles[g].Unused? && (g == f || (roles'[g].Node? && roles'[g].level < 4))
  }

  ghost predicate OnlyTranslationChanged(m: seq<nat>, m': seq<nat>, roles: seq<Role>, r: nat, v: nat, e: nat) {
    forall q: nat, w: nat :: IsRoot(roles, q) && w < PAGES ==>
      Get(m', q, 4, w) == if SamePage(q, w, r, v) then e else Get(m, q, 4, w)
  }

  // Page v of address space r is backed by the fresh zero-filled frame f, and nothing else changes.
  ghost predicate Requested(s: Machine, s': Machine, roles: seq<Role>, roles': seq<Role>,
                            r: nat, v: nat, flags: nat, f: nat)
    requires flags < 0x100
  {
    && Ok(s', roles') && GrownBy(s, roles, roles', f)
    && OnlyTranslationChanged(s.mem, s'.mem, roles, r, v, LeafEntry(f, flags))
    && OthersUntouched(s, s'.mem, roles) && ZeroFrame(s'.mem, f)
    && PmmSteps(s.pmm, s'.pmm, 1 + Missing(s.mem, r, 4, v))
    && s' == s.(mem := s'.mem, pmm := s'.pmm, tlb := s.tlb - {v})
  }

  lemma RequestPageEffect(s: Machine, roles: seq<Role>, r: nat, v: nat, flags: nat)
    returns (f: nat, s': Machine, roles': seq<Role>)
    requires Ok(s, roles) && IsRoot(roles, r) && v < PAGES && flags < 0x100
    requires v < LOWER ==> UserBit(flags)
    requires NoHuge(s.mem, r, 4, v) && !Present(Get(s.mem, r, 4, v))
    requires Frames.Available(s.pmm) >= 1 + Missing(s.mem, r, 4, v)
    ensures RequestPage(s, r, v, flags) == Some(s')
    ensures Requested(s, s', roles, roles', r, v, flags, f)
  {
    hide Get, Present, Writable, UserBit, Huge, Fr, MapAt, Missing, NoHuge, Walkable;
    var s1, roles1;
    RootWalkable(s.mem, roles, s.kernel, r, v);
    f, s1, roles1 := TakeData(s, roles);
    s', roles' := MapRootEffect(s1, roles1, r, v, LeafEntry(f, flags));
    assert SameFrame(s1.mem, s'.mem, f);
    forall g | 0 <= g < |roles| && !roles[g].Node? && !Frames.Free(s.pmm, g)
      ensures SameFrame(s.mem, s'.mem, g)
    {
      assert !roles1[g].Node? && !Frames.Free(s1.pmm, g);
    }
    forall q: nat, w: nat | IsRoot(roles, q) && w < PAGES
      ensures Get(s'.mem, q, 4, w) == if SamePage(q, w, r, v) then LeafEntry(f, flags) else Get(s.mem, q, 4, w)
    {
      assert IsRoot(roles1, q);
    }
  }

  // ----- copying through the page tables

  // memcpy of a page, word by word; each access is translated when it is made.
  function CopyWords(s: Machine, dst: nat, src: nat, i: nat): Option<Machine>
    requires i <= 512
    decreases 512 - i
  {
    if i == 512 then Some(s)
    else
      var from, to := Translate(s, src), Translate(s, dst);
      if Present(from) && Present(to) && InMemory(s.mem, Fr(to)) then
        CopyWords(s.(mem := Put(s.mem, Fr(to), i, Rd(s.mem, Fr(from), i))), dst, src, i + 1)
      else None
  }

  // A store into a data frame changes no table.
  lemma PutData(s: Machine, roles: seq<Role>, f: nat, i: nat, x: nat)
    returns (s': Machine)
    requires Ok(s, roles) && f < |roles| && roles[f].Data? && i < 512
    ensures s' == s.(mem := Put(s.mem, f, i, x)) && Ok(s', roles)
    ensures TranslationsKept(s.mem, s'.mem, roles)
  {
    hide Get, Present, Writable, UserBit, Huge, Fr;
    s' := s.(mem := Put(s.mem, f, i, x));
    forall g, j: nat | 0 <= g < |roles| && roles[g].Node? && j < 512
      ensures SlotOk(s'.mem, roles, g, j)
    {
      assert SlotOk(s.mem, roles, g, j);
    }
    forall q, j | IsRoot(roles, q) && 256 <= j < 512
      ensures UpperOk(s'.mem, s.kernel, q, j)
    {
      assert UpperOk(s.mem, s.kernel, q, j);
    }
    forall q: nat, w: nat | IsRoot(roles, q) && w < PAGES
      ensures Get(s'.mem, q, 4, w) == Get(s.mem, q, 4, w)
    {
      assert NodeOk(roles, q);
      RootOnPath(roles, q, w);
      GetLocal(s.mem, s'.mem, roles, s.kernel, q, q, w);
    }
  }

  lemma {:induction false} CopyWordsEffect(s: Machine, roles: seq<Role>, dst: nat, src: nat, i: nat, f: nat, g: nat)
    returns (s': Machine)
    requires Ok(s, roles) && i <= 512 && IsRoot(roles, s.cr3) && dst < PAGES && src < PAGES
    requires Translate(s, dst) == Get(s.mem, s.cr3, 4, dst) && Translate(s, src) == Get(s.mem, s.cr3, 4, src)
    requires var to := Get(s.mem, s.cr3, 4, dst); Present(to) && Fr(to) == f
    requires var from := Get(s.mem, s.cr3, 4, src); Present(from) && Fr(from) == g
    requires f < |roles| && roles[f].Data? && g != f
    ensures CopyWords(s, dst, src, i) == Some(s')
    ensures Ok(s', roles) && TranslationsKept(s.mem, s'.mem, roles) && s' == s.(mem := s'.mem)
    ensures forall h: nat :: h != f ==> SameFrame(s.mem, s'.mem, h)
    ensures forall j: nat :: j < 512 ==> Rd(s'.mem, f, j) == if j < i then Rd(s.mem, f, j) else Rd(s.mem, g, j)
    decreases 512 - i
  {
    hide Get, Present, Writable, UserBit, Huge, Fr;
    if i == 512 {
      s' := s;
    } else {
      var s1 := PutData(s, roles, f, i, Rd(s.mem, g, i));
      s' := CopyWordsEffect(s1, roles, dst, src, i + 1, f, g);
      forall h: nat | h != f
        ensures SameFrame(s.mem, s'.mem, h)
      {
        assert SameFrame(s1.mem, s'.mem, h);
      }
    }
  }

  // ----- cow_copy_on_write

  // The fault step for page v of the current address space r; false when v is not present.
  function Cow(s: Machine, r: nat, v: nat): Option<(bool, Machine)> {
    var e := Get(s.mem, r, 4, v);
    if !Walkable(s.mem, r, 4, v) then None
    else if !Present(e) then Some((false, s))
    else
      var s1 :- MapAt(s, s.kernel, 4, SCRATCH, LeafEntry(Fr(e), 0));
      var s2 :- UnmapAt(s1, r, 4, v);
      var s3 :- RequestPage(s2, r, v, CowFlags(e));
      var s4 :- CopyWords(s3, v, SCRATCH, 0);
      var s5 :- UnmapAt(s4, s4.kernel, 4, SCRATCH);
      Some((true, s5))
  }

  // The frames that a copy costs: the page, and the tables of the scratch page if not yet there.
  function CowCost(s: Machine): nat {
    1 + Missing(s.mem, s.kernel, 4, SCRATCH)
  }

  lemma ScratchIndices()
    ensures LOWER <= SCRATCH < PAGES && Shift(SCRATCH, 3) == 258
  {
    assert Shift(SCRATCH, 1) == 0x408_1000;
    assert Shift(SCRATCH, 2) == 0x2_0408;
  }

  lemma WalkIsClear(m: seq<nat>, roles: seq<Role>, kernel: nat, r: nat, v: nat)
    requires Layout(m, roles, kernel) && IsRoot(roles, r) && (v < LOWER || v == SCRATCH)
    ensures v < PAGES && OnPath(roles, r, r, v) && NoHuge(m, r, 4, v)
    ensures v == SCRATCH ==> Missing(m, r, 4, v) <= 2
  {
    hide Present, Writable, UserBit, Huge, Fr, Get;
    ScratchIndices();
    ShiftBounds(v);
    assert NodeOk(roles, r);
    RootOnPath(roles, r, v);
    NoHugeOnPath(m, roles, kernel, r, r, v);
    UpperHalfPresent(m, roles, kernel, r, v);
  }

  // Page v of address space r has moved to frame f, a private copy of the frame it was on; all
  // other translations are as before, the scratch page is unmapped, and nothing else is written.
  ghost predicate Moved(s: Machine, s': Machine, roles: seq<Role>, roles': seq<Role>, r: nat, v: nat, f: nat) {
    var e := Get(s.mem, r, 4, v);
    && Ok(s', roles') && GrownBy(s, roles, roles', f)
    && (forall q: nat, w: nat :: IsRoot(roles, q) && w < PAGES ==>
          Get(s'.mem, q, 4, w) ==
            if SamePage(q, w, r, v) then LeafEntry(f, CowFlags(e))
            else if w == 0x8_1020_0000 then 0
            else Get(s.mem, q, 4, w))
    && (forall j: nat :: j < 512 ==> Rd(s'.mem, f, j) == Rd(s.mem, Fr(e), j))
    && OthersUntouched(s, s'.mem, roles)
    && PmmSteps(s.pmm, s'.pmm, 1 + Missing(s.mem, s.kernel, 4, 0x8_1020_0000))
    && s' == s.(mem := s'.mem, pmm := s'.pmm, tlb := s'.tlb)
    && TlbShrinks(s.tlb, s'.tlb) && v !in s'.tlb && SCRATCH !in s'.tlb
    && Missing(s'.mem, s.kernel, 4, SCRATCH) == 0
  }

  // The state once the page is remapped and before its contents are copied.
  ghost predicate Remapped(s: Machine, s3: Machine, roles: seq<Role>, roles3: seq<Role>, r: nat, v: nat, f: nat) {
    var e := Get(s.mem, r, 4, v);
    && Ok(s3, roles3) && GrownBy(s, roles, roles3, f)
    && (forall q: nat, w: nat :: IsRoot(roles, q) && w < PAGES ==>
          Get(s3.mem, q, 4, w) ==
            if SamePage(q, w, r, v) then LeafEntry(f, CowFlags(e))
            else if w == SCRATCH then LeafEntry(Fr(e), 0)
            else Get(s.mem, q, 4, w))
    && OthersUntouched(s, s3.mem, roles)
    && PmmSteps(s.pmm, s3.pmm, CowCost(s))
    && s3 == s.(mem := s3.mem, pmm := s3.pmm, tlb := s.tlb - {SCRATCH} - {v})
  }

  lemma RemapEffect(s: Machine, roles: seq<Role>, r: nat, v: nat)
    returns (s1: Machine, s2: Machine, s3: Machine, f: nat, roles3: seq<Role>)
    requires Ok(s, roles) && IsRoot(roles, r) && v < LOWER
    requires Present(Get(s.mem, r, 4, v)) && UserBit(Get(s.mem, r, 4, v))
    requires Frames.Available(s.pmm) >= CowCost(s)
    ensures MapAt(s, s.kernel, 4, SCRATCH, LeafEntry(Fr(Get(s.mem, r, 4, v)), 0)) == Some(s1)
    ensures UnmapAt(s1, r, 4, v) == Some(s2)
    ensures RequestPage(s2, r, v, CowFlags(Get(s.mem, r, 4, v))) == Some(s3)
    ensures Remapped(s, s3, roles, roles3, r, v, f)
  {
    hide Get, Present, Writable, UserBit, Huge, Fr, MapAt, UnmapAt, Missing, NoHuge, RequestPage;
    var e := Get(s.mem, r, 4, v);
    ScratchIndices();
    WalkIsClear(s.mem, roles, s.kernel, s.kernel, SCRATCH);
    var roles1;
    s1, roles1 := MapRootEffect(s, roles, s.kernel, SCRATCH, LeafEntry(Fr(e), 0));
    WalkIsClear(s1.mem, roles1, s.kernel, r, v);
    assert Get(s1.mem, r, 4, v) == e;
    PresentIsMapped(s1.mem, r, 4, v);
    s2 := UnmapEffect(s1, roles1, r, r, v);
    WalkIsClear(s2.mem, roles1, s.kernel, r, v);
    ZeroAbsent();
    f, s3, roles3 := RequestPageEffect(s2, roles1, r, v, CowFlags(e));
    RemapCompose(s, s1, s2, s3, roles, roles1, roles3, r, v, f);
  }

  lemma ZeroAbsent()
    ensures !Present(0)
  {
  }

  lemma RemapCompose(s: Machine, s1: Machine, s2: Machine, s3: Machine, roles: seq<Role>, roles1: seq<Role>,
                     roles3: seq<Role>, r: nat, v: nat, f: nat)
    requires Ok(s, roles) && IsRoot(roles, r) && v < LOWER
    requires Grown(s, roles, roles1) && OthersUntouched(s, s1.mem, roles) && Ok(s1, roles1)
    requires PmmSteps(s.pmm, s1.pmm, Missing(s.mem, s.kernel, 4, SCRATCH))
    requires s1 == s.(mem := s1.mem, pmm := s1.pmm, tlb := s.tlb - {SCRATCH})
    requires OnlyTranslationChanged(s.mem, s1.mem, roles, s.kernel, SCRATCH, LeafEntry(Fr(Get(s.mem, r, 4, v)), 0))
    requires Missing(s1.mem, r, 4, v) == 0 && IsRoot(roles1, r) && OnPath(roles1, r, r, v) && roles1[r].level == 4
    requires Unmapped(s1, s2, roles1, r, r, v)
    requires Requested(s2, s3, roles1, roles3, r, v, CowFlags(Get(s.mem, r, 4, v)), f)
    ensures Remapped(s, s3, roles, roles3, r, v, f)
  {
    hide Get, Present, Writable, UserBit, Huge, Fr, Missing;
    ScratchIndices();
    RemapUntouched(s, s1, s2, s3, roles, roles1);
    forall q: nat, w: nat | IsRoot(roles, q) && w < PAGES
      ensures Get(s3.mem, q, 4, w) ==
        if SamePage(q, w, r, v) then LeafEntry(f, CowFlags(Get(s.mem, r, 4, v)))
        else if w == SCRATCH then LeafEntry(Fr(Get(s.mem, r, 4, v)), 0)
        else Get(s.mem, q, 4, w)
    {
      assert IsRoot(roles1, q);
    }
  }

  lemma RemapUntouched(s: Machine, s1: Machine, s2: Machine, s3: Machine, roles: seq<Role>, roles1: seq<Role>)
    requires Grown(s, roles, roles1) && OthersUntouched(s, s1.mem, roles)
    requires forall g: nat :: Frames.Free(s1.pmm, g) ==> Frames.Free(s.pmm, g)
    requires forall g :: 0 <= g < |roles1| && !roles1[g].Node? ==> SameFrame(s1.mem, s2.mem, g)
    requires s2.pmm == s1.pmm && OthersUntouched(s2, s3.mem, roles1)
    ensures OthersUntouched(s, s3.mem, roles)
  {
    forall g | 0 <= g < |roles| && !roles[g].Node? && !Frames.Free(s.pmm, g)
      ensures SameFrame(s.mem, s3.mem, g)
    {
      assert !roles1[g].Node? && !Frames.Free(s2.pmm, g);
    }
  }

  // One copy-on-write fault.
  lemma CowEffect(s: Machine, roles: seq<Role>, r: nat, v: nat)
    returns (f: nat, s': Machine, roles': seq<Role>)
    requires Ok(s, roles) && IsRoot(roles, r) && v < LOWER && s.cr3 == r
    requires Present(Get(s.mem, r, 4, v)) && UserBit(Get(s.mem, r, 4, v))
    requires Frames.Available(s.pmm) >= CowCost(s)
    ensures Cow(s, r, v) == Some((true, s')) && Moved(s, s', roles, roles', r, v, f)
    ensures var e := Get(s.mem, r, 4, v);
      Get(s'.mem, r, 4, v) == 0x1000 * f + e % 0x100 + (if e / 2 % 2 == 1 then 0 else 2)
  {
    hide Get, Present, Writable, UserBit, Huge, Fr, MapAt, UnmapAt, Missing, NoHuge, RequestPage, CopyWords, Walkable;
    ScratchIndices();
    RootWalkable(s.mem, roles, s.kernel, r, v);
    var s1, s2, s3, s4;
    s1, s2, s3, f, roles' := RemapEffect(s, roles, r, v);
    s4 := CopyEffect(s, s3, roles, roles', r, v, f);
    s' := UnscratchEffect(s, s3, s4, roles, roles', r, v, f);
    CowFlagsKeepTheRest(Get(s.mem, r, 4, v));
  }

  lemma CopyEffect(s: Machine, s3: Machine, roles: seq<Role>, roles3: seq<Role>, r: nat, v: nat, f: nat)
    returns (s4: Machine)
    requires Ok(s, roles) && IsRoot(roles, r) && v < LOWER && s.cr3 == r && Present(Get(s.mem, r, 4, v))
    requires Remapped(s, s3, roles, roles3, r, v, f)
    ensures CopyWords(s3, v, SCRATCH, 0) == Some(s4)
    ensures Ok(s4, roles3) && TranslationsKept(s3.mem, s4.mem, roles3) && s4 == s3.(mem := s4.mem)
    ensures OthersUntouched(s, s4.mem, roles)
    ensures forall j: nat :: j < 512 ==> Rd(s4.mem, f, j) == Rd(s.mem, Fr(Get(s.mem, r, 4, v)), j)
  {
    hide Get, Present, Writable, UserBit, Huge, Fr, CopyWords, TranslationsKept;
    ScratchIndices();
    var g := Fr(Get(s.mem, r, 4, v));
    MappedIsData(s.mem, roles, s.kernel, r, v);
    s4 := CopyWordsEffect(s3, roles3, v, SCRATCH, 0, f, g);
    assert roles[g].Data? && !Frames.Free(s.pmm, g);
    assert SameFrame(s.mem, s3.mem, g);
    forall h | 0 <= h < |roles| && !roles[h].Node? && !Frames.Free(s.pmm, h)
      ensures SameFrame(s.mem, s4.mem, h)
    {
      assert SameFrame(s.mem, s3.mem, h) && SameFrame(s3.mem, s4.mem, h);
    }
  }

  // A present user page is on a data frame, and open to the user.
  lemma MappedIsData(m: seq<nat>, roles: seq<Role>, kernel: nat, r: nat, v: nat)
    requires Layout(m, roles, kernel) && IsRoot(roles, r) && v < LOWER
    ensures var e := Get(m, r, 4, v); Present(e) ==> UserBit(e) && Fr(e) < |roles| && roles[Fr(e)].Data?
  {
    assert NodeOk(roles, r);
    RootOnPath(roles, r, v);
    MappedIsDataBelow(m, roles, kernel, r, r, v);
  }

  lemma {:induction false} MappedIsDataBelow(m: seq<nat>, roles: seq<Role>, kernel: nat, t: nat, r: nat, v: nat)
    requires Layout(m, roles, kernel) && OnPath(roles, t, r, v) && v < LOWER
    ensures var e := Get(m, t, roles[t].level, v);
      Present(e) ==> UserBit(e) && Fr(e) < |roles| && roles[Fr(e)].Data?
    decreases roles[t].level
  {
    hide Writable, UserBit, Huge, Fr;
    ShiftBounds(v);
    var i := Idx(v, roles[t].level);
    assert NodeOk(roles, t) && SlotOk(m, roles, t, i);
    if roles[t].level > 1 && Present(Rd(m, t, i)) {
      PathStep(m, roles, kernel, t, r, v);
      MappedIsDataBelow(m, roles, kernel, Fr(Rd(m, t, i)), r, v);
    }
  }

  lemma UnscratchEffect(s: Machine, s3: Machine, s4: Machine, roles: seq<Role>, roles3: seq<Role>,
                        r: nat, v: nat, f: nat)
    returns (s5: Machine)
    requires Ok(s, roles) && IsRoot(roles, r) && v < LOWER && Present(Get(s.mem, r, 4, v))
    requires Remapped(s, s3, roles, roles3, r, v, f)
    requires Ok(s4, roles3) && TranslationsKept(s3.mem, s4.mem, roles3) && s4 == s3.(mem := s4.mem)
    requires OthersUntouched(s, s4.mem, roles)
    requires forall j: nat :: j < 512 ==> Rd(s4.mem, f, j) == Rd(s.mem, Fr(Get(s.mem, r, 4, v)), j)
    ensures UnmapAt(s4, s4.kernel, 4, SCRATCH) == Some(s5) && Moved(s, s5, roles, roles3, r, v, f)
  {
    hide Get, Present, Writable, UserBit, Huge, Fr, UnmapAt, Missing, NoHuge;
    ScratchIndices();
    var k := s.kernel;
    WalkIsClear(s4.mem, roles3, k, k, SCRATCH);
    PresentIsMapped(s4.mem, k, 4, SCRATCH);
    s5 := UnmapEffect(s4, roles3, k, k, SCRATCH);
    assert SameFrame(s4.mem, s5.mem, f);
    forall g | 0 <= g < |roles| && !roles[g].Node? && !Frames.Free(s.pmm, g)
      ensures SameFrame(s.mem, s5.mem, g)
    {
      assert SameFrame(s.mem, s4.mem, g) && SameFrame(s4.mem, s5.mem, g);
    }
    forall q: nat, w: nat | IsRoot(roles, q) && w < PAGES
      ensures Get(s5.mem, q, 4, w) ==
        if SamePage(q, w, r, v) then LeafEntry(f, CowFlags(Get(s.mem, r, 4, v)))
        else if w == SCRATCH then 0
        else Get(s.mem, q, 4, w)
    {
      assert IsRoot(roles3, q);
      if w == SCRATCH {
        KernelHalfShared(s5.mem, roles3, k, q, k, w);
      }
    }
  }
}
