/** A copy-on-write fault on a processor that caches translations at any time: between any two steps
    of the handler, between a store to a table and the flush after it, and before every word of the
    copy.  The handler stores before it flushes, so that nothing stale is left. */
module FaultCaching {
  import opened Options
  import opened PageTables
  import opened PageTableCopy
  import opened CopyOnWrite
  import Frames

  // What the processor does on its own: it drops the translations of some pages, and then caches
  // those of others if they are present.
  datatype Choice = Choice(drop: set<nat>, fill: set<nat>)

  function Refill(s: Machine, c: Choice): Machine {
    s.(tlb := map w | w in s.tlb.Keys + c.fill && (w in s.tlb.Keys - c.drop || Cacheable(s, w))
         :: if w in s.tlb && w !in c.drop then s.tlb[w] else Get(s.mem, s.cr3, 4, w))
  }

  predicate Cacheable(s: Machine, w: nat) {
    w < PAGES && Present(Get(s.mem, s.cr3, 4, w))
  }

  function Flush(s: Machine, v: nat): Machine {
    s.(tlb := s.tlb - {v})
  }

  // paging_map, with choices before it and between its last store and the flush.  The stores before
  // link empty tables and change no translation.
  function MapWith(s: Machine, t: nat, v: nat, leaf: nat, c: Choice, d: Choice): Option<Machine> {
    var a := Refill(s, c);
    var b :- MapAt(a, t, 4, v, leaf);
    Some(Flush(Refill(b.(tlb := a.tlb), d), v))
  }

  // paging_unmap in the same way; it does not flush when a table is missing.
  function UnmapWith(s: Machine, t: nat, v: nat, c: Choice, d: Choice): Option<Machine> {
    var a := Refill(s, c);
    var b :- UnmapAt(a, t, 4, v);
    var b1 := Refill(b.(tlb := a.tlb), d);
    Some(if Missing(s.mem, t, 4, v) == 0 then Flush(b1, v) else b1)
  }

  function RequestWith(s: Machine, t: nat, v: nat, flags: nat, c: Choice, d: Choice): Option<Machine>
    requires flags < 0x100
  {
    if !Walkable(s.mem, t, 4, v) then None
    else if Present(Get(s.mem, t, 4, v)) then Some(s)
    else
      var (f, s1) :- Alloc(s);
      MapWith(s1, t, v, LeafEntry(f, flags), c, d)
  }

  // memcpy of a page, with a choice before every word
  function CopyWith(s: Machine, dst: nat, src: nat, i: nat, cs: nat -> Choice): Option<Machine>
    requires i <= 512
    decreases 512 - i
  {
    if i == 512 then Some(s)
    else
      var a := Refill(s, cs(i));
      var from, to := Translate(a, src), Translate(a, dst);
      if Present(from) && Present(to) && InMemory(a.mem, Fr(to)) then
        CopyWith(a.(mem := Put(a.mem, Fr(to), i, Rd(a.mem, Fr(from), i))), dst, src, i + 1, cs)
      else None
  }

  /** The fault step of `Cow` with all these choices: cs for the copy, ds for the other steps. */
  function CowWith(s: Machine, r: nat, v: nat, cs: nat -> Choice, ds: nat -> Choice): Option<(bool, Machine)> {
    var e := Get(s.mem, r, 4, v);
    if !Walkable(s.mem, r, 4, v) then None
    else if !Present(e) then Some((false, s))
    else
      var s1 :- MapWith(s, s.kernel, SCRATCH, LeafEntry(Fr(e), 0), ds(0), ds(1));
      var s2 :- UnmapWith(s1, r, v, ds(2), ds(3));
      var s3 :- RequestWith(s2, r, v, CowFlags(e), ds(4), ds(5));
      var s4 :- CopyWith(s3, v, SCRATCH, 0, cs);
      var s5 :- UnmapWith(s4, s4.kernel, SCRATCH, ds(6), ds(7));
      Some((true, s5))
  }

  // ----- machines that differ in their caches

  ghost predicate SameBut(s: Machine, a: Machine) {
    a == s.(tlb := a.tlb)
  }

  lemma {:induction false} MapIgnoresCache(s: Machine, a: Machine, t: nat, level: nat, v: nat, leaf: nat)
    requires level > 0 && SameBut(s, a)
    ensures MapAt(a, t, level, v, leaf).Some? <==> MapAt(s, t, level, v, leaf).Some?
    ensures MapAt(s, t, level, v, leaf).Some? ==>
      SameBut(MapAt(s, t, level, v, leaf).value, MapAt(a, t, level, v, leaf).value)
    decreases level
  {
    hide Present, Fr, NewTable, TableEntry, Put;
    if InMemory(s.mem, t) && level > 1 {
      var e := Rd(s.mem, t, Idx(v, level));
      if Present(e) {
        MapIgnoresCache(s, a, Fr(e), level - 1, v, leaf);
      } else if Alloc(s).Some? {
        var (f, s1) := Alloc(s).value;
        var m := NewTable(s1.mem, t, Idx(v, level), f, TableEntry(f, v));
        MapIgnoresCache(s1.(mem := m), s1.(mem := m, tlb := a.tlb), f, level - 1, v, leaf);
      }
    }
  }

  lemma {:induction false} UnmapIgnoresCache(s: Machine, a: Machine, t: nat, level: nat, v: nat)
    requires level > 0 && SameBut(s, a)
    ensures UnmapAt(a, t, level, v).Some? <==> UnmapAt(s, t, level, v).Some?
    ensures UnmapAt(s, t, level, v).Some? ==> SameBut(UnmapAt(s, t, level, v).value, UnmapAt(a, t, level, v).value)
    decreases level
  {
    hide Present, Fr, Put;
    if InMemory(s.mem, t) && level > 1 {
      var e := Rd(s.mem, t, Idx(v, level));
      if Present(e) {
        UnmapIgnoresCache(s, a, Fr(e), level - 1, v);
      }
    }
  }

  // ----- coherence

  // Only the translation of page v may be stale.
  ghost predicate CoherentBut(s: Machine, v: nat) {
    forall w: nat :: w in s.tlb && w != v ==>
      w < PAGES && Present(s.tlb[w]) && s.tlb[w] == Get(s.mem, s.cr3, 4, w)
  }

  // No translation but that of page v changes for the running task.
  ghost predicate OnlyAt(s: Machine, s': Machine, v: nat) {
    s'.cr3 == s.cr3 && forall w: nat :: w < PAGES && w != v ==> Get(s'.mem, s.cr3, 4, w) == Get(s.mem, s.cr3, 4, w)
  }

  lemma RefillKeeps(s: Machine, c: Choice, v: nat)
    ensures SameBut(s, Refill(s, c))
    ensures Coherent(s) ==> Coherent(Refill(s, c))
    ensures CoherentBut(s, v) ==> CoherentBut(Refill(s, c), v)
  {
    hide Get, Present;
  }

  lemma StoreThenFlush(a: Machine, b: Machine, v: nat, d: Choice)
    requires Coherent(a) && OnlyAt(a, b, v)
    ensures var b' := Flush(Refill(b.(tlb := a.tlb), d), v); Coherent(b') && SameBut(b, b')
  {
    hide Get, Present, Refill;
    var b1 := b.(tlb := a.tlb);
    assert CoherentBut(b1, v);
    RefillKeeps(b1, d, v);
  }

  // A map with any choices does what it does without, and leaves no stale translation.
  lemma MapWithEffect(s: Machine, a: Machine, s': Machine, t: nat, v: nat, leaf: nat, c: Choice, d: Choice)
    requires SameBut(s, a) && Coherent(a) && MapAt(s, t, 4, v, leaf) == Some(s') && OnlyAt(s, s', v)
    ensures var r := MapWith(a, t, v, leaf, c, d); r.Some? && SameBut(s', r.value) && Coherent(r.value)
  {
    hide Get, Present, Refill, MapAt, Coherent;
    RefillKeeps(a, c, v);
    var a1 := Refill(a, c);
    MapIgnoresCache(s, a1, t, 4, v, leaf);
    StoreThenFlush(a1, MapAt(a1, t, 4, v, leaf).value, v, d);
  }

  lemma UnmapWithEffect(s: Machine, a: Machine, s': Machine, t: nat, v: nat, c: Choice, d: Choice)
    requires SameBut(s, a) && Coherent(a) && UnmapAt(s, t, 4, v) == Some(s') && OnlyAt(s, s', v)
    ensures var r := UnmapWith(a, t, v, c, d); r.Some? && SameBut(s', r.value) && Coherent(r.value)
  {
    hide Get, Present, Refill, UnmapAt, Coherent, Missing;
    RefillKeeps(a, c, v);
    var a1 := Refill(a, c);
    UnmapIgnoresCache(s, a1, t, 4, v);
    var b := UnmapAt(a1, t, 4, v).value;
    StoreThenFlush(a1, b, v, d);
    if Missing(s.mem, t, 4, v) != 0 {
      UnmapFindsNothing(s, t, 4, v);
      assert SameBut(a1, b) && b.(tlb := a1.tlb) == a1;
      RefillKeeps(a1, d, v);
    }
  }

  // Where a table is missing, nothing is stored.
  lemma {:induction false} UnmapFindsNothing(s: Machine, t: nat, level: nat, v: nat)
    requires level > 0 && Missing(s.mem, t, level, v) != 0 && UnmapAt(s, t, level, v).Some?
    ensures UnmapAt(s, t, level, v) == Some(s)
    decreases level
  {
    hide Present, Fr;
    var e := Rd(s.mem, t, Idx(v, level));
    if level > 1 && Present(e) {
      UnmapFindsNothing(s, Fr(e), level - 1, v);
    }
  }

  lemma RequestWithEffect(s: Machine, a: Machine, s': Machine, t: nat, v: nat, flags: nat, c: Choice, d: Choice)
    requires flags < 0x100 && SameBut(s, a) && Coherent(a)
    requires RequestPage(s, t, v, flags) == Some(s') && OnlyAt(s, s', v)
    ensures var r := RequestWith(a, t, v, flags, c, d); r.Some? && SameBut(s', r.value) && Coherent(r.value)
  {
    hide Get, Present, MapAt, Walkable;
    if !Present(Get(s.mem, t, 4, v)) {
      var (f, s1) := Alloc(s).value;
      MapWithEffect(s1, s1.(tlb := a.tlb), s', t, v, LeafEntry(f, flags), c, d);
    }
  }

  // The copy goes where the tables say, whatever is cached.
  lemma {:induction false} CopyWithEffect(s: Machine, a: Machine, roles: seq<Role>, dst: nat, src: nat, i: nat,
                                          cs: nat -> Choice)
    requires SameBut(s, a) && Coherent(a) && dst !in s.tlb && src !in s.tlb
    requires Ok(s, roles) && i <= 512 && IsRoot(roles, s.cr3) && dst < PAGES && src < PAGES
    requires var to := Get(s.mem, s.cr3, 4, dst); Fr(to) < |roles| && roles[Fr(to)].Data?
    requires CopyWords(s, dst, src, i).Some?
    ensures var r := CopyWith(a, dst, src, i, cs);
      r.Some? && SameBut(CopyWords(s, dst, src, i).value, r.value) && Coherent(r.value)
    decreases 512 - i
  {
    hide Get, Present, Fr, Ok, Refill, Put;
    if i < 512 {
      var from, to := Get(s.mem, s.cr3, 4, src), Get(s.mem, s.cr3, 4, dst);
      RefillKeeps(a, cs(i), 0);
      var a1 := Refill(a, cs(i));
      assert Translate(a1, src) == from && Translate(a1, dst) == to;
      var s1 := PutData(s, roles, Fr(to), i, Rd(s.mem, Fr(from), i));
      CopyWithEffect(s1, s1.(tlb := a1.tlb), roles, dst, src, i + 1, cs);
    }
  }

  // ----- the fault

  // Each step of the fault changes the translation of one page only.
  lemma StepsChangeOnePage(s: Machine, roles: seq<Role>, r: nat, v: nat)
    returns (s1: Machine, s2: Machine, s3: Machine)
    requires Ok(s, roles) && IsRoot(roles, r) && v < LOWER && s.cr3 == r
    requires Present(Get(s.mem, r, 4, v)) && UserBit(Get(s.mem, r, 4, v))
    requires Frames.Available(s.pmm) >= CowCost(s)
    ensures MapAt(s, s.kernel, 4, SCRATCH, LeafEntry(Fr(Get(s.mem, r, 4, v)), 0)) == Some(s1) && OnlyAt(s, s1, SCRATCH)
    ensures UnmapAt(s1, r, 4, v) == Some(s2) && OnlyAt(s1, s2, v) && Missing(s1.mem, r, 4, v) == 0
    ensures RequestPage(s2, r, v, CowFlags(Get(s.mem, r, 4, v))) == Some(s3) && OnlyAt(s2, s3, v)
  {
    hide Get, Present, Writable, UserBit, Huge, Fr, MapAt, UnmapAt, Missing, NoHuge, RequestPage;
    var e := Get(s.mem, r, 4, v);
    ScratchIndices();
    WalkIsClear(s.mem, roles, s.kernel, s.kernel, SCRATCH);
    var roles1;
    s1, roles1 := MapRootEffect(s, roles, s.kernel, SCRATCH, LeafEntry(Fr(e), 0));
    WalkIsClear(s1.mem, roles1, s.kernel, r, v);
    assert Get(s1.mem, r, 4, v) == e;
    PresentIsMapped(s1.mem, r, 4, v);
    s2 := UnmapEffect(s1, roles1, r, r, v);
    WalkIsClear(s2.mem, roles1, s.kernel, r, v);
    ZeroAbsent();
    var f, roles3;
    f, s3, roles3 := RequestPageEffect(s2, roles1, r, v, CowFlags(e));
  }

  // So does the last one.
  lemma LastStep(s4: Machine, roles: seq<Role>)
    returns (s5: Machine)
    requires Ok(s4, roles) && IsRoot(roles, s4.cr3) && Present(Get(s4.mem, s4.kernel, 4, SCRATCH))
    ensures UnmapAt(s4, s4.kernel, 4, SCRATCH) == Some(s5) && OnlyAt(s4, s5, SCRATCH)
    ensures Missing(s4.mem, s4.kernel, 4, SCRATCH) == 0
  {
    hide Get, Present, Writable, UserBit, Huge, Fr, UnmapAt, Missing, NoHuge;
    ScratchIndices();
    WalkIsClear(s4.mem, roles, s4.kernel, s4.kernel, SCRATCH);
    PresentIsMapped(s4.mem, s4.kernel, 4, SCRATCH);
    s5 := UnmapEffect(s4, roles, s4.kernel, s4.kernel, SCRATCH);
  }

  /** Whatever the processor caches and drops during a copy-on-write fault, the fault has the effect on
      memory and allocator that it has without, and leaves no stale translation. */
  lemma CowWithEffect(s: Machine, roles: seq<Role>, r: nat, v: nat, cs: nat -> Choice, ds: nat -> Choice)
    requires Ok(s, roles) && Coherent(s) && IsRoot(roles, r) && v < LOWER && s.cr3 == r
    requires Present(Get(s.mem, r, 4, v)) && UserBit(Get(s.mem, r, 4, v))
    requires Frames.Available(s.pmm) >= CowCost(s)
    ensures var c := CowWith(s, r, v, cs, ds);
      && Cow(s, r, v).Some? && c.Some? && c.value.0
      && SameBut(Cow(s, r, v).value.1, c.value.1) && Coherent(c.value.1)
  {
    hide Get, Present, Writable, UserBit, Huge, Fr, MapAt, UnmapAt, Missing, NoHuge, RequestPage, CopyWords, Walkable,
      Coherent, MapWith, UnmapWith, RequestWith, CopyWith, OnlyAt;
    var e := Get(s.mem, r, 4, v);
    ScratchIndices();
    RootWalkable(s.mem, roles, s.kernel, r, v);
    var s1, s2, s3, f, roles3 := RemapEffect(s, roles, r, v);
    var _, _, _ := StepsChangeOnePage(s, roles, r, v);
    MapWithEffect(s, s, s1, s.kernel, SCRATCH, LeafEntry(Fr(e), 0), ds(0), ds(1));
    var a1 := MapWith(s, s.kernel, SCRATCH, LeafEntry(Fr(e), 0), ds(0), ds(1)).value;
    UnmapWithEffect(s1, a1, s2, r, v, ds(2), ds(3));
    var a2 := UnmapWith(a1, r, v, ds(2), ds(3)).value;
    RequestWithEffect(s2, a2, s3, r, v, CowFlags(e), ds(4), ds(5));
    var a3 := RequestWith(a2, r, v, CowFlags(e), ds(4), ds(5)).value;
    var s4 := CopyEffect(s, s3, roles, roles3, r, v, f);
    CopiesIntoData(s, s3, roles, roles3, r, v, f);
    CopyWithEffect(s3, a3, roles3, v, SCRATCH, 0, cs);
    var a4 := CopyWith(a3, v, SCRATCH, 0, cs).value;
    ScratchStillMapped(s, s3, s4, roles, roles3, r, v, f);
    var s5 := LastStep(s4, roles3);
    UnmapWithEffect(s4, a4, s5, s4.kernel, SCRATCH, ds(6), ds(7));
  }

  lemma CopiesIntoData(s: Machine, s3: Machine, roles: seq<Role>, roles3: seq<Role>, r: nat, v: nat, f: nat)
    requires Ok(s, roles) && IsRoot(roles, r) && v < LOWER && s.cr3 == r && Remapped(s, s3, roles, roles3, r, v, f)
    ensures Get(s3.mem, r, 4, v) == LeafEntry(f, CowFlags(Get(s.mem, r, 4, v)))
    ensures Fr(Get(s3.mem, r, 4, v)) == f && f < |roles3| && roles3[f].Data? && IsRoot(roles3, s3.cr3)
    ensures v !in s3.tlb && SCRATCH !in s3.tlb
  {
    hide Get, Present, Writable, UserBit, Huge;
    ScratchIndices();
  }

  lemma ScratchStillMapped(s: Machine, s3: Machine, s4: Machine, roles: seq<Role>, roles3: seq<Role>,
                           r: nat, v: nat, f: nat)
    requires Ok(s, roles) && IsRoot(roles, r) && v < LOWER && Remapped(s, s3, roles, roles3, r, v, f)
    requires TranslationsKept(s3.mem, s4.mem, roles3) && s4 == s3.(mem := s4.mem)
    ensures Present(Get(s4.mem, s4.kernel, 4, SCRATCH))
  {
    hide Get, Present, Writable, UserBit, Huge, Fr;
    ScratchIndices();
    assert IsRoot(roles, s.kernel) && IsRoot(roles3, s.kernel);
  }
}
