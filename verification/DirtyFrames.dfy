/** `paging_copy_recursive` without the assumption that free frames are zero-filled: it does not
    clear the interior tables it allocates, so what they held shows through. */
module DirtyFrames {
  import opened PageTables
  import opened PageTableCopy
  import Frames

  // Frames in use keep their contents, except dst, and so do those that stay free; no frame is given
  // back.
  ghost predicate Confined(s: Machine, s': Machine, dst: nat) {
    && Frames.Valid(s'.pmm) && |s'.mem| == |s.mem|
    && (forall f: nat :: Frames.Free(s'.pmm, f) ==> Frames.Free(s.pmm, f))
    && (forall g: nat :: (!Frames.Free(s.pmm, g) || Frames.Free(s'.pmm, g)) && g != dst ==> SameFrame(s.mem, s'.mem, g))
  }

  lemma AllocConfined(s: Machine)
    requires Frames.Valid(s.pmm) && Alloc(s).Some?
    ensures var (f, s1) := Alloc(s).value;
      && Frames.Valid(s1.pmm) && s1.mem == s.mem && InMemory(s.mem, f)
      && Frames.Free(s.pmm, f) && !Frames.Free(s1.pmm, f)
      && forall g: nat :: Frames.Free(s1.pmm, g) ==> Frames.Free(s.pmm, g)
  {
    Frames.RequestOneEffect(s.pmm);
  }

  lemma {:induction false} CopyTableConfined(s: Machine, dst: nat, src: nat, level: nat)
    requires Frames.Valid(s.pmm) && level > 0 && CopyTable(s, dst, src, level).Some?
    ensures Confined(s, CopyTable(s, dst, src, level).value, dst)
    decreases level, 513
  {
    if level > 1 {
      CopySlotsConfined(s, dst, src, level, 0);
    }
  }

  lemma {:induction false} CopySlotsConfined(s: Machine, dst: nat, src: nat, level: nat, i: nat)
    requires Frames.Valid(s.pmm) && level > 1 && i <= Slots(level) && CopySlots(s, dst, src, level, i).Some?
    ensures Confined(s, CopySlots(s, dst, src, level, i).value, dst)
    decreases level, 512 - i
  {
    hide Present, Fr, Alloc, CopyTable;
    if i < Slots(level) {
      if !Present(Rd(s.mem, src, i)) {
        CopySlotsConfined(s, dst, src, level, i + 1);
      } else {
        AllocConfined(s);
        var (f, s1) := Alloc(s).value;
        CopyTableConfined(s1, f, Fr(Rd(s1.mem, src, i)), level - 1);
        var s2 := CopyTable(s1, f, Fr(Rd(s1.mem, src, i)), level - 1).value;
        var s3 := s2.(mem := Put(s2.mem, dst, i, 0x1000 * f + Rd(s2.mem, src, i) % 0x1000));
        CopySlotsConfined(s3, dst, src, level, i + 1);
        ConfinedTwice(s, s2, s3, CopySlots(s3, dst, src, level, i + 1).value, dst, f);
      }
    }
  }

  lemma ConfinedTwice(s: Machine, s2: Machine, s3: Machine, s': Machine, dst: nat, f: nat)
    requires Frames.Free(s.pmm, f) && |s2.mem| == |s.mem|
    requires forall g: nat :: Frames.Free(s2.pmm, g) ==> Frames.Free(s.pmm, g)
    requires forall g: nat ::
      (!Frames.Free(s.pmm, g) || Frames.Free(s2.pmm, g)) && g != f ==> SameFrame(s.mem, s2.mem, g)
    requires !Frames.Free(s2.pmm, f)
    requires s3.pmm == s2.pmm && |s3.mem| == |s2.mem| && forall g: nat :: g != dst ==> SameFrame(s2.mem, s3.mem, g)
    requires Confined(s3, s', dst)
    ensures Confined(s, s', dst)
  {
    forall g: nat | (!Frames.Free(s.pmm, g) || Frames.Free(s'.pmm, g)) && g != dst
      ensures SameFrame(s.mem, s'.mem, g)
    {
      assert Frames.Free(s'.pmm, g) ==> Frames.Free(s2.pmm, g);
      assert SameFrame(s.mem, s2.mem, g) && SameFrame(s2.mem, s3.mem, g) && SameFrame(s3.mem, s'.mem, g);
    }
  }

  // Slot j of the copy: a present table where the source has one, otherwise what was there.
  ghost predicate SlotOfCopy(s: Machine, m': seq<nat>, dst: nat, src: nat, j: nat) {
    if Present(Rd(s.mem, src, j)) then Present(Rd(m', dst, j)) else Rd(m', dst, j) == Rd(s.mem, dst, j)
  }

  lemma {:induction false} AbsentSlotsShowThrough(s: Machine, dst: nat, src: nat, level: nat, i: nat)
    requires Frames.Valid(s.pmm) && level > 1 && i <= Slots(level) && CopySlots(s, dst, src, level, i).Some?
    requires dst != src && !Frames.Free(s.pmm, dst) && !Frames.Free(s.pmm, src)
    ensures var m' := CopySlots(s, dst, src, level, i).value.mem;
      forall j: nat :: j < 512 ==>
        if i <= j < Slots(level) then SlotOfCopy(s, m', dst, src, j) else Rd(m', dst, j) == Rd(s.mem, dst, j)
    decreases level, 512 - i
  {
    hide Fr, Alloc, CopyTable;
    if i < Slots(level) {
      if !Present(Rd(s.mem, src, i)) {
        AbsentSlotsShowThrough(s, dst, src, level, i + 1);
      } else {
        AllocConfined(s);
        var (f, s1) := Alloc(s).value;
        CopyTableConfined(s1, f, Fr(Rd(s1.mem, src, i)), level - 1);
        var s2 := CopyTable(s1, f, Fr(Rd(s1.mem, src, i)), level - 1).value;
        assert SameFrame(s.mem, s2.mem, dst) && SameFrame(s.mem, s2.mem, src);
        var x := 0x1000 * f + Rd(s2.mem, src, i) % 0x1000;
        var s3 := s2.(mem := Put(s2.mem, dst, i, x));
        EntryBits(f, Rd(s2.mem, src, i) % 0x1000);
        EntryBits(Rd(s.mem, src, i) / 0x1000, Rd(s.mem, src, i) % 0x1000);
        AbsentSlotsShowThrough(s3, dst, src, level, i + 1);
      }
    }
  }

  // The copy of an interior table has tables exactly where the source has them if and only if
  // the frame handed out for it held no present word in any other slot.
  lemma CopyIsFaithfulIffFrameWasClean(s: Machine, dst: nat, src: nat, level: nat)
    requires Frames.Valid(s.pmm) && level > 1 && CopyTable(s, dst, src, level).Some?
    requires dst != src && !Frames.Free(s.pmm, dst) && !Frames.Free(s.pmm, src)
    ensures var m' := CopyTable(s, dst, src, level).value.mem;
      (forall j: nat :: j < Slots(level) ==> (Present(Rd(m', dst, j)) <==> Present(Rd(s.mem, src, j))))
        <==> (forall j: nat :: j < Slots(level) && !Present(Rd(s.mem, src, j)) ==> !Present(Rd(s.mem, dst, j)))
  {
    AbsentSlotsShowThrough(s, dst, src, level, 0);
    var m' := CopyTable(s, dst, src, level).value.mem;
    assert forall j: nat :: j < Slots(level) ==> SlotOfCopy(s, m', dst, src, j);
  }

  // A stale word that leads to a present leaf makes a page visible that the source did not map.
  lemma StaleWordMapsAPage(s: Machine, dst: nat, src: nat, w: nat)
    requires Frames.Valid(s.pmm) && CopyTable(s, dst, src, 2).Some?
    requires dst != src && !Frames.Free(s.pmm, dst) && !Frames.Free(s.pmm, src)
    requires !Present(Rd(s.mem, src, Idx(w, 2)))
    requires var x := Rd(s.mem, dst, Idx(w, 2));
      Present(x) && !Huge(x) && !Frames.Free(s.pmm, Fr(x)) && Fr(x) != dst && Present(Rd(s.mem, Fr(x), Idx(w, 1)))
    ensures !Present(Get(s.mem, src, 2, w))
    ensures Present(Get(CopyTable(s, dst, src, 2).value.mem, dst, 2, w))
  {
    AbsentSlotsShowThrough(s, dst, src, 2, 0);
    CopyTableConfined(s, dst, src, 2);
    var m' := CopyTable(s, dst, src, 2).value.mem;
    assert SlotOfCopy(s, m', dst, src, Idx(w, 2));
    assert SameFrame(s.mem, m', Fr(Rd(s.mem, dst, Idx(w, 2))));
  }

  // ----- a whole address space

  // The walk of page w from src reads only tables in use, other than dst, and meets no huge page.
  ghost predicate SourcePath(m: seq<nat>, p: Frames.State, dst: nat, src: nat, level: nat, w: nat)
    requires level > 0
    decreases level
  {
    && !Frames.Free(p, src) && src != dst
    && (level > 1 ==>
          var e := Rd(m, src, Idx(w, level));
          Present(e) ==> !Huge(e) && SourcePath(m, p, dst, Fr(e), level - 1, w))
  }

  // The walk of page w from the copy dst goes through fresh tables side by side with the walk from
  // src.  Where that ends, it meets what the frame of the copy held before.
  ghost predicate CopiedPath(m: seq<nat>, m': seq<nat>, p: Frames.State, p': Frames.State,
                             dst: nat, src: nat, level: nat, w: nat)
    requires level > 0
    decreases level
  {
    var i := Idx(w, level);
    var e, x := Rd(m, src, i), Rd(m', dst, i);
    if level == 1 then x == e
    else if Present(e) then
      && Present(x) && !Huge(x)
      && Frames.Free(p, Fr(x)) && !Frames.Free(p', Fr(x))
      && CopiedPath(m, m', p, p', Fr(x), Fr(e), level - 1, w)
    else x == Rd(m, dst, i)
  }

  // The same path in later memory: m2 and p2 when the copy was made, m' and p' at the end.
  lemma {:induction false} PathStays(m: seq<nat>, m2: seq<nat>, m': seq<nat>, p: Frames.State, p1: Frames.State,
                                     p2: Frames.State, p': Frames.State, f: nat, src: nat, level: nat, w: nat, dst: nat)
    requires level > 0 && CopiedPath(m, m2, p1, p2, f, src, level, w)
    requires !Frames.Free(p2, f) && f != dst && !Frames.Free(p, dst)
    requires forall g: nat :: !Frames.Free(p2, g) && g != dst ==> SameFrame(m2, m', g)
    requires forall g: nat :: (Frames.Free(p', g) ==> Frames.Free(p2, g)) && (Frames.Free(p1, g) ==> Frames.Free(p, g))
    ensures CopiedPath(m, m', p, p', f, src, level, w)
    decreases level
  {
    hide Present, Huge, Fr;
    assert SameFrame(m2, m', f);
    var e, x := Rd(m, src, Idx(w, level)), Rd(m2, f, Idx(w, level));
    if level > 1 && Present(e) {
      PathStays(m, m2, m', p, p1, p2, p', Fr(x), Fr(e), level - 1, w, dst);
    }
  }

  // The same path over earlier memory: m and p at the start, m3 and p3 when the copy was made.
  lemma {:induction false} PathWas(m: seq<nat>, m3: seq<nat>, m': seq<nat>, p: Frames.State, p3: Frames.State,
                                   p': Frames.State, dst: nat, src: nat, level: nat, w: nat, top: nat)
    requires level > 0 && !Frames.Free(p, top)
    requires CopiedPath(m3, m', p3, p', dst, src, level, w) && SourcePath(m, p, top, src, level, w)
    requires forall g: nat :: Frames.Free(p3, g) ==> Frames.Free(p, g)
    requires forall g: nat :: (!Frames.Free(p, g) || Frames.Free(p3, g)) && g != top ==> SameFrame(m, m3, g)
    requires (Frames.Free(p3, dst) && dst != top) || Rd(m3, dst, Idx(w, level)) == Rd(m, dst, Idx(w, level))
    ensures CopiedPath(m, m', p, p', dst, src, level, w)
    decreases level
  {
    hide Present, Huge, Fr;
    assert SameFrame(m, m3, src);
    assert Frames.Free(p3, dst) && dst != top ==> SameFrame(m, m3, dst);
    var e, x := Rd(m, src, Idx(w, level)), Rd(m', dst, Idx(w, level));
    if level > 1 && Present(e) {
      PathWas(m, m3, m', p, p3, p', Fr(x), Fr(e), level - 1, w, top);
    }
  }

  // Tables in use keep the walk.
  lemma {:induction false} SourceStays(m: seq<nat>, m': seq<nat>, p: Frames.State, p': Frames.State,
                                       dst: nat, dst': nat, src: nat, level: nat, w: nat)
    requires level > 0 && SourcePath(m, p, dst, src, level, w)
    requires forall g: nat :: !Frames.Free(p, g) && g != dst ==> SameFrame(m, m', g)
    requires forall g: nat :: !Frames.Free(p, g) ==> !Frames.Free(p', g)
    requires dst' == dst || Frames.Free(p, dst')
    ensures SourcePath(m', p', dst', src, level, w)
    ensures Get(m', src, level, w) == Get(m, src, level, w)
    decreases level
  {
    hide Present, Huge, Fr;
    assert SameFrame(m, m', src);
    var e := Rd(m, src, Idx(w, level));
    if level > 1 && Present(e) {
      SourceStays(m, m', p, p', dst, dst', Fr(e), level - 1, w);
    }
  }

  lemma {:induction false} CopyTablePath(s: Machine, dst: nat, src: nat, level: nat, w: nat)
    requires Frames.Valid(s.pmm) && 0 < level <= 4 && CopyTable(s, dst, src, level).Some?
    requires (level == 4 ==> w < LOWER) && SourcePath(s.mem, s.pmm, dst, src, level, w) && !Frames.Free(s.pmm, dst)
    ensures var s' := CopyTable(s, dst, src, level).value;
      CopiedPath(s.mem, s'.mem, s.pmm, s'.pmm, dst, src, level, w)
    decreases level, 513
  {
    hide Present, Huge, Fr;
    ShiftBounds4(w, level);
    if level > 1 {
      CopySlotsPath(s, dst, src, level, 0, w);
    }
  }

  lemma ShiftBounds4(w: nat, level: nat)
    requires 0 < level <= 4 && (level == 4 ==> w < LOWER)
    ensures Idx(w, level) < Slots(level) || level == 1
  {
    if level == 4 { ShiftBounds(w); }
  }

  lemma {:induction false} CopySlotsPath(s: Machine, dst: nat, src: nat, level: nat, i: nat, w: nat)
    requires Frames.Valid(s.pmm) && 1 < level <= 4 && i <= Idx(w, level) < Slots(level)
    requires CopySlots(s, dst, src, level, i).Some?
    requires SourcePath(s.mem, s.pmm, dst, src, level, w) && !Frames.Free(s.pmm, dst)
    ensures var s' := CopySlots(s, dst, src, level, i).value;
      CopiedPath(s.mem, s'.mem, s.pmm, s'.pmm, dst, src, level, w)
    decreases level, 512 - i
  {
    hide Present, Huge, Fr, Alloc, CopyTable, CopiedPath, SourcePath, Frames.Valid, Frames.Free, Idx;
    var e := Rd(s.mem, src, i);
    SourceTop(s.mem, s.pmm, dst, src, level, w);
    if !Present(e) {
      if i == Idx(w, level) {
        AbsentSlotsShowThrough(s, dst, src, level, i);
        AbsentPath(s, CopySlots(s, dst, src, level, i).value, dst, src, level, w);
      } else {
        CopySlotsPath(s, dst, src, level, i + 1, w);
      }
    } else {
      AllocConfined(s);
      var (f, s1) := Alloc(s).value;
      CopyTableConfined(s1, f, Fr(e), level - 1);
      var s2 := CopyTable(s1, f, Fr(e), level - 1).value;
      assert SameFrame(s.mem, s2.mem, src) && SameFrame(s.mem, s2.mem, dst);
      var s3 := s2.(mem := Put(s2.mem, dst, i, 0x1000 * f + e % 0x1000));
      CopySlotsConfined(s3, dst, src, level, i + 1);
      if i == Idx(w, level) {
        SourceStays(s.mem, s.mem, s.pmm, s1.pmm, dst, f, Fr(e), level - 1, w);
        CopyTablePath(s1, f, Fr(e), level - 1, w);
        LinkedPath(s, s1, s2, s3, dst, src, level, w, f);
      } else {
        EarlierSlot(s, s2, s3, dst, i, Idx(w, level), f, 0x1000 * f + e % 0x1000);
        SourceStays(s.mem, s3.mem, s.pmm, s3.pmm, dst, dst, src, level, w);
        CopySlotsPath(s3, dst, src, level, i + 1, w);
        var s' := CopySlots(s3, dst, src, level, i + 1).value;
        PathWas(s.mem, s3.mem, s'.mem, s.pmm, s3.pmm, s'.pmm, dst, src, level, w, dst);
      }
    }
  }

  // Memory once the copy of one slot is linked.
  lemma EarlierSlot(s: Machine, s2: Machine, s3: Machine, dst: nat, i: nat, j: nat, f: nat, x: nat)
    requires InMemory(s2.mem, dst) && i < 512 && j < 512 && i != j
    requires !Frames.Free(s.pmm, dst) && Frames.Free(s.pmm, f) && !Frames.Free(s2.pmm, f)
    requires forall g: nat ::
      (!Frames.Free(s.pmm, g) || Frames.Free(s2.pmm, g)) && g != f ==> SameFrame(s.mem, s2.mem, g)
    requires s3 == s2.(mem := Put(s2.mem, dst, i, x))
    ensures Rd(s3.mem, dst, j) == Rd(s.mem, dst, j)
    ensures forall g: nat ::
      (!Frames.Free(s.pmm, g) || Frames.Free(s3.pmm, g)) && g != dst ==> SameFrame(s.mem, s3.mem, g)
  {
    assert SameFrame(s.mem, s2.mem, dst);
    forall g: nat | (!Frames.Free(s.pmm, g) || Frames.Free(s3.pmm, g)) && g != dst
      ensures SameFrame(s.mem, s3.mem, g)
    {
      assert g != f && SameFrame(s.mem, s2.mem, g);
    }
  }

  // The path through the slot that is linked now.
  lemma LinkedPath(s: Machine, s1: Machine, s2: Machine, s3: Machine, dst: nat, src: nat, level: nat, w: nat, f: nat)
    requires 1 < level && Idx(w, level) < Slots(level)
    requires !Frames.Free(s.pmm, dst) && !Frames.Free(s.pmm, src) && dst != src
    requires Frames.Valid(s1.pmm) && s1.mem == s.mem && Frames.Free(s.pmm, f) && !Frames.Free(s1.pmm, f)
    requires forall g: nat :: Frames.Free(s1.pmm, g) ==> Frames.Free(s.pmm, g)
    requires var e := Rd(s.mem, src, Idx(w, level));
      && Present(e) && !Huge(e) && Confined(s1, s2, f)
      && CopiedPath(s1.mem, s2.mem, s1.pmm, s2.pmm, f, Fr(e), level - 1, w)
      && InMemory(s2.mem, dst)
      && s3 == s2.(mem := Put(s2.mem, dst, Idx(w, level), 0x1000 * f + e % 0x1000))
    requires var i := Idx(w, level);
      CopySlots(s3, dst, src, level, i + 1).Some? && Confined(s3, CopySlots(s3, dst, src, level, i + 1).value, dst)
    ensures var s' := CopySlots(s3, dst, src, level, Idx(w, level) + 1).value;
      CopiedPath(s.mem, s'.mem, s.pmm, s'.pmm, dst, src, level, w)
  {
    hide Present, Huge, Fr, CopySlots;
    var i := Idx(w, level);
    var e, s' := Rd(s.mem, src, i), CopySlots(s3, dst, src, level, i + 1).value;
    AbsentSlotsShowThrough(s3, dst, src, level, i + 1);
    EntryBits(f, e % 0x1000);
    EntryBits(e / 0x1000, e % 0x1000);
    PathStays(s.mem, s2.mem, s'.mem, s.pmm, s1.pmm, s2.pmm, s'.pmm, f, Fr(e), level - 1, w, dst);
  }

  lemma SourceTop(m: seq<nat>, p: Frames.State, dst: nat, src: nat, level: nat, w: nat)
    requires level > 1 && SourcePath(m, p, dst, src, level, w)
    ensures !Frames.Free(p, src) && src != dst
    ensures var e := Rd(m, src, Idx(w, level)); Present(e) ==> !Huge(e) && SourcePath(m, p, dst, Fr(e), level - 1, w)
  {
  }

  lemma AbsentPath(s: Machine, s': Machine, dst: nat, src: nat, level: nat, w: nat)
    requires level > 1 && !Present(Rd(s.mem, src, Idx(w, level)))
    requires Rd(s'.mem, dst, Idx(w, level)) == Rd(s.mem, dst, Idx(w, level))
    ensures CopiedPath(s.mem, s'.mem, s.pmm, s'.pmm, dst, src, level, w)
  {
  }

  // ----- translations of the copy

  // What the walk of page w from the copy finds beyond the absent slot where the walk from src ends.
  function Stray(m: seq<nat>, m': seq<nat>, dst: nat, src: nat, level: nat, w: nat): nat
    requires level > 0
    decreases level
  {
    var i := Idx(w, level);
    var e, x := Rd(m, src, i), Rd(m', dst, i);
    if level == 1 then 0
    else if Present(e) then Stray(m, m', Fr(x), Fr(e), level - 1, w)
    else if !Present(x) then 0
    else if Huge(x) then x
    else Get(m', Fr(x), level - 1, w)
  }

  // The copy translates as the source does, or the source has nothing and the copy the stray entry.
  lemma {:induction false} CopiedGet(m: seq<nat>, m': seq<nat>, p: Frames.State, p': Frames.State,
                                     dst: nat, src: nat, level: nat, w: nat)
    requires level > 0 && CopiedPath(m, m', p, p', dst, src, level, w) && SourcePath(m, p, dst, src, level, w)
    ensures || (Get(m', dst, level, w) == Get(m, src, level, w) && Stray(m, m', dst, src, level, w) == 0)
            || (Get(m, src, level, w) == 0 && Get(m', dst, level, w) == Stray(m, m', dst, src, level, w))
    decreases level
  {
    hide Present, Huge, Fr;
    var e, x := Rd(m, src, Idx(w, level)), Rd(m', dst, Idx(w, level));
    if level > 1 && Present(e) {
      SourceStays(m, m, p, p, dst, Fr(x), Fr(e), level - 1, w);
      CopiedGet(m, m', p, p', Fr(x), Fr(e), level - 1, w);
    }
  }

  ghost predicate CleanFrame(m: seq<nat>, g: nat) {
    forall j: nat :: j < 512 ==> !Present(Rd(m, g, j))
  }

  // The frames that are free with p and taken with p' hold no present word.
  ghost predicate TakenClean(m: seq<nat>, p: Frames.State, p': Frames.State) {
    forall g: nat :: Frames.Free(p, g) && !Frames.Free(p', g) ==> CleanFrame(m, g)
  }

  // Nothing is stray if the frames handed out were clean.
  lemma {:induction false} CleanIsNotStray(m: seq<nat>, m': seq<nat>, p: Frames.State, p': Frames.State,
                                           dst: nat, src: nat, level: nat, w: nat)
    requires level > 0 && CopiedPath(m, m', p, p', dst, src, level, w)
    requires TakenClean(m, p, p') && !Present(Rd(m, dst, Idx(w, level)))
    ensures Stray(m, m', dst, src, level, w) == 0
    decreases level
  {
    hide Present, Huge, Fr;
    var e, x := Rd(m, src, Idx(w, level)), Rd(m', dst, Idx(w, level));
    if level > 1 && Present(e) {
      assert CleanFrame(m, Fr(x));
      CleanIsNotStray(m, m', p, p', Fr(x), Fr(e), level - 1, w);
    }
  }

  // The assumptions of `Ok` without that on the contents of free frames.
  ghost predicate Dirty(s: Machine, roles: seq<Role>) {
    && Layout(s.mem, roles, s.kernel)
    && Frames.Valid(s.pmm) && Frames.Total(s.pmm) == |roles|
    && forall f :: 0 <= f < |roles| && Frames.Free(s.pmm, f) ==> roles[f].Unused?
  }

  lemma {:induction false} LayoutPath(s: Machine, roles: seq<Role>, dst: nat, t: nat, r: nat, w: nat)
    requires Dirty(s, roles) && Frames.Free(s.pmm, dst) && w < LOWER && OnPath(roles, t, r, w)
    ensures SourcePath(s.mem, s.pmm, dst, t, roles[t].level, w)
    decreases roles[t].level
  {
    hide Present, Writable, UserBit, Huge, Fr;
    ShiftBounds(w);
    assert NodeOk(roles, t) && SlotOk(s.mem, roles, t, Idx(w, roles[t].level));
    var e := Rd(s.mem, t, Idx(w, roles[t].level));
    if roles[t].level > 1 && Present(e) {
      PathStep(s.mem, roles, s.kernel, t, r, w);
      LayoutPath(s, roles, dst, Fr(e), r, w);
    }
  }

  // Two entries that translate alike: both absent, or the same.
  predicate SameTranslation(e: nat, e': nat) {
    Present(e) || Present(e') ==> e == e'
  }

  ghost predicate TranslatesAlike(m: seq<nat>, r: nat, m': seq<nat>, n: nat) {
    forall w: nat :: w < LOWER ==> SameTranslation(Get(m, r, 4, w), Get(m', n, 4, w))
  }

  ghost predicate NothingStray(m: seq<nat>, m': seq<nat>, n: nat, r: nat) {
    forall w: nat :: w < LOWER ==> !Present(Stray(m, m', n, r, 4, w))
  }

  /** paging_copy without any assumption on the contents of free frames: frames in use keep their
      contents, and every page of the copy translates as in the parent if and only if no stale word
      in an absent slot of an interior table leads to a present entry.  None does if the frames that
      are taken held no present word. */
  lemma CopyTranslatesIffNothingStray(s: Machine, roles: seq<Role>, r: nat)
    requires Dirty(s, roles) && IsRoot(roles, r) && CopySpace(s, r).Some?
    ensures CreateEmpty(s).Some?
    ensures var (n, s') := CopySpace(s, r).value;
      var m := CreateEmpty(s).value.1.mem;
      && (forall g: nat :: !Frames.Free(s.pmm, g) ==> SameFrame(s.mem, s'.mem, g))
      && (TranslatesAlike(s.mem, r, s'.mem, n) <==> NothingStray(m, s'.mem, n, r))
      && (TakenClean(s.mem, s.pmm, s'.pmm) ==> NothingStray(m, s'.mem, n, r))
  {
    hide Present, Huge, Fr, CopyTable, Get, Stray, Layout, Frames.Valid, SourcePath, CopiedPath, SameTranslation,
      TakenClean;
    var (n, s1) := CreateEmpty(s).value;
    EmptyConfined(s);
    CopyTableConfined(s1, n, r, 4);
    var s' := CopyTable(s1, n, r, 4).value;
    forall w: nat | w < LOWER
      ensures SameTranslation(Get(s.mem, r, 4, w), Get(s'.mem, n, 4, w)) <==>
        !Present(Stray(s1.mem, s'.mem, n, r, 4, w))
      ensures TakenClean(s.mem, s.pmm, s'.pmm) ==> !Present(Stray(s1.mem, s'.mem, n, r, 4, w))
    {
      PageOfCopy(s, roles, r, w);
    }
  }

  lemma EmptyConfined(s: Machine)
    requires Frames.Valid(s.pmm) && CreateEmpty(s).Some?
    ensures var (n, s1) := CreateEmpty(s).value;
      && Frames.Valid(s1.pmm) && Frames.Free(s.pmm, n) && !Frames.Free(s1.pmm, n)
      && (forall g: nat :: Frames.Free(s1.pmm, g) ==> Frames.Free(s.pmm, g))
      && (forall g: nat :: g != n ==> SameFrame(s.mem, s1.mem, g))
      && (forall j: nat :: j < 256 ==> Rd(s1.mem, n, j) == 0)
  {
    AllocConfined(s);
  }

  // One page of the copy.
  lemma PageOfCopy(s: Machine, roles: seq<Role>, r: nat, w: nat)
    requires Dirty(s, roles) && IsRoot(roles, r) && CopySpace(s, r).Some? && w < LOWER
    ensures var (n, s') := CopySpace(s, r).value;
      var m := CreateEmpty(s).value.1.mem;
      && (SameTranslation(Get(s.mem, r, 4, w), Get(s'.mem, n, 4, w)) <==> !Present(Stray(m, s'.mem, n, r, 4, w)))
      && (TakenClean(s.mem, s.pmm, s'.pmm) ==> !Present(Stray(m, s'.mem, n, r, 4, w)))
  {
    hide Huge, Fr, CopyTable, Get, Stray, SourcePath, CopiedPath;
    var (n, s1) := CreateEmpty(s).value;
    var s' := CopyTable(s1, n, r, 4).value;
    EmptyConfined(s);
    assert NodeOk(roles, r);
    RootOnPath(roles, r, w);
    LayoutPath(s, roles, n, r, r, w);
    SourceStays(s.mem, s1.mem, s.pmm, s1.pmm, n, n, r, 4, w);
    CopyTablePath(s1, n, r, 4, w);
    CopiedGet(s1.mem, s'.mem, s1.pmm, s'.pmm, n, r, 4, w);
    ShiftBounds(w);
    if TakenClean(s.mem, s.pmm, s'.pmm) {
      forall g: nat | Frames.Free(s1.pmm, g) && !Frames.Free(s'.pmm, g)
        ensures CleanFrame(s1.mem, g)
      {
        assert SameFrame(s.mem, s1.mem, g);
      }
      CleanIsNotStray(s1.mem, s'.mem, s1.pmm, s'.pmm, n, r, 4, w);
    }
  }
}
