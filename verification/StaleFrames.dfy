/** When stale words in free frames matter to `paging_copy`: which frames it takes, that it copies
    faithfully if these are clean, and a machine on which it does not. */
module StaleFrames {
  import opened Options
  import opened PageTables
  import opened PageTableCopy
  import opened DirtyFrames
  import Frames

  // ----- the frames that are taken

  // k requests for one frame
  function Advance(p: Frames.State, k: nat): Option<Frames.State>
    decreases k
  {
    if k == 0 then Some(p)
    else
      var (_, p1) :- Frames.Request(p, 1);
      Advance(p1, k - 1)
  }

  lemma AdvanceNone(p: Frames.State)
    ensures Advance(p, 0) == Some(p)
  {
  }

  lemma {:induction false} AdvanceAdd(p: Frames.State, a: nat, b: nat)
    requires Advance(p, a).Some?
    ensures Advance(p, a + b) == Advance(Advance(p, a).value, b)
    decreases a
  {
    hide Frames.Request;
    if a > 0 {
      AdvanceAdd(Frames.Request(p, 1).value.1, a - 1, b);
    }
  }

  lemma {:induction false} AdvanceSucceeds(p: Frames.State, k: nat)
    requires Frames.Valid(p) && Frames.Available(p) >= k
    ensures Advance(p, k).Some?
    ensures var p' := Advance(p, k).value;
      && Frames.Valid(p') && Frames.Available(p') == Frames.Available(p) - k && Frames.Total(p') == Frames.Total(p)
    decreases k
  {
    hide Frames.Request, Frames.Valid, Frames.Available;
    if k > 0 {
      Frames.RequestOneEffect(p);
      AdvanceSucceeds(Frames.Request(p, 1).value.1, k - 1);
    }
  }

  // Frame f is one of the first k free frames from the hint on.
  predicate Ahead(p: Frames.State, k: nat, f: nat) {
    Frames.Free(p, f) && p.lastFree <= f && Frames.CountFree(p, p.lastFree, f) < k
  }

  // The frames that k requests take are the first k free ones from the hint on.
  lemma {:induction false} AdvanceTakes(p: Frames.State, k: nat, f: nat)
    requires Frames.Valid(p) && Advance(p, k).Some? && Frames.Free(p, f) && !Frames.Free(Advance(p, k).value, f)
    ensures Ahead(p, k, f)
    decreases k
  {
    hide Frames.Request, Frames.Valid, Frames.Available;
    if k > 0 {
      Frames.RequestOneEffect(p);
      var (n, p1) := Frames.Request(p, 1).value;
      Frames.CountZero(p, p.lastFree, n);
      if f != n {
        assert Frames.Free(p1, f);
        AdvanceTakes(p1, k - 1, f);
        Frames.CountSplit(p, p.lastFree, n, f);
        Frames.CountSplit(p, n, n + 1, f);
        Frames.CountLocal(p, p1, n + 1, f);
        OneFree(p, n);
      }
    }
  }

  lemma OneFree(p: Frames.State, n: nat)
    requires Frames.Free(p, n)
    ensures Frames.CountFree(p, n, n + 1) == 1
  {
    assert Frames.CountFree(p, n, n) == 0;
  }

  // ----- the tables that are copied

  // All tables from src down are in use, and dst is none of them.
  ghost predicate UsedTree(m: seq<nat>, p: Frames.State, dst: nat, src: nat, level: nat)
    requires level > 0
    decreases level
  {
    && InMemory(m, src) && !Frames.Free(p, src) && src != dst
    && (level > 1 ==> forall j: nat :: j < Slots(level) && Present(Rd(m, src, j)) ==>
          UsedTree(m, p, dst, Fr(Rd(m, src, j)), level - 1))
  }

  // Memory that keeps the frames in use, other than dst.
  ghost predicate Keeps(m: seq<nat>, m': seq<nat>, p: Frames.State, p': Frames.State, dst: nat, dst': nat) {
    && |m'| == |m|
    && (forall g: nat :: !Frames.Free(p, g) && g != dst ==> SameFrame(m, m', g))
    && (forall g: nat :: Frames.Free(p', g) ==> Frames.Free(p, g))
    && (dst' == dst || Frames.Free(p, dst'))
  }

  lemma {:induction false} TreeStays(m: seq<nat>, m': seq<nat>, p: Frames.State, p': Frames.State,
                                     dst: nat, dst': nat, src: nat, level: nat)
    requires level > 0 && UsedTree(m, p, dst, src, level) && Keeps(m, m', p, p', dst, dst')
    ensures UsedTree(m', p', dst', src, level) && Tables(m', src, level) == Tables(m, src, level)
    decreases level, 513
  {
    hide Present, Fr, Keeps;
    TopStays(m, m', p, p', dst, dst', src);
    if level > 1 {
      TreeStaysFrom(m, m', p, p', dst, dst', src, level, 0);
    }
  }

  lemma TopStays(m: seq<nat>, m': seq<nat>, p: Frames.State, p': Frames.State, dst: nat, dst': nat, src: nat)
    requires InMemory(m, src) && !Frames.Free(p, src) && src != dst && Keeps(m, m', p, p', dst, dst')
    ensures InMemory(m', src) && !Frames.Free(p', src) && src != dst' && SameFrame(m, m', src)
  {
  }

  lemma {:induction false} TreeStaysFrom(m: seq<nat>, m': seq<nat>, p: Frames.State, p': Frames.State,
                                         dst: nat, dst': nat, src: nat, level: nat, i: nat)
    requires level > 1 && i <= Slots(level) && Keeps(m, m', p, p', dst, dst')
    requires UsedTree(m, p, dst, src, level)
    ensures TablesFrom(m', src, level, i) == TablesFrom(m, src, level, i)
    ensures forall j: nat :: i <= j < Slots(level) && Present(Rd(m', src, j)) ==>
      UsedTree(m', p', dst', Fr(Rd(m', src, j)), level - 1)
    decreases level, 512 - i
  {
    hide Present, Fr, Keeps;
    TopStays(m, m', p, p', dst, dst', src);
    if i < Slots(level) {
      assert Rd(m', src, i) == Rd(m, src, i);
      if Present(Rd(m, src, i)) {
        TreeStays(m, m', p, p', dst, dst', Fr(Rd(m, src, i)), level - 1);
      }
      TreeStaysFrom(m, m', p, p', dst, dst', src, level, i + 1);
    }
  }

  // ----- the cost of a copy, on any memory

  lemma AllocOne(s: Machine)
    requires Frames.Valid(s.pmm) && |s.mem| == 512 * Frames.Total(s.pmm)
    ensures Alloc(s).Some? <==> Frames.Available(s.pmm) > 0
    ensures Alloc(s).Some? ==> var (f, s1) := Alloc(s).value;
      && Advance(s.pmm, 1) == Some(s1.pmm) && s1 == s.(pmm := s1.pmm)
      && Frames.Available(s1.pmm) == Frames.Available(s.pmm) - 1 && Frames.Total(s1.pmm) == Frames.Total(s.pmm)
      && InMemory(s.mem, f)
  {
    Frames.RequestOneEffect(s.pmm);
    if Frames.Request(s.pmm, 1).Some? {
      AdvanceNone(Frames.Request(s.pmm, 1).value.1);
    }
  }

  // The result of taking n frames, as far as they are available.
  ghost predicate Took(s: Machine, s': Option<Machine>, n: nat) {
    && (s'.Some? <==> Frames.Available(s.pmm) >= n)
    && (s'.Some? ==>
          && Advance(s.pmm, n) == Some(s'.value.pmm)
          && Frames.Available(s'.value.pmm) == Frames.Available(s.pmm) - n
          && Frames.Total(s'.value.pmm) == Frames.Total(s.pmm))
  }

  /** paging_copy_recursive takes exactly the tables of the source, whatever free frames contain, and
      fails exactly if there are not enough. */
  lemma {:induction false} CopyTableTakes(s: Machine, dst: nat, src: nat, level: nat)
    requires Frames.Valid(s.pmm) && |s.mem| == 512 * Frames.Total(s.pmm)
    requires level > 0 && InMemory(s.mem, dst) && !Frames.Free(s.pmm, dst) && UsedTree(s.mem, s.pmm, dst, src, level)
    ensures Took(s, CopyTable(s, dst, src, level), Tables(s.mem, src, level))
    decreases level, 513
  {
    hide Present, Fr, Frames.Valid, Advance;
    AdvanceNone(s.pmm);
    if level > 1 {
      CopySlotsTakes(s, dst, src, level, 0);
    }
  }

  lemma {:induction false} CopySlotsTakes(s: Machine, dst: nat, src: nat, level: nat, i: nat)
    requires Frames.Valid(s.pmm) && |s.mem| == 512 * Frames.Total(s.pmm)
    requires level > 1 && i <= Slots(level) && InMemory(s.mem, dst) && !Frames.Free(s.pmm, dst)
    requires UsedTree(s.mem, s.pmm, dst, src, level)
    ensures Took(s, CopySlots(s, dst, src, level, i), TablesFrom(s.mem, src, level, i))
    decreases level, 512 - i
  {
    hide Present, Fr, Frames.Valid, Frames.Free, Frames.Available, Frames.Total, Keeps, Advance, Alloc, CopyTable;
    AdvanceNone(s.pmm);
    AllocOne(s);
    if i < Slots(level) {
      var e := Rd(s.mem, src, i);
      if !Present(e) {
        CopySlotsTakes(s, dst, src, level, i + 1);
      } else if Alloc(s).Some? {
        AllocConfined(s);
        var (f, s1) := Alloc(s).value;
        ChildTree(s, s1, dst, src, level, i, f);
        CopyTableTakes(s1, f, Fr(e), level - 1);
        if CopyTable(s1, f, Fr(e), level - 1).Some? {
          CopyTableConfined(s1, f, Fr(e), level - 1);
          var s2 := CopyTable(s1, f, Fr(e), level - 1).value;
          var s3 := s2.(mem := Put(s2.mem, dst, i, 0x1000 * f + e % 0x1000));
          RestOfTree(s, s1, s2, s3, dst, src, level, i, f);
          CopySlotsTakes(s3, dst, src, level, i + 1);
          TookTwice(s.pmm, s1.pmm, s2.pmm, Tables(s.mem, Fr(e), level - 1), TablesFrom(s.mem, src, level, i + 1));
          assert CopySlots(s, dst, src, level, i) == CopySlots(s3, dst, src, level, i + 1);
        }
      }
    }
  }

  lemma TookTwice(p: Frames.State, p1: Frames.State, p2: Frames.State, a: nat, b: nat)
    requires Advance(p, 1) == Some(p1) && Advance(p1, a) == Some(p2)
    ensures Advance(p, 1 + a + b) == Advance(p2, b)
  {
    hide Advance;
    AdvanceAdd(p, 1, a);
    AdvanceAdd(p, 1 + a, b);
  }

  // The subtree at slot i, seen from the frame f that its copy goes to.
  lemma ChildTree(s: Machine, s1: Machine, dst: nat, src: nat, level: nat, i: nat, f: nat)
    requires level > 1 && i < Slots(level) && UsedTree(s.mem, s.pmm, dst, src, level) && Present(Rd(s.mem, src, i))
    requires s1.mem == s.mem && Frames.Free(s.pmm, f)
    requires forall g: nat :: Frames.Free(s1.pmm, g) ==> Frames.Free(s.pmm, g)
    ensures UsedTree(s1.mem, s1.pmm, f, Fr(Rd(s.mem, src, i)), level - 1)
  {
    hide Fr;
    TreeStays(s.mem, s1.mem, s.pmm, s1.pmm, dst, f, Fr(Rd(s.mem, src, i)), level - 1);
  }

  // The whole tree once the copy of slot i is linked.
  lemma RestOfTree(s: Machine, s1: Machine, s2: Machine, s3: Machine, dst: nat, src: nat, level: nat, i: nat, f: nat)
    requires level > 1 && i < Slots(level) && UsedTree(s.mem, s.pmm, dst, src, level)
    requires !Frames.Free(s.pmm, dst) && Frames.Free(s.pmm, f) && !Frames.Free(s1.pmm, f) && s1.mem == s.mem
    requires forall g: nat :: Frames.Free(s1.pmm, g) ==> Frames.Free(s.pmm, g)
    requires Confined(s1, s2, f) && InMemory(s2.mem, dst)
    requires s3 == s2.(mem := Put(s2.mem, dst, i, 0x1000 * f + Rd(s.mem, src, i) % 0x1000))
    ensures UsedTree(s3.mem, s3.pmm, dst, src, level) && InMemory(s3.mem, dst) && !Frames.Free(s3.pmm, dst)
    ensures TablesFrom(s3.mem, src, level, i + 1) == TablesFrom(s.mem, src, level, i + 1)
    ensures Rd(s1.mem, src, i) == Rd(s2.mem, src, i) == Rd(s.mem, src, i)
  {
    hide Present, Fr, UsedTree, Tables, TablesFrom;
    SourceKept(s, s1, s2, s3, dst, src, level, i, f);
    TreeStays(s.mem, s3.mem, s.pmm, s3.pmm, dst, dst, src, level);
    TreeStaysFrom(s.mem, s3.mem, s.pmm, s3.pmm, dst, dst, src, level, i + 1);
  }

  lemma SourceKept(s: Machine, s1: Machine, s2: Machine, s3: Machine, dst: nat, src: nat, level: nat, i: nat, f: nat)
    requires level > 1 && i < 512 && UsedTree(s.mem, s.pmm, dst, src, level)
    requires !Frames.Free(s.pmm, dst) && Frames.Free(s.pmm, f) && !Frames.Free(s1.pmm, f) && s1.mem == s.mem
    requires forall g: nat :: Frames.Free(s1.pmm, g) ==> Frames.Free(s.pmm, g)
    requires Confined(s1, s2, f) && InMemory(s2.mem, dst)
    requires s3 == s2.(mem := Put(s2.mem, dst, i, 0x1000 * f + Rd(s.mem, src, i) % 0x1000))
    ensures Keeps(s.mem, s3.mem, s.pmm, s3.pmm, dst, dst) && SameFrame(s.mem, s2.mem, src)
  {
    hide Present, Fr;
    forall g: nat | !Frames.Free(s.pmm, g) && g != dst
      ensures SameFrame(s.mem, s3.mem, g)
    {
      assert SameFrame(s1.mem, s2.mem, g);
    }
  }

  // ----- the tables of an address space

  lemma {:induction false} LayoutTree(s: Machine, roles: seq<Role>, dst: nat, t: nat)
    requires Dirty(s, roles) && Frames.Free(s.pmm, dst)
    requires t < |roles| && roles[t].Node? && roles[t].space.User?
    ensures roles[t].level > 0 && UsedTree(s.mem, s.pmm, dst, t, roles[t].level)
    decreases roles[t].level
  {
    hide Present, Writable, UserBit, Huge, Fr;
    assert NodeOk(roles, t);
    var level := roles[t].level;
    if level > 1 {
      forall j: nat | j < Slots(level) && Present(Rd(s.mem, t, j))
        ensures UsedTree(s.mem, s.pmm, dst, Fr(Rd(s.mem, t, j)), level - 1)
      {
        assert SlotOk(s.mem, roles, t, j);
        LayoutTree(s, roles, dst, Fr(Rd(s.mem, t, j)));
      }
    }
  }

  lemma EmptyTakes(s: Machine)
    requires Frames.Valid(s.pmm) && |s.mem| == 512 * Frames.Total(s.pmm) && InMemory(s.mem, s.kernel)
    ensures CreateEmpty(s).Some? <==> Frames.Available(s.pmm) > 0
    ensures CreateEmpty(s).Some? ==> var (n, s1) := CreateEmpty(s).value;
      && Advance(s.pmm, 1) == Some(s1.pmm) && |s1.mem| == |s.mem| && InMemory(s1.mem, n)
      && Frames.Available(s1.pmm) == Frames.Available(s.pmm) - 1 && Frames.Total(s1.pmm) == Frames.Total(s.pmm)
  {
    AllocOne(s);
  }

  /** paging_copy, whatever free frames contain: it takes one frame for the top level and one for each
      table of the parent, and fails exactly if there are not that many. */
  lemma CopySpaceTakes(s: Machine, roles: seq<Role>, r: nat)
    requires Dirty(s, roles) && IsRoot(roles, r)
    ensures CopySpace(s, r).Some? <==> Frames.Available(s.pmm) >= 1 + Tables(s.mem, r, 4)
    ensures CopySpace(s, r).Some? ==> Advance(s.pmm, 1 + Tables(s.mem, r, 4)) == Some(CopySpace(s, r).value.1.pmm)
  {
    hide Present, Fr, Frames.Valid, Advance, UsedTree, Tables, CopyTable;
    EmptyTakes(s);
    if CreateEmpty(s).Some? {
      var (n, s1) := CreateEmpty(s).value;
      EmptyConfined(s);
      assert NodeOk(roles, r);
      LayoutTree(s, roles, n, r);
      TreeStays(s.mem, s1.mem, s.pmm, s1.pmm, n, n, r, 4);
      CopyTableTakes(s1, n, r, 4);
      AdvanceAdd(s.pmm, 1, Tables(s.mem, r, 4));
    }
  }

  // The first k free frames from the hint on hold no present word.
  ghost predicate CleanAhead(s: Machine, k: nat) {
    forall f: nat :: Ahead(s.pmm, k, f) ==> CleanFrame(s.mem, f)
  }

  /** A copy is faithful if the frames that it is going to take are clean, whatever others hold. */
  lemma CleanAheadCopiesFaithfully(s: Machine, roles: seq<Role>, r: nat)
    requires Dirty(s, roles) && IsRoot(roles, r)
    requires Frames.Available(s.pmm) >= 1 + Tables(s.mem, r, 4) && CleanAhead(s, 1 + Tables(s.mem, r, 4))
    ensures CopySpace(s, r).Some?
    ensures var (n, s') := CopySpace(s, r).value; TranslatesAlike(s.mem, r, s'.mem, n)
  {
    hide Present, Fr, Tables, CopySpace, TranslatesAlike, Layout, CleanFrame, Advance, Ahead;
    CopySpaceTakes(s, roles, r);
    CopyTranslatesIffNothingStray(s, roles, r);
    var (n, s') := CopySpace(s, r).value;
    forall g: nat | Frames.Free(s.pmm, g) && !Frames.Free(s'.pmm, g)
      ensures CleanFrame(s.mem, g)
    {
      AdvanceTakes(s.pmm, 1 + Tables(s.mem, r, 4), g);
    }
  }

  // ----- an address space that a copy does not keep

  // The level-3 table that covers page w in address space r.
  function Third(m: seq<nat>, r: nat, w: nat): nat {
    Fr(Rd(m, r, Idx(w, 4)))
  }

  // Page w is mapped and page v is not, for want of a level-2 table; below that level the walks
  // of the two go through the same slots.
  ghost predicate Beside(m: seq<nat>, r: nat, v: nat, w: nat) {
    && Idx(v, 4) == Idx(w, 4) && Idx(v, 2) == Idx(w, 2) && Idx(v, 1) == Idx(w, 1)
    && Present(Rd(m, r, Idx(w, 4))) && !Present(Rd(m, Third(m, r, w), Idx(v, 3)))
    && Present(Get(m, r, 4, w))
  }

  // Every free frame still holds the parent's own level-2 entry of page w where a walk of page v
  // looks for one.
  ghost predicate Stale(s: Machine, r: nat, v: nat, w: nat) {
    forall g: nat :: Frames.Free(s.pmm, g) ==> Rd(s.mem, g, Idx(v, 3)) == Rd(s.mem, Third(s.mem, r, w), Idx(w, 3))
  }

  // The copy then translates page v as page w: two pages of one frame, where the parent has one.
  lemma StaleFramesAliasAPage(s: Machine, roles: seq<Role>, r: nat, v: nat, w: nat)
    requires Dirty(s, roles) && IsRoot(roles, r) && CopySpace(s, r).Some? && v < LOWER && w < LOWER
    requires Beside(s.mem, r, v, w) && Stale(s, r, v, w)
    ensures Get(s.mem, r, 4, v) == 0
    ensures var (n, s') := CopySpace(s, r).value;
      Get(s'.mem, n, 4, v) == Get(s.mem, r, 4, w) && !TranslatesAlike(s.mem, r, s'.mem, n)
  {
    hide Present, Huge, Fr, CopyTable, Get, SourcePath, CopiedPath, Confined, Layout, Frames.Valid, Idx, Beside, Stale,
      NodeOk, SameTranslation;
    var (n, s1) := CreateEmpty(s).value;
    var s' := CopyTable(s1, n, r, 4).value;
    EmptyConfined(s);
    RootNode(s.mem, roles, s.kernel, r);
    RootOnPath(roles, r, v);
    RootOnPath(roles, r, w);
    LayoutPath(s, roles, n, r, r, v);
    LayoutPath(s, roles, n, r, r, w);
    SourceStays(s.mem, s1.mem, s.pmm, s1.pmm, n, n, r, 4, v);
    SourceStays(s.mem, s1.mem, s.pmm, s1.pmm, n, n, r, 4, w);
    CopyTablePath(s1, n, r, 4, v);
    CopyTableConfined(s1, n, r, 4);
    AliasOfWalk(s, s1, s', n, r, v, w);
    OneSided(s.mem, r, v, w);
    assert !SameTranslation(Get(s.mem, r, 4, v), Get(s'.mem, n, 4, v));
  }

  lemma OneSided(m: seq<nat>, r: nat, v: nat, w: nat)
    requires Beside(m, r, v, w)
    ensures !SameTranslation(0, Get(m, r, 4, w))
  {
  }

  lemma AliasOfWalk(s: Machine, s1: Machine, s': Machine, n: nat, r: nat, v: nat, w: nat)
    requires Beside(s.mem, r, v, w) && Stale(s, r, v, w)
    requires Frames.Free(s.pmm, n) && !Frames.Free(s1.pmm, n)
    requires forall g: nat :: Frames.Free(s1.pmm, g) ==> Frames.Free(s.pmm, g)
    requires forall g: nat :: g != n ==> SameFrame(s.mem, s1.mem, g)
    requires SourcePath(s.mem, s.pmm, n, r, 4, v) && SourcePath(s.mem, s.pmm, n, r, 4, w)
    requires CopiedPath(s1.mem, s'.mem, s1.pmm, s'.pmm, n, r, 4, v) && Confined(s1, s', n)
    ensures Get(s.mem, r, 4, v) == 0 && Get(s'.mem, n, 4, v) == Get(s.mem, r, 4, w)
  {
    hide Huge, Fr;
    var t := Third(s.mem, r, w);
    var e := Rd(s.mem, t, Idx(w, 3));
    assert SourcePath(s.mem, s.pmm, n, t, 3, w) && Present(e);
    assert SameFrame(s.mem, s1.mem, r) && SameFrame(s.mem, s1.mem, t);
    var x := Rd(s'.mem, n, Idx(v, 4));
    assert SameFrame(s.mem, s1.mem, Fr(x)) && Rd(s'.mem, Fr(x), Idx(v, 3)) == e;
    forall g: nat | !Frames.Free(s.pmm, g) && g != n
      ensures SameFrame(s.mem, s'.mem, g)
    {
      assert SameFrame(s.mem, s1.mem, g) && SameFrame(s1.mem, s'.mem, g);
    }
    SourceStays(s.mem, s'.mem, s.pmm, s'.pmm, n, n, Fr(e), 2, w);
    SameBelow(s'.mem, Fr(e), v, w);
  }

  lemma SameBelow(m: seq<nat>, t: nat, v: nat, w: nat)
    requires Idx(v, 2) == Idx(w, 2) && Idx(v, 1) == Idx(w, 1)
    ensures Get(m, t, 2, v) == Get(m, t, 2, w)
  {
    hide Present, Huge, Fr;
  }
}
