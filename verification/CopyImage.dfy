/** The memory that `paging_copy` leaves, in closed form over the memory and the allocator before the
    call, whatever free frames contain; and from it the exact condition, on the state before the
    call, under which the copy translates as the parent does. */
module CopyImages {
  import opened Options
  import opened PageTables
  import opened PageTableCopy
  import opened DirtyFrames
  import opened StaleFrames
  import Frames

  // ----- the frames in the order in which they are handed out

  // Frame g is one that single requests will hand out.
  predicate Coming(p: Frames.State, g: nat) {
    Frames.Free(p, g) && p.lastFree <= g
  }

  // How many are handed out before it.
  function Index(p: Frames.State, g: nat): nat {
    Frames.CountFree(p, p.lastFree, g)
  }

  // The frame that is handed out after k others.
  function Nth(p: Frames.State, k: nat): nat {
    match Advance(p, k)
    case None => 0
    case Some(q) => (match Frames.Request(q, 1) case None => 0 case Some((n, _)) => n)
  }

  lemma {:induction false} CountGrows(p: Frames.State, lo: nat, f: nat, g: nat)
    requires lo <= f < g && Frames.Free(p, f)
    ensures Frames.CountFree(p, lo, f) < Frames.CountFree(p, lo, g)
  {
    Frames.CountSplit(p, lo, f, g);
    Frames.CountSplit(p, f, f + 1, g);
    OneFree(p, f);
  }

  lemma IndexIsUnique(p: Frames.State, f: nat, g: nat)
    requires Coming(p, f) && Coming(p, g) && Index(p, f) == Index(p, g)
    ensures f == g
  {
    hide Frames.CountFree;
    if f < g { CountGrows(p, p.lastFree, f, g); }
    if g < f { CountGrows(p, p.lastFree, g, f); }
  }

  // k requests take the coming frames with the first k indices, and lower the index of the others.
  lemma {:induction false} AdvanceIndex(p: Frames.State, k: nat, g: nat)
    requires Frames.Valid(p) && Advance(p, k).Some?
    ensures var q := Advance(p, k).value;
      && Frames.Valid(q)
      && (Coming(q, g) <==> Coming(p, g) && k <= Index(p, g))
      && (Coming(q, g) ==> Index(q, g) == Index(p, g) - k)
      && (Frames.Free(q, g) ==> Frames.Free(p, g))
    decreases k
  {
    hide Frames.Valid, Frames.Request, Frames.CountFree;
    if k > 0 {
      var p1 := Frames.Request(p, 1).value.1;
      OneIndex(p, g);
      AdvanceIndex(p1, k - 1, g);
    }
  }

  lemma OneIndex(p: Frames.State, g: nat)
    requires Frames.Valid(p) && Frames.Request(p, 1).Some?
    ensures var (n, q) := Frames.Request(p, 1).value;
      && Frames.Valid(q) && Coming(p, n) && Index(p, n) == 0
      && (Coming(q, g) <==> Coming(p, g) && 1 <= Index(p, g))
      && (Coming(q, g) ==> Index(q, g) == Index(p, g) - 1)
      && (Frames.Free(q, g) ==> Frames.Free(p, g))
  {
    hide Frames.Valid, Frames.Request, Frames.CountFree;
    Frames.RequestOneEffect(p);
    var (n, q) := Frames.Request(p, 1).value;
    Frames.CountZero(p, p.lastFree, n);
    if Coming(p, g) && g != n {
      CountGrows(p, p.lastFree, n, g);
      Frames.CountSplit(p, p.lastFree, n, g);
      Frames.CountSplit(p, n, n + 1, g);
      OneFree(p, n);
      Frames.CountLocal(p, q, n + 1, g);
    }
  }

  // The next frame handed out after k requests.
  lemma NextIsNth(p: Frames.State, k: nat)
    requires Frames.Valid(p) && Advance(p, k).Some? && Frames.Request(Advance(p, k).value, 1).Some?
    ensures var f := Frames.Request(Advance(p, k).value, 1).value.0;
      f == Nth(p, k) && Coming(p, f) && Index(p, f) == k
  {
    hide Frames.Valid, Frames.Request, Frames.CountFree, Advance;
    var q := Advance(p, k).value;
    AdvanceIndex(p, k, Frames.Request(q, 1).value.0);
    OneIndex(q, 0);
  }

  // ----- which table goes to which frame

  // The tables under the slots from i up to j.
  function Between(m: seq<nat>, t: nat, level: nat, i: nat, j: nat): nat
    requires level > 0
    decreases j - i
  {
    if i >= j then 0
    else
      (if Present(Rd(m, t, i)) then 1 + Tables(m, Fr(Rd(m, t, i)), level - 1) else 0) + Between(m, t, level, i + 1, j)
  }

  // A source table, its level, and the index of the frame for the first table below it.
  datatype Source = Source(table: nat, level: nat, next: nat)

  // The table under the slots of t from i on whose copy goes to the frame with index q, when the first
  // of them goes to that with index c.
  function SourceOf(m: seq<nat>, t: nat, level: nat, i: nat, c: nat, q: nat): Option<Source>
    requires level > 0
    decreases level, 512 - i
  {
    if level == 1 || i >= Slots(level) then None
    else
      var e := Rd(m, t, i);
      if !Present(e) then SourceOf(m, t, level, i + 1, c, q)
      else if q == c then Some(Source(Fr(e), level - 1, c + 1))
      else if q < c + 1 + Tables(m, Fr(e), level - 1) then SourceOf(m, Fr(e), level - 1, 0, c + 1, q)
      else SourceOf(m, t, level, i + 1, c + 1 + Tables(m, Fr(e), level - 1), q)
  }

  // The word that the frame of the copy holds in slot j: a link to the copy of the table below, or what
  // the frame held before.
  function CopyWord(m: seq<nat>, p: Frames.State, src: Source, g: nat, j: nat): nat
    requires src.level > 0
  {
    var e := Rd(m, src.table, j);
    if src.level == 1 then e
    else if j < Slots(src.level) && Present(e) then
      0x1000 * Nth(p, src.next + Between(m, src.table, src.level, 0, j)) + e % 0x1000
    else Rd(m, g, j)
  }

  predicate Within(p: Frames.State, a: nat, n: nat, g: nat) {
    Coming(p, g) && a <= Index(p, g) < a + n
  }

  // The frames for the tables under the slots of src from i on, which start at index a.
  function BelowWord(m: seq<nat>, p: Frames.State, a: nat, src: nat, level: nat, i: nat, n: nat, g: nat, j: nat): nat
    requires level > 0
  {
    match if Within(p, a, n, g) then SourceOf(m, src, level, i, a, Index(p, g)) else None
    case None => Rd(m, g, j)
    case Some(x) => if x.level > 0 then CopyWord(m, p, x, g, j) else 0
  }

  // Slot j of frame g once table src has been copied to dst, with the frames from index a on.
  function TableWord(m: seq<nat>, p: Frames.State, a: nat, dst: nat, src: nat, level: nat, g: nat, j: nat): nat
    requires level > 0
  {
    if g == dst then CopyWord(m, p, Source(src, level, a), dst, j)
    else BelowWord(m, p, a, src, level, 0, Tables(m, src, level), g, j)
  }

  function SlotsWord(m: seq<nat>, p: Frames.State, a: nat, dst: nat, src: nat, level: nat, i: nat, g: nat, j: nat): nat
    requires level > 1 && i <= Slots(level)
  {
    if g == dst then
      var e := Rd(m, src, j);
      if i <= j < Slots(level) && Present(e) then 0x1000 * Nth(p, a + Between(m, src, level, i, j)) + e % 0x1000
      else Rd(m, dst, j)
    else BelowWord(m, p, a, src, level, i, TablesFrom(m, src, level, i), g, j)
  }

  // ----- tables in use keep their part in this

  lemma {:induction false} SourceIsUsed(m: seq<nat>, p: Frames.State, dst: nat, t: nat, level: nat,
                                        i: nat, c: nat, q: nat)
    requires level > 0 && UsedTree(m, p, dst, t, level)
    ensures var x := SourceOf(m, t, level, i, c, q);
      x.Some? ==> 0 < x.value.level < level && UsedTree(m, p, dst, x.value.table, x.value.level)
    decreases level, 512 - i
  {
    hide Present, Fr, Tables;
    if level > 1 && i < Slots(level) {
      SourceIsUsed(m, p, dst, t, level, i + 1, c, q);
      var e := Rd(m, t, i);
      if Present(e) {
        SourceIsUsed(m, p, dst, Fr(e), level - 1, 0, c + 1, q);
        SourceIsUsed(m, p, dst, t, level, i + 1, c + 1 + Tables(m, Fr(e), level - 1), q);
      }
    }
  }

  lemma {:induction false} SourceStays(m: seq<nat>, m': seq<nat>, p: Frames.State, p': Frames.State,
                                       dst: nat, dst': nat, t: nat, level: nat, i: nat, c: nat, q: nat)
    requires level > 0 && UsedTree(m, p, dst, t, level) && Keeps(m, m', p, p', dst, dst')
    ensures SourceOf(m', t, level, i, c, q) == SourceOf(m, t, level, i, c, q)
    decreases level, 512 - i
  {
    hide Present, Fr, Tables, Keeps;
    if level > 1 && i < Slots(level) {
      TopStays(m, m', p, p', dst, dst', t);
      var e := Rd(m, t, i);
      assert Rd(m', t, i) == e;
      if !Present(e) {
        SourceStays(m, m', p, p', dst, dst', t, level, i + 1, c, q);
      } else {
        TreeStays(m, m', p, p', dst, dst', Fr(e), level - 1);
        SourceStays(m, m', p, p', dst, dst', Fr(e), level - 1, 0, c + 1, q);
        SourceStays(m, m', p, p', dst, dst', t, level, i + 1, c + 1 + Tables(m, Fr(e), level - 1), q);
      }
    }
  }

  lemma {:induction false} BetweenStays(m: seq<nat>, m': seq<nat>, p: Frames.State, p': Frames.State,
                                        dst: nat, dst': nat, t: nat, level: nat, i: nat, j: nat)
    requires level > 1 && UsedTree(m, p, dst, t, level) && Keeps(m, m', p, p', dst, dst') && j <= Slots(level)
    ensures Between(m', t, level, i, j) == Between(m, t, level, i, j)
    decreases j - i
  {
    hide Present, Fr, Tables, Keeps;
    if i < j {
      TopStays(m, m', p, p', dst, dst', t);
      var e := Rd(m, t, i);
      assert Rd(m', t, i) == e;
      if Present(e) {
        TreeStays(m, m', p, p', dst, dst', Fr(e), level - 1);
      }
      BetweenStays(m, m', p, p', dst, dst', t, level, i + 1, j);
    }
  }

  lemma CopyWordStays(m: seq<nat>, m': seq<nat>, p: Frames.State, p': Frames.State, dst: nat, dst': nat,
                      base: Frames.State, x: Source, g: nat, j: nat)
    requires x.level > 0 && UsedTree(m, p, dst, x.table, x.level) && Keeps(m, m', p, p', dst, dst')
    requires j < 512 && Rd(m', g, j) == Rd(m, g, j)
    ensures CopyWord(m', base, x, g, j) == CopyWord(m, base, x, g, j)
  {
    hide Present, Fr, Tables, Keeps, Between, Nth, UsedTree;
    UsedTop(m, p, dst, x.table, x.level);
    TopStays(m, m', p, p', dst, dst', x.table);
    if x.level > 1 && j < Slots(x.level) {
      BetweenStays(m, m', p, p', dst, dst', x.table, x.level, 0, j);
    }
  }

  lemma UsedTop(m: seq<nat>, p: Frames.State, dst: nat, t: nat, level: nat)
    requires level > 0 && UsedTree(m, p, dst, t, level)
    ensures InMemory(m, t) && !Frames.Free(p, t) && t != dst
  {
  }

  // The words of frames for tables below are the same over memory that keeps the tables and the frame.
  lemma BelowWordStays(m: seq<nat>, m': seq<nat>, p: Frames.State, p': Frames.State, dst: nat, dst': nat,
                       base: Frames.State, a: nat, src: nat, level: nat, i: nat, n: nat, g: nat, j: nat)
    requires level > 0 && UsedTree(m, p, dst, src, level) && Keeps(m, m', p, p', dst, dst')
    requires j < 512 && Rd(m', g, j) == Rd(m, g, j)
    ensures BelowWord(m', base, a, src, level, i, n, g, j) == BelowWord(m, base, a, src, level, i, n, g, j)
  {
    hide Present, Fr, Tables, Keeps, UsedTree, CopyWord, SourceOf, Coming, Index;
    SourceStays(m, m', p, p', dst, dst', src, level, i, a, Index(base, g));
    SourceIsUsed(m, p, dst, src, level, i, a, Index(base, g));
    var x := SourceOf(m, src, level, i, a, Index(base, g));
    if x.Some? {
      CopyWordStays(m, m', p, p', dst, dst', base, x.value, g, j);
    }
  }

  // ----- the recursive copy

  lemma {:induction false} CopyTableWords(s: Machine, base: Frames.State, a: nat, dst: nat, src: nat, level: nat)
    requires Frames.Valid(base) && Advance(base, a) == Some(s.pmm)
    requires |s.mem| == 512 * Frames.Total(s.pmm) && level > 0 && InMemory(s.mem, dst) && !Frames.Free(s.pmm, dst)
    requires UsedTree(s.mem, s.pmm, dst, src, level) && CopyTable(s, dst, src, level).Some?
    ensures var m' := CopyTable(s, dst, src, level).value.mem;
      forall g: nat, j: nat :: j < 512 ==> Rd(m', g, j) == TableWord(s.mem, base, a, dst, src, level, g, j)
    decreases level, 513
  {
    hide Frames.Valid, Frames.Free, Frames.Total, Coming, Index, Nth, Between, Present, Fr;
    if level == 1 {
      LeafWords(s.mem, base, a, dst, src);
    } else {
      CopySlotsWords(s, base, a, dst, src, level, 0);
      forall g: nat, j: nat | j < 512
        ensures SlotsWord(s.mem, base, a, dst, src, level, 0, g, j) == TableWord(s.mem, base, a, dst, src, level, g, j)
      {
        WholeTable(s.mem, base, a, dst, src, level, g, j);
      }
    }
  }

  lemma LeafWords(m: seq<nat>, base: Frames.State, a: nat, dst: nat, src: nat)
    ensures forall g: nat, j: nat ::
      TableWord(m, base, a, dst, src, 1, g, j) == if g == dst then Rd(m, src, j) else Rd(m, g, j)
  {
    hide Coming, Index, Nth;
  }

  lemma WholeTable(m: seq<nat>, base: Frames.State, a: nat, dst: nat, src: nat, level: nat, g: nat, j: nat)
    requires level > 1
    ensures SlotsWord(m, base, a, dst, src, level, 0, g, j) == TableWord(m, base, a, dst, src, level, g, j)
  {
    hide Coming, Index, Nth, Between, Present, Fr, BelowWord;
  }

  lemma {:induction false} CopySlotsWords(s: Machine, base: Frames.State, a: nat, dst: nat, src: nat, level: nat,
                                          i: nat)
    requires Frames.Valid(base) && Advance(base, a) == Some(s.pmm)
    requires |s.mem| == 512 * Frames.Total(s.pmm) && level > 1 && i <= Slots(level)
    requires InMemory(s.mem, dst) && !Frames.Free(s.pmm, dst)
    requires UsedTree(s.mem, s.pmm, dst, src, level) && CopySlots(s, dst, src, level, i).Some?
    ensures var m' := CopySlots(s, dst, src, level, i).value.mem;
      forall g: nat, j: nat :: j < 512 ==> Rd(m', g, j) == SlotsWord(s.mem, base, a, dst, src, level, i, g, j)
    decreases level, 512 - i
  {
    hide Frames.Valid, Frames.Free, Frames.Total, Coming, Index, Nth, Between, Present, Fr, Advance, Alloc, CopyTable,
      SlotsWord, TableWord, Keeps;
    if i == Slots(level) {
      forall g: nat, j: nat | j < 512
        ensures SlotsWord(s.mem, base, a, dst, src, level, i, g, j) == Rd(s.mem, g, j)
      {
        NoSlots(s.mem, base, a, dst, src, level, g, j);
      }
    } else {
      var e := Rd(s.mem, src, i);
      if !Present(e) {
        CopySlotsWords(s, base, a, dst, src, level, i + 1);
        forall g: nat, j: nat | j < 512
          ensures SlotsWord(s.mem, base, a, dst, src, level, i, g, j)
            == SlotsWord(s.mem, base, a, dst, src, level, i + 1, g, j)
        {
          AbsentSlot(s.mem, base, a, dst, src, level, i, g, j);
        }
      } else {
        AdvanceIndex(base, a, dst);
        PresentSlotWords(s, base, a, dst, src, level, i);
      }
    }
  }

  lemma NoSlots(m: seq<nat>, base: Frames.State, a: nat, dst: nat, src: nat, level: nat, g: nat, j: nat)
    requires level > 1
    ensures SlotsWord(m, base, a, dst, src, level, Slots(level), g, j) == Rd(m, g, j)
  {
    hide Coming, Index, Nth, Between, Present, Fr, SourceOf;
  }

  lemma AbsentSlot(m: seq<nat>, base: Frames.State, a: nat, dst: nat, src: nat, level: nat, i: nat, g: nat, j: nat)
    requires level > 1 && i < Slots(level) && !Present(Rd(m, src, i))
    ensures SlotsWord(m, base, a, dst, src, level, i, g, j) == SlotsWord(m, base, a, dst, src, level, i + 1, g, j)
  {
    hide Coming, Index, Nth, Present, Fr, Tables;
  }

  // The slot of a table that is copied, and the slots after it.
  lemma {:induction false} PresentSlotWords(s: Machine, base: Frames.State, a: nat, dst: nat, src: nat, level: nat,
                                            i: nat)
    requires Frames.Valid(base) && Advance(base, a) == Some(s.pmm) && Frames.Valid(s.pmm)
    requires |s.mem| == 512 * Frames.Total(s.pmm) && level > 1 && i < Slots(level)
    requires InMemory(s.mem, dst) && !Frames.Free(s.pmm, dst) && Present(Rd(s.mem, src, i))
    requires UsedTree(s.mem, s.pmm, dst, src, level) && CopySlots(s, dst, src, level, i).Some?
    ensures var m' := CopySlots(s, dst, src, level, i).value.mem;
      forall g: nat, j: nat :: j < 512 ==> Rd(m', g, j) == SlotsWord(s.mem, base, a, dst, src, level, i, g, j)
    decreases level, 512 - i, 0
  {
    hide Frames.Valid, Frames.Free, Frames.Total, Frames.Available, Coming, Index, Nth, Between, Present, Fr, Advance,
      Alloc, CopyTable, SlotsWord, TableWord, Keeps, Confined;
    var e := Rd(s.mem, src, i);
    AllocOne(s);
    AllocConfined(s);
    var (f, s1) := Alloc(s).value;
    ChildTree(s, s1, dst, src, level, i, f);
    CopyTableTakes(s1, f, Fr(e), level - 1);
    CopyTableConfined(s1, f, Fr(e), level - 1);
    var s2 := CopyTable(s1, f, Fr(e), level - 1).value;
    ConfinedFacts(s1, s2, f, dst);
    var s3 := s2.(mem := Put(s2.mem, dst, i, 0x1000 * f + e % 0x1000));
    RestOfTree(s, s1, s2, s3, dst, src, level, i, f);
    SourceKept(s, s1, s2, s3, dst, src, level, i, f);
    assert CopySlots(s, dst, src, level, i) == CopySlots(s3, dst, src, level, i + 1);
    var taken := Tables(s.mem, Fr(e), level - 1);
    AdvanceAdd(base, a, 1);
    AdvanceAdd(base, a + 1, taken);
    CopyTableWords(s1, base, a + 1, f, Fr(e), level - 1);
    CopySlotsWords(s3, base, a + 1 + taken, dst, src, level, i + 1);
    FirstIsNth(s, base, a);
    AdvanceIndex(base, a, dst);
    NotComing(s.pmm, dst);
    forall g: nat, j: nat | j < 512
      ensures SlotsWord(s3.mem, base, a + 1 + taken, dst, src, level, i + 1, g, j)
        == SlotsWord(s.mem, base, a, dst, src, level, i, g, j)
    {
      LinkedSlot(s, s2, s3, base, a, dst, src, level, i, f, g, j);
    }
  }

  lemma NotComing(p: Frames.State, g: nat)
    requires !Frames.Free(p, g)
    ensures !Coming(p, g)
  {
  }

  lemma ConfinedFacts(s1: Machine, s2: Machine, f: nat, dst: nat)
    requires Confined(s1, s2, f) && InMemory(s1.mem, dst)
    ensures Frames.Valid(s2.pmm) && |s2.mem| == |s1.mem| && InMemory(s2.mem, dst)
  {
  }

  lemma FirstIsNth(s: Machine, base: Frames.State, a: nat)
    requires Frames.Valid(base) && Advance(base, a) == Some(s.pmm) && Alloc(s).Some?
    ensures var f := Alloc(s).value.0; f == Nth(base, a) && Coming(base, f) && Index(base, f) == a
  {
    hide Frames.Valid, Frames.Request, Coming, Index, Nth, Advance;
    NextIsNth(base, a);
  }

  // One word after the copy of slot i and of those that follow it.
  lemma LinkedSlot(s: Machine, s2: Machine, s3: Machine, base: Frames.State, a: nat, dst: nat, src: nat, level: nat,
                   i: nat, f: nat, g: nat, j: nat)
    requires level > 1 && i < Slots(level) && j < 512 && Present(Rd(s.mem, src, i))
    requires UsedTree(s.mem, s.pmm, dst, src, level) && Keeps(s.mem, s3.mem, s.pmm, s3.pmm, dst, dst)
    requires InMemory(s2.mem, dst) && f != dst && f == Nth(base, a) && Coming(base, f) && Index(base, f) == a
    requires !Coming(base, dst) || Index(base, dst) < a
    requires var e := Rd(s.mem, src, i);
      && s3.mem == Put(s2.mem, dst, i, 0x1000 * f + e % 0x1000)
      && (forall h: nat, k: nat :: k < 512 ==>
            Rd(s2.mem, h, k) == TableWord(s.mem, base, a + 1, f, Fr(e), level - 1, h, k))
      && TablesFrom(s3.mem, src, level, i + 1) == TablesFrom(s.mem, src, level, i + 1)
    ensures var taken := Tables(s.mem, Fr(Rd(s.mem, src, i)), level - 1);
      SlotsWord(s3.mem, base, a + 1 + taken, dst, src, level, i + 1, g, j)
        == SlotsWord(s.mem, base, a, dst, src, level, i, g, j)
  {
    hide Coming, Index, Nth, Between, Present, Fr, Keeps, UsedTree, CopyWord, SourceOf, Tables;
    var e := Rd(s.mem, src, i);
    var taken := Tables(s.mem, Fr(e), level - 1);
    if g == dst {
      LinkedOwn(s, s2, s3, base, a, dst, src, level, i, f, j);
    } else {
      LinkedBelow(s, s2, s3, base, a, dst, src, level, i, f, g, j);
    }
  }

  // The slots of the copied table itself.
  lemma LinkedOwn(s: Machine, s2: Machine, s3: Machine, base: Frames.State, a: nat, dst: nat, src: nat, level: nat,
                  i: nat, f: nat, j: nat)
    requires level > 1 && i < Slots(level) && j < 512 && Present(Rd(s.mem, src, i))
    requires UsedTree(s.mem, s.pmm, dst, src, level) && Keeps(s.mem, s3.mem, s.pmm, s3.pmm, dst, dst)
    requires InMemory(s2.mem, dst) && f != dst && f == Nth(base, a)
    requires !Coming(base, dst) || Index(base, dst) < a
    requires var e := Rd(s.mem, src, i);
      && s3.mem == Put(s2.mem, dst, i, 0x1000 * f + e % 0x1000)
      && Rd(s2.mem, dst, j) == TableWord(s.mem, base, a + 1, f, Fr(e), level - 1, dst, j)
    ensures var taken := Tables(s.mem, Fr(Rd(s.mem, src, i)), level - 1);
      SlotsWord(s3.mem, base, a + 1 + taken, dst, src, level, i + 1, dst, j)
        == SlotsWord(s.mem, base, a, dst, src, level, i, dst, j)
  {
    hide Coming, Index, Nth, Present, Fr, Keeps, UsedTree, CopyWord, SourceOf, Tables;
    UsedTop(s.mem, s.pmm, dst, src, level);
    TopStays(s.mem, s3.mem, s.pmm, s3.pmm, dst, dst, src);
    if j < Slots(level) {
      BetweenStays(s.mem, s3.mem, s.pmm, s3.pmm, dst, dst, src, level, i + 1, j);
    }
  }

  // The frames of the tables below.
  lemma LinkedBelow(s: Machine, s2: Machine, s3: Machine, base: Frames.State, a: nat, dst: nat, src: nat, level: nat,
                    i: nat, f: nat, g: nat, j: nat)
    requires level > 1 && i < Slots(level) && j < 512 && Present(Rd(s.mem, src, i)) && g != dst
    requires UsedTree(s.mem, s.pmm, dst, src, level) && Keeps(s.mem, s3.mem, s.pmm, s3.pmm, dst, dst)
    requires InMemory(s2.mem, dst) && Coming(base, f) && Index(base, f) == a
    requires var e := Rd(s.mem, src, i);
      && s3.mem == Put(s2.mem, dst, i, 0x1000 * f + e % 0x1000)
      && Rd(s2.mem, g, j) == TableWord(s.mem, base, a + 1, f, Fr(e), level - 1, g, j)
      && TablesFrom(s3.mem, src, level, i + 1) == TablesFrom(s.mem, src, level, i + 1)
    ensures var taken := Tables(s.mem, Fr(Rd(s.mem, src, i)), level - 1);
      SlotsWord(s3.mem, base, a + 1 + taken, dst, src, level, i + 1, g, j)
        == SlotsWord(s.mem, base, a, dst, src, level, i, g, j)
  {
    hide Coming, Index, Nth, Between, Present, Fr, Keeps, UsedTree, CopyWord, Tables;
    var e := Rd(s.mem, src, i);
    var taken := Tables(s.mem, Fr(e), level - 1);
    if Coming(base, g) && Index(base, g) == a {
      IndexIsUnique(base, f, g);
    }
    if Within(base, a + 1 + taken, TablesFrom(s.mem, src, level, i + 1), g) {
      BelowWordStays(s.mem, s3.mem, s.pmm, s3.pmm, dst, dst, base, a + 1 + taken, src, level, i + 1,
        TablesFrom(s.mem, src, level, i + 1), g, j);
    }
  }

  // ----- registers and cache

  ghost predicate OnlyMemory(s: Machine, s': Machine) {
    s' == s.(mem := s'.mem, pmm := s'.pmm)
  }

  lemma {:induction false} CopyTableOnlyMemory(s: Machine, dst: nat, src: nat, level: nat)
    requires level > 0 && CopyTable(s, dst, src, level).Some?
    ensures OnlyMemory(s, CopyTable(s, dst, src, level).value)
    decreases level, 513
  {
    if level > 1 {
      CopySlotsOnlyMemory(s, dst, src, level, 0);
    }
  }

  lemma {:induction false} CopySlotsOnlyMemory(s: Machine, dst: nat, src: nat, level: nat, i: nat)
    requires level > 1 && i <= Slots(level) && CopySlots(s, dst, src, level, i).Some?
    ensures OnlyMemory(s, CopySlots(s, dst, src, level, i).value)
    decreases level, 512 - i
  {
    hide Present, Fr, CopyTable, Put;
    if i < Slots(level) {
      var e := Rd(s.mem, src, i);
      if !Present(e) {
        CopySlotsOnlyMemory(s, dst, src, level, i + 1);
      } else {
        var (f, s1) := Alloc(s).value;
        CopyTableOnlyMemory(s1, f, Fr(e), level - 1);
        var s2 := CopyTable(s1, f, Fr(e), level - 1).value;
        var m := Put(s2.mem, dst, i, 0x1000 * f + Rd(s2.mem, src, i) % 0x1000);
        CopySlotsOnlyMemory(s2.(mem := m), dst, src, level, i + 1);
      }
    }
  }

  // ----- the whole address space

  // Slot j of frame g after paging_copy of address space r.
  function AfterWord(s: Machine, r: nat, g: nat, j: nat): nat {
    if g == Nth(s.pmm, 0) then
      if j >= 256 then Rd(s.mem, s.kernel, j)
      else if Present(Rd(s.mem, r, j)) then CopyWord(s.mem, s.pmm, Source(r, 4, 1), g, j)
      else 0
    else BelowWord(s.mem, s.pmm, 1, r, 4, 0, Tables(s.mem, r, 4), g, j)
  }

  function After(s: Machine, r: nat): seq<nat> {
    seq(|s.mem|, k requires 0 <= k => AfterWord(s, r, k / 512, k % 512))
  }

  lemma WordsOfCopy(s: Machine, roles: seq<Role>, r: nat, g: nat, j: nat)
    requires Dirty(s, roles) && IsRoot(roles, r) && CopySpace(s, r).Some? && j < 512
    ensures Rd(CopySpace(s, r).value.1.mem, g, j) == AfterWord(s, r, g, j)
  {
    hide Frames.Valid, Frames.Free, Coming, Index, Between, Present, Fr, Advance, CopyTable, CopyWord, SourceOf,
      UsedTree, Tables, Layout, Keeps, Nth;
    var (n, s1) := CreateEmpty(s).value;
    DirtySize(s, roles);
    EmptyTakes(s);
    EmptyConfined(s);
    EmptyUpper(s);
    RootNode(s.mem, roles, s.kernel, r);
    LayoutTree(s, roles, n, r);
    EmptyKeeps(s, s1, n);
    TreeStays(s.mem, s1.mem, s.pmm, s1.pmm, n, n, r, 4);
    CopyTableWords(s1, s.pmm, 1, n, r, 4);
    AdvanceNone(s.pmm);
    EmptyIsNth(s);
    UsedTop(s.mem, s.pmm, n, r, 4);
    assert SameFrame(s.mem, s1.mem, r);
    if g == n {
      assert Rd(s1.mem, r, j) == Rd(s.mem, r, j);
      RootWord(s.mem, s1.mem, s.pmm, s1.pmm, r, n, j);
    } else {
      assert SameFrame(s.mem, s1.mem, g);
      BelowWordStays(s.mem, s1.mem, s.pmm, s1.pmm, n, n, s.pmm, 1, r, 4, 0, Tables(s.mem, r, 4), g, j);
    }
  }

  lemma DirtySize(s: Machine, roles: seq<Role>)
    requires Dirty(s, roles)
    ensures |s.mem| == 512 * Frames.Total(s.pmm) && InMemory(s.mem, s.kernel) && !Frames.Free(s.pmm, s.kernel)
  {
    RootNode(s.mem, roles, s.kernel, s.kernel);
  }

  lemma EmptyUpper(s: Machine)
    requires CreateEmpty(s).Some?
    ensures var (n, s1) := CreateEmpty(s).value;
      forall j: nat :: 256 <= j < 512 ==> Rd(s1.mem, n, j) == if s.kernel == n then 0 else Rd(s.mem, s.kernel, j)
  {
  }

  lemma EmptyKeeps(s: Machine, s1: Machine, n: nat)
    requires |s1.mem| == |s.mem| && (forall g: nat :: g != n ==> SameFrame(s.mem, s1.mem, g))
    requires forall g: nat :: Frames.Free(s1.pmm, g) ==> Frames.Free(s.pmm, g)
    ensures Keeps(s.mem, s1.mem, s.pmm, s1.pmm, n, n)
  {
  }

  lemma EmptyIsNth(s: Machine)
    requires Frames.Valid(s.pmm) && CreateEmpty(s).Some?
    ensures CreateEmpty(s).value.0 == Nth(s.pmm, 0)
  {
    hide Frames.Valid, Frames.Request;
    AdvanceNone(s.pmm);
  }

  lemma RootWord(m: seq<nat>, m1: seq<nat>, p: Frames.State, p1: Frames.State, r: nat, n: nat, j: nat)
    requires UsedTree(m, p, n, r, 4) && Keeps(m, m1, p, p1, n, n) && j < 512 && Rd(m1, r, j) == Rd(m, r, j)
    ensures j < 256 && Present(Rd(m, r, j)) ==>
      CopyWord(m1, p, Source(r, 4, 1), n, j) == CopyWord(m, p, Source(r, 4, 1), n, j)
    ensures !(j < 256 && Present(Rd(m, r, j))) ==> CopyWord(m1, p, Source(r, 4, 1), n, j) == Rd(m1, n, j)
  {
    hide Present, Fr, Between, Nth, Keeps, UsedTree;
    if j < 256 {
      BetweenStays(m, m1, p, p1, n, n, r, 4, 0, j);
    }
  }

  /** What paging_copy does, on any memory, in terms of the state before it alone: the frame of the new
      top level, every word of memory, and the frames taken. */
  lemma CopySpaceIs(s: Machine, roles: seq<Role>, r: nat)
    requires Dirty(s, roles) && IsRoot(roles, r) && Frames.Available(s.pmm) >= 1 + Tables(s.mem, r, 4)
    ensures Advance(s.pmm, 1 + Tables(s.mem, r, 4)).Some?
    ensures CopySpace(s, r) ==
      Some((Nth(s.pmm, 0), s.(mem := After(s, r), pmm := Advance(s.pmm, 1 + Tables(s.mem, r, 4)).value)))
  {
    hide Frames.Valid, Present, Fr, Advance, CopyTable, AfterWord, UsedTree, Tables, Layout, Nth;
    CopySpaceTakes(s, roles, r);
    var (n, s1) := CreateEmpty(s).value;
    EmptyIsNth(s);
    EmptyConfined(s);
    CopyTableOnlyMemory(s1, n, r, 4);
    CopyTableConfined(s1, n, r, 4);
    var m' := CopySpace(s, r).value.1.mem;
    DirtySize(s, roles);
    EmptyTakes(s);
    forall k | 0 <= k < |s.mem|
      ensures m'[k] == After(s, r)[k]
    {
      WordsOfCopy(s, roles, r, k / 512, k % 512);
      assert 512 * (k / 512) + k % 512 == k;
    }
    assert m' == After(s, r);
  }

  // ----- the exact condition

  // The walk from the copy and the source depends on source tables only where it reads the memory before.
  lemma {:induction false} StrayStays(m: seq<nat>, m1: seq<nat>, m': seq<nat>, p: Frames.State, top: nat,
                                      dst: nat, src: nat, level: nat, w: nat)
    requires level > 0 && SourcePath(m, p, top, src, level, w)
    requires forall g: nat :: g != top ==> SameFrame(m, m1, g)
    ensures Stray(m1, m', dst, src, level, w) == Stray(m, m', dst, src, level, w)
    decreases level
  {
    hide Present, Huge, Fr, Get;
    assert SameFrame(m, m1, src);
    var e, x := Rd(m, src, Idx(w, level)), Rd(m', dst, Idx(w, level));
    if level > 1 && Present(e) {
      StrayStays(m, m1, m', p, top, Fr(x), Fr(e), level - 1, w);
    }
  }

  /** On any memory: the copy translates every page as the parent does if and only if, in the memory that
      `After` gives from the state before the call, no stale word in an absent slot of a copied table
      leads to a present entry. */
  lemma CopyTranslatesIffBefore(s: Machine, roles: seq<Role>, r: nat)
    requires Dirty(s, roles) && IsRoot(roles, r) && Frames.Available(s.pmm) >= 1 + Tables(s.mem, r, 4)
    ensures CopySpace(s, r).Some?
    ensures var (n, s') := CopySpace(s, r).value;
      TranslatesAlike(s.mem, r, s'.mem, n) <==> NothingStray(s.mem, After(s, r), Nth(s.pmm, 0), r)
  {
    hide Frames.Valid, Present, Fr, Huge, Get, Advance, CopyTable, After, Stray, Tables, Layout, Nth, SourcePath,
      TranslatesAlike;
    CopySpaceIs(s, roles, r);
    CopyTranslatesIffNothingStray(s, roles, r);
    var (n, s1) := CreateEmpty(s).value;
    EmptyConfined(s);
    RootNode(s.mem, roles, s.kernel, r);
    forall w: nat | w < LOWER
      ensures Stray(s1.mem, After(s, r), n, r, 4, w) == Stray(s.mem, After(s, r), n, r, 4, w)
    {
      RootOnPath(roles, r, w);
      LayoutPath(s, roles, n, r, r, w);
      StrayStays(s.mem, s1.mem, After(s, r), s.pmm, n, n, r, 4, w);
    }
  }
}
