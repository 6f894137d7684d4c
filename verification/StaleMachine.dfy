/** A machine with four free frames that still hold words of an earlier use, and the address space
    that `paging_copy` makes on it: the child sees a page of the parent a second time, 1 GiB higher. */
module StaleMachine {
  import opened PageTables
  import opened PageTableCopy
  import opened DirtyFrames
  import opened StaleFrames
  import Frames

  const FRAMES: nat := 266
  const ROOT: nat := 257
  const GIBIBYTE: nat := 0x4_0000   // in pages

  /** Frame 0 is the kernel table and frames 1 to 256 are the tables of the upper half.  Frame 257 is the
      task's top-level table; the tables 258 to 260 lead to its one page, frame 261.  The frames from
      262 on are free; they hold what 258 holds, one word further on. */
  function Word(f: nat, i: nat): nat {
    if (f == 0 || f == ROOT) && 256 <= i then 0x1000 * (i - 255) + 3
    else if ROOT <= f <= 260 && i == 0 then 0x1000 * (f + 1) + 7
    else if 262 <= f && i == 1 then 0x1000 * 259 + 7
    else 0
  }

  function RoleOf(f: nat): Role {
    if f == 0 then Node(User(0), 4, 0)
    else if f <= 256 then Node(Shared, 3, 255 + f)
    else if f <= 260 then Node(User(ROOT), 261 - f, 0)
    else if f == 261 then Data
    else Unused
  }

  function Bookkeeping(): Frames.State {
    Frames.State(seq(FRAMES + 1, f => !(262 <= f < FRAMES)), 0, 0x4000, 0x1000 * FRAMES)
  }

  function Worn(): Machine {
    Machine(seq(512 * FRAMES, k requires 0 <= k => Word(k / 512, k % 512)), Bookkeeping(), map[], 0, ROOT)
  }

  function Roles(): seq<Role> {
    seq(FRAMES, f requires 0 <= f => RoleOf(f))
  }

  lemma WordAt(f: nat, i: nat)
    requires f < FRAMES && i < 512
    ensures Rd(Worn().mem, f, i) == Word(f, i)
  {
    hide Word;
    assert (512 * f + i) / 512 == f && (512 * f + i) % 512 == i;
  }

  lemma BookkeepingValid()
    ensures Frames.Valid(Bookkeeping()) && Frames.Total(Bookkeeping()) == FRAMES && Frames.Available(Bookkeeping()) == 4
  {
    hide Frames.CountFree;
    var p := Bookkeeping();
    Frames.CountZero(p, 0, 262);
    OneFree(p, 262);
    OneFree(p, 263);
    OneFree(p, 264);
    OneFree(p, 265);
    Frames.CountZero(p, 266, 267);
    Frames.CountSplit(p, 0, 262, 266);
    Frames.CountSplit(p, 262, 263, 266);
    Frames.CountSplit(p, 263, 264, 266);
    Frames.CountSplit(p, 264, 265, 266);
    Frames.CountSplit(p, 0, 266, 267);
  }

  lemma WornSlot(f: nat, i: nat)
    requires f < FRAMES && i < 512 && RoleOf(f).Node?
    ensures SlotOk(Worn().mem, Roles(), f, i)
  {
    hide Worn, Present, Writable, UserBit, Huge, Fr;
    WordAt(f, i);
    EntryBits(i, 3);
    EntryBits(f + 1, 7);
    EntryBits(0, 0);
    FlagBits();
    if 256 <= i {
      EntryBits(i - 255, 3);
    }
  }

  lemma FlagBits()
    ensures !Present(0)
    ensures Present(3) && Writable(3) && !UserBit(3) && !Huge(3)
    ensures Present(7) && Writable(7) && UserBit(7) && !Huge(7)
  {
  }

  lemma WornUpper(r: nat, i: nat)
    requires (r == 0 || r == ROOT) && 256 <= i < 512
    ensures UpperOk(Worn().mem, 0, r, i)
  {
    hide Worn, Present, Writable, UserBit, Huge, Fr;
    WordAt(0, i);
    WordAt(ROOT, i);
    FlagBits();
    EntryBits(i - 255, 3);
  }

  lemma WornIsDirty()
    ensures Dirty(Worn(), Roles()) && IsRoot(Roles(), ROOT)
  {
    hide SlotOk, UpperOk, Frames.Valid, Frames.Available, Word;
    BookkeepingValid();
    forall f, i: nat | 0 <= f < FRAMES && Roles()[f].Node? && i < 512
      ensures SlotOk(Worn().mem, Roles(), f, i)
    {
      WornSlot(f, i);
    }
    forall r, i | IsRoot(Roles(), r) && 256 <= i < 512
      ensures UpperOk(Worn().mem, 0, r, i)
    {
      WornUpper(r, i);
    }
  }

  // ----- its tables and pages

  lemma {:induction false} NoTablesFrom(m: seq<nat>, t: nat, level: nat, i: nat)
    requires level > 1 && i <= Slots(level) && forall j: nat :: i <= j < Slots(level) ==> !Present(Rd(m, t, j))
    ensures TablesFrom(m, t, level, i) == 0
    decreases 512 - i
  {
    hide Present;
    if i < Slots(level) {
      NoTablesFrom(m, t, level, i + 1);
    }
  }

  lemma {:induction false} WornTables(level: nat)
    requires 1 <= level <= 4
    ensures Tables(Worn().mem, 261 - level, level) == level - 1
    decreases level
  {
    hide Worn, Present, Fr;
    if level > 1 {
      var m, t := Worn().mem, 261 - level;
      FlagBits();
      EntryBits(t + 1, 7);
      WordAt(t, 0);
      forall j: nat | 1 <= j < Slots(level)
        ensures !Present(Rd(m, t, j))
      {
        WordAt(t, j);
      }
      NoTablesFrom(m, t, level, 1);
      WornTables(level - 1);
    }
  }

  lemma Indices(level: nat)
    requires 1 <= level <= 4
    ensures Idx(0, level) == 0 && Idx(GIBIBYTE, level) == if level == 3 then 1 else 0
  {
    assert Shift(0, 1) == 0 && Shift(0, 2) == 0;
    assert Shift(GIBIBYTE, 1) == 512 && Shift(GIBIBYTE, 2) == 1;
  }

  lemma {:induction false} WornWalk(level: nat)
    requires 1 <= level <= 4
    ensures Get(Worn().mem, 261 - level, level, 0) == 0x1000 * 261 + 7
    decreases level
  {
    hide Worn, Present, Huge, Fr, Idx;
    WordAt(261 - level, 0);
    Indices(level);
    if level > 1 {
      FlagBits();
      EntryBits(262 - level, 7);
      WornWalk(level - 1);
    }
  }

  lemma WornIsStale()
    ensures Beside(Worn().mem, ROOT, GIBIBYTE, 0) && Stale(Worn(), ROOT, GIBIBYTE, 0)
  {
    hide Present, Huge, Fr, Idx, Get;
    Indices(4);
    Indices(3);
    Indices(2);
    Indices(1);
    FlagBits();
    EntryBits(258, 7);
    EntryBits(261, 7);
    WornWalk(4);
    WordAt(ROOT, 0);
    WordAt(258, 0);
    WordAt(258, 1);
    forall g: nat | Frames.Free(Bookkeeping(), g)
      ensures Rd(Worn().mem, g, 1) == 0x1000 * 259 + 7
    {
      WordAt(g, 1);
    }
  }

  /** The parent has one page and nothing at 1 GiB.  The child of a copy has that page, the parent's own
      frame and writable, at 1 GiB too. */
  lemma CopyOfWornAliasesAPage()
    ensures Dirty(Worn(), Roles()) && IsRoot(Roles(), ROOT) && CopySpace(Worn(), ROOT).Some?
    ensures var (n, s') := CopySpace(Worn(), ROOT).value;
      && Get(Worn().mem, ROOT, 4, GIBIBYTE) == 0
      && Get(s'.mem, n, 4, GIBIBYTE) == Get(Worn().mem, ROOT, 4, 0) == 0x1000 * 261 + 7
      && !TranslatesAlike(Worn().mem, ROOT, s'.mem, n)
  {
    hide Worn, Present, Get, CopySpace, TranslatesAlike, Beside, Stale, Dirty;
    WornIsDirty();
    WornBook();
    WornTables(4);
    WornWalk(4);
    WornIsStale();
    CopySpaceTakes(Worn(), Roles(), ROOT);
    StaleFramesAliasAPage(Worn(), Roles(), ROOT, GIBIBYTE, 0);
  }

  lemma WornBook()
    ensures Frames.Available(Worn().pmm) == 4
  {
    BookkeepingValid();
  }
}
