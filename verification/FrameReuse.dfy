/** Frames that drivers take and give back (`palloc` and `pfree` of `kernel/src/libk/alloc.c`), and what
    they leave in them: when a release keeps the frames that are still to be handed out clean. */
module FrameReuse {
  import opened PageTables
  import opened PageTableCopy
  import opened Boot
  import opened Systems
  import opened Refinement
  import opened CopyOnWrite
  import opened Forking
  import Frames

  // ----- one release

  // The frames that a release of the run puts before the allocator's hint: those of the run, and free
  // ones that the search had passed.
  predicate PutAhead(p: Frames.State, n: nat, count: nat, f: nat) {
    && (if 0x1000 * n < p.lastFree then 0x1000 * n else p.lastFree) <= f
    && (n <= f < n + count || (f < p.lastFree && Frames.Free(p, f)))
  }

  /** A release keeps the frames that can still be handed out clean if and only if those that it puts
      before the hint are. */
  lemma ReleaseKeepsFreeOkIff(s: Machine, roles: seq<Role>, n: nat, count: nat)
    requires FreeOk(s, roles) && n + count <= |roles|
    requires forall k: nat :: n <= k < n + count ==> !Frames.Free(s.pmm, k) && roles[k].Unused?
    ensures FreeOk(s.(pmm := Frames.Release(s.pmm, n, count)), roles)
      <==> forall f: nat :: PutAhead(s.pmm, n, count, f) ==> ZeroFrame(s.mem, f)
  {
    hide Frames.Valid, Frames.Release, ZeroFrame;
    Frames.ReleaseEffect(s.pmm, n, count);
    var p := Frames.Release(s.pmm, n, count);
    Released(s.pmm, n, count);
    forall f: nat
      ensures PutAhead(s.pmm, n, count, f) ==> Frames.Free(p, f) && p.lastFree <= f && f < |roles|
    {
      if PutAhead(s.pmm, n, count, f) { FreeInMemory(s.pmm, f); }
    }
    forall f: nat | Frames.Free(p, f) && p.lastFree <= f && !PutAhead(s.pmm, n, count, f)
      ensures Frames.Free(s.pmm, f) && s.pmm.lastFree <= f
    {
    }
  }

  lemma Released(p: Frames.State, n: nat, count: nat)
    requires Frames.Valid(p) && n + count <= Frames.Total(p)
    requires forall k: nat :: n <= k < n + count ==> !Frames.Free(p, k)
    ensures forall f: nat :: Frames.Free(Frames.Release(p, n, count), f) <==>
      Frames.Free(p, f) || n <= f < n + count
  {
    Frames.ReleaseEffect(p, n, count);
  }

  lemma FreeInMemory(p: Frames.State, f: nat)
    requires Frames.Valid(p)
    ensures Frames.Free(p, f) ==> f < Frames.Total(p)
  {
  }

  // ----- runs of drivers

  /** What drivers do with frames: they take buffers, fill them with any words, and give them back. */
  datatype Use = Take(count: nat) | Fill(f: nat, j: nat, x: nat) | GiveBack(i: nat)

  // The machine and the buffers in use after one step.
  function Act(s: Machine, live: seq<Frames.Run>, use: Use): (Machine, seq<Frames.Run>) {
    match use
    case Take(count) => var b := Frames.Apply(Frames.Book(s.pmm, live), Frames.Ask(count)); (s.(pmm := b.st), b.live)
    case GiveBack(i) => var b := Frames.Apply(Frames.Book(s.pmm, live), Frames.GiveBack(i)); (s.(pmm := b.st), b.live)
    case Fill(f, j, x) =>
      (if Frames.InLive(live, f) && InMemory(s.mem, f) && j < 512 then s.(mem := Put(s.mem, f, j, x)) else s, live)
  }

  // The release does not move the allocator's hint back.
  predicate HintStays(s: Machine, live: seq<Frames.Run>, use: Use) {
    use.GiveBack? && use.i < |live| ==> s.pmm.lastFree <= 0x1000 * live[use.i].first
  }

  predicate HintsStay(s: Machine, live: seq<Frames.Run>, uses: seq<Use>)
    decreases |uses|
  {
    uses == [] ||
    (HintStays(s, live, uses[0]) && var (s1, live1) := Act(s, live, uses[0]); HintsStay(s1, live1, uses[1..]))
  }

  function ActAll(s: Machine, live: seq<Frames.Run>, uses: seq<Use>): (Machine, seq<Frames.Run>)
    decreases |uses|
  {
    if uses == [] then (s, live)
    else var (s1, live1) := Act(s, live, uses[0]); ActAll(s1, live1, uses[1..])
  }

  // The buffers are booked, lie below the hint, and hold no table and no data of a process.
  ghost predicate BuffersOk(s: Machine, roles: seq<Role>, live: seq<Frames.Run>) {
    && Frames.BookValid(Frames.Book(s.pmm, live))
    && (forall i :: 0 <= i < |live| ==> live[i].first + live[i].count <= s.pmm.lastFree)
    && (forall f: nat :: Frames.InLive(live, f) ==> f < |roles| && roles[f].Unused?)
  }

  lemma TakeKeeps(s: Machine, roles: seq<Role>, live: seq<Frames.Run>, count: nat)
    requires FreeOk(s, roles) && BuffersOk(s, roles, live)
    ensures var (s', live') := Act(s, live, Take(count));
      FreeOk(s', roles) && BuffersOk(s', roles, live') && s' == s.(pmm := s'.pmm)
  {
    hide Frames.Valid, Frames.BookValid, ZeroFrame, Frames.Request;
    ValidOfBook(s.pmm, live);
    Frames.AskKeepsBook(Frames.Book(s.pmm, live), count);
    Frames.RequestEffect(s.pmm, count);
    var (s', live') := Act(s, live, Take(count));
    ValidOfBook(s'.pmm, live');
    if Frames.Request(s.pmm, count).Some? {
      var n := Frames.Request(s.pmm, count).value.0;
      forall f: nat | Frames.InLive(live', f)
        ensures f < |roles| && roles[f].Unused?
      {
        var i :| 0 <= i < |live'| && Frames.Covers(live'[i], f);
        if i < |live| {
          assert Frames.Covers(live[i], f);
        } else {
          assert Frames.Free(s.pmm, f);
          FreeInMemory(s.pmm, f);
        }
      }
    }
  }

  lemma ValidOfBook(p: Frames.State, live: seq<Frames.Run>)
    requires Frames.BookValid(Frames.Book(p, live))
    ensures Frames.Valid(p)
    ensures forall i :: 0 <= i < |live| ==> live[i].first + live[i].count <= Frames.Total(p)
    ensures forall f: nat :: Frames.InLive(live, f) ==> !Frames.Free(p, f)
  {
  }

  lemma GiveBackKeeps(s: Machine, roles: seq<Role>, live: seq<Frames.Run>, i: nat)
    requires FreeOk(s, roles) && BuffersOk(s, roles, live) && HintStays(s, live, GiveBack(i))
    ensures var (s', live') := Act(s, live, GiveBack(i));
      FreeOk(s', roles) && BuffersOk(s', roles, live') && s' == s.(pmm := s'.pmm)
  {
    hide Frames.Valid, Frames.BookValid, ZeroFrame, Frames.Release, FreeOk;
    if i < |live| {
      var r := live[i];
      ValidOfBook(s.pmm, live);
      Frames.GiveBackKeepsBook(Frames.Book(s.pmm, live), i);
      forall k: nat | r.first <= k < r.first + r.count
        ensures Frames.InLive(live, k)
      {
        assert Frames.Covers(live[i], k);
      }
      TotalOf(s, roles);
      ReleaseKeepsFreeOkIff(s, roles, r.first, r.count);
      Frames.ReleaseEffect(s.pmm, r.first, r.count);
      var live' := Act(s, live, GiveBack(i)).1;
      forall f: nat | Frames.InLive(live', f)
        ensures Frames.InLive(live, f)
      {
        var j :| 0 <= j < |live'| && Frames.Covers(live'[j], f);
        assert live'[j] == live[Frames.Before(i, j)];
      }
    }
  }

  lemma TotalOf(s: Machine, roles: seq<Role>)
    requires FreeOk(s, roles)
    ensures Frames.Total(s.pmm) == |roles|
  {
  }

  // A word of a frame that is neither table nor data.
  lemma FillKeeps(s: Machine, roles: seq<Role>, f: nat, j: nat, x: nat)
    requires MemoryOk(s, roles) && f < |roles| && roles[f].Unused? && !Frames.Free(s.pmm, f) && j < 512
    ensures InMemory(s.mem, f) && Stable(s, roles, s.(mem := Put(s.mem, f, j, x)), roles)
  {
    hide Get, Present, Writable, UserBit, Huge, Fr, MemoryOf;
    TableInMemory(s, roles, f);
    var s' := s.(mem := Put(s.mem, f, j, x));
    TablesKeepTranslations(s, s'.mem, roles);
    FillKeepsLayout(s, roles, f, j, x);
    SameExclusive(s.mem, s'.mem, roles);
    forall q: nat | IsRoot(roles, q)
      ensures MemoryOf(s'.mem, q) == MemoryOf(s.mem, q)
    {
      forall w: nat | w < LOWER
        ensures SamePageContents(s.mem, q, s'.mem, q, w)
      {
        MappedIsData(s.mem, roles, s.kernel, q, w);
      }
      MemoryEqual(s.mem, q, s'.mem, q);
    }
  }

  lemma FillKeepsLayout(s: Machine, roles: seq<Role>, f: nat, j: nat, x: nat)
    requires Ok(s, roles) && f < |roles| && roles[f].Unused? && !Frames.Free(s.pmm, f) && j < 512 && InMemory(s.mem, f)
    ensures Ok(s.(mem := Put(s.mem, f, j, x)), roles)
  {
    hide Present, Writable, UserBit, Huge, Fr, Frames.Valid;
    var m' := Put(s.mem, f, j, x);
    forall g, i: nat | 0 <= g < |roles| && roles[g].Node? && i < 512
      ensures SlotOk(m', roles, g, i)
    {
      assert SlotOk(s.mem, roles, g, i);
    }
    forall q, i | IsRoot(roles, q) && 256 <= i < 512
      ensures UpperOk(m', s.kernel, q, i)
    {
      assert UpperOk(s.mem, s.kernel, q, i);
    }
  }

  lemma TablesKeepTranslations(s: Machine, m': seq<nat>, roles: seq<Role>)
    requires Ok(s, roles) && forall g :: 0 <= g < |roles| && roles[g].Node? ==> SameFrame(s.mem, m', g)
    ensures TranslationsKept(s.mem, m', roles)
  {
    hide Get, Present, Writable, UserBit, Huge, Fr, FreeOk;
    forall q: nat, w: nat | IsRoot(roles, q) && w < PAGES
      ensures Get(m', q, 4, w) == Get(s.mem, q, 4, w)
    {
      assert NodeOk(roles, q);
      RootOnPath(roles, q, w);
      forall g: nat | OnPath(roles, g, q, w) && roles[g].level <= 4
        ensures Rd(m', g, Idx(w, roles[g].level)) == Rd(s.mem, g, Idx(w, roles[g].level))
      {
        assert SameFrame(s.mem, m', g);
      }
      GetLocal(s.mem, m', roles, s.kernel, q, q, w);
    }
  }

  lemma SameExclusive(m: seq<nat>, m': seq<nat>, roles: seq<Role>)
    requires Exclusive(m, roles) && TranslationsKept(m, m', roles)
    ensures Exclusive(m', roles)
  {
    hide Get, Present, Writable, Fr;
    forall q: nat, w: nat, q': nat, w': nat
      | IsRoot(roles, q) && IsRoot(roles, q') && w < LOWER && w' < LOWER
      ensures AloneOn(m', q, w, q', w')
    {
      assert AloneOn(m, q, w, q', w');
    }
  }

  lemma PmmStable(s: Machine, s': Machine, roles: seq<Role>)
    requires MemoryOk(s, roles) && s' == s.(pmm := s'.pmm) && FreeOk(s', roles)
    ensures Stable(s, roles, s', roles)
  {
    hide Layout, Get, MemoryOf, Present;
  }

  lemma ActKeeps(s: Machine, roles: seq<Role>, live: seq<Frames.Run>, use: Use)
    requires MemoryOk(s, roles) && BuffersOk(s, roles, live) && HintStays(s, live, use)
    ensures var (s', live') := Act(s, live, use); Stable(s, roles, s', roles) && BuffersOk(s', roles, live')
  {
    hide Layout, FreeOk, Get, Present, Coherent, Exclusive, MemoryOf, Frames.BookValid, Stable, Frames.InLive,
      Frames.Free;
    match use {
      case Take(count) =>
        TakeKeeps(s, roles, live, count);
        PmmStable(s, Act(s, live, use).0, roles);
      case GiveBack(i) =>
        GiveBackKeeps(s, roles, live, i);
        PmmStable(s, Act(s, live, use).0, roles);
      case Fill(f, j, x) =>
        if Frames.InLive(live, f) && j < 512 {
          ValidOfBook(s.pmm, live);
          FillKeeps(s, roles, f, j, x);
        } else {
          PmmStable(s, s, roles);
        }
    }
  }

  lemma StableTwice(s: Machine, s1: Machine, s': Machine, roles: seq<Role>)
    requires Stable(s, roles, s1, roles) && Stable(s1, roles, s', roles)
    ensures Stable(s, roles, s', roles)
  {
    hide Ok, Coherent, Exclusive, MemoryOf;
  }

  /** Whatever drivers take, write into their buffers and give back, the free frames that can still be
      handed out stay clean and no process notices, as long as no release moves the hint back. */
  lemma {:induction false} DriversAreInvisible(s: Machine, roles: seq<Role>, live: seq<Frames.Run>, uses: seq<Use>)
    requires MemoryOk(s, roles) && BuffersOk(s, roles, live) && HintsStay(s, live, uses)
    ensures var (s', live') := ActAll(s, live, uses); Stable(s, roles, s', roles) && BuffersOk(s', roles, live')
    decreases |uses|
  {
    hide Layout, FreeOk, Get, Present, Coherent, Exclusive, MemoryOf, BuffersOk, Act;
    if uses == [] {
      PmmStable(s, s, roles);
    } else {
      ActKeeps(s, roles, live, uses[0]);
      var (s1, live1) := Act(s, live, uses[0]);
      DriversAreInvisible(s1, roles, live1, uses[1..]);
      StableTwice(s, s1, ActAll(s, live, uses).0, roles);
    }
  }

  /** The same between any two events of a run. */
  lemma DriversKeepTheSystem(sys: System, roles: seq<Role>, live: seq<Frames.Run>, uses: seq<Use>)
    requires Inv(sys, roles) && BuffersOk(sys.mach, roles, live) && HintsStay(sys.mach, live, uses)
    ensures var sys' := sys.(mach := ActAll(sys.mach, live, uses).0);
      Inv(sys', roles) && Abstract(sys') == Abstract(sys)
  {
    hide Ok, Coherent, Exclusive, MemoryOf, BuffersOk, Abstract, Stable, HintsStay, ActAll;
    InvMemory(sys, roles);
    DriversAreInvisible(sys.mach, roles, live, uses);
    StableSystem(sys, roles, sys.(mach := ActAll(sys.mach, live, uses).0), roles);
  }

  lemma InvMemory(sys: System, roles: seq<Role>)
    requires Inv(sys, roles)
    ensures MemoryOk(sys.mach, roles)
  {
    hide Ok, Coherent, Exclusive;
    RingNonempty(sys.ring, roles);
  }

  // Filling buffers changes neither the allocator nor the list of buffers.
  lemma {:induction false} FillsKeepHint(s: Machine, live: seq<Frames.Run>, fills: seq<Use>, last: Use)
    requires forall i :: 0 <= i < |fills| ==> fills[i].Fill?
    requires last.GiveBack?
    ensures HintsStay(s, live, fills + [last]) <==> HintStays(s, live, last)
    decreases |fills|
  {
    hide Frames.Apply;
    var uses := fills + [last];
    if fills == [] {
      assert uses == [last] && uses[1..] == [];
    } else {
      assert uses[1..] == fills[1..] + [last];
      var (s1, live1) := Act(s, live, fills[0]);
      FillsKeepHint(s1, live1, fills[1..], last);
    }
  }

  /** drive_read takes a buffer, lets the drive fill it and gives it back.  This moves no hint if and only
      if the search passed no frame beyond 4096 times the first one of the buffer. */
  lemma BufferMovesNoHintIff(s: Machine, live: seq<Frames.Run>, count: nat, fills: seq<Use>)
    requires Frames.Valid(s.pmm) && Frames.Request(s.pmm, count).Some?
    requires forall i :: 0 <= i < |fills| ==> fills[i].Fill?
    ensures var n := Frames.Request(s.pmm, count).value.0;
      HintsStay(s, live, [Take(count)] + fills + [GiveBack(|live|)]) <==> n + count <= 0x1000 * n
  {
    hide Frames.Request, Frames.Valid, HintsStay;
    TakenBuffer(s, live, count);
    var last := GiveBack(|live|);
    var uses, rest := [Take(count)] + fills + [last], fills + [last];
    assert uses[1..] == rest && uses[0] == Take(count);
    var (s1, live1) := Act(s, live, Take(count));
    FillsKeepHint(s1, live1, fills, last);
    FirstTakes(s, live, uses);
  }

  lemma TakenBuffer(s: Machine, live: seq<Frames.Run>, count: nat)
    requires Frames.Valid(s.pmm) && Frames.Request(s.pmm, count).Some?
    ensures var n := Frames.Request(s.pmm, count).value.0;
      var (s1, live1) := Act(s, live, Take(count));
      s1.pmm.lastFree == n + count && live1 == live + [Frames.Run(n, count)]
  {
    hide Frames.Request, Frames.Valid;
    Frames.RequestEffect(s.pmm, count);
  }

  lemma FirstTakes(s: Machine, live: seq<Frames.Run>, uses: seq<Use>)
    requires uses != [] && uses[0].Take?
    ensures HintsStay(s, live, uses) <==> var (s1, live1) := Act(s, live, uses[0]); HintsStay(s1, live1, uses[1..])
  {
    hide Act;
  }
}
