/** Lazy sharing is indistinguishable from eager copying: the kernel with copy-on-write
    simulates the ideal machine in which each task has a memory of its own. */
module Refinement {
  import opened Bits
  import opened Options
  import opened PageTables
  import opened PageTableCopy
  import opened CopyOnWrite
  import opened Forking
  import opened Systems
  import PageTableProtect
  import S = Scheduling
  import Frames

  // ----- what the processor allows

  lemma {:induction false} RightsBelow(m: seq<nat>, roles: seq<Role>, kernel: nat, t: nat, r: nat, v: nat, write: bool)
    requires Layout(m, roles, kernel) && OnPath(roles, t, r, v) && v < LOWER
    ensures var e := Get(m, t, roles[t].level, v);
      UserMay(m, t, roles[t].level, v, write) <==> Present(e) && UserBit(e) && (write ==> Writable(e))
    decreases roles[t].level
  {
    hide Present, UserBit, Writable, Huge, Fr;
    ShiftBounds(v);
    var i := Idx(v, roles[t].level);
    assert NodeOk(roles, t) && SlotOk(m, roles, t, i);
    if roles[t].level > 1 {
      ZeroAbsent();
      if Present(Rd(m, t, i)) {
        PathStep(m, roles, kernel, t, r, v);
        RightsBelow(m, roles, kernel, Fr(Rd(m, t, i)), r, v, write);
      }
    }
  }

  // The user may touch exactly the present pages of the lower half, and write the writable ones.
  lemma AllowedMeans(s: Machine, roles: seq<Role>, v: nat, write: bool)
    requires Ok(s, roles) && Coherent(s) && IsRoot(roles, s.cr3) && v < PAGES
    ensures var e := Get(s.mem, s.cr3, 4, v);
      && Translate(s, v) == e
      && (Allowed(s, v, write) <==> v < LOWER && Present(e) && (write ==> Writable(e)))
  {
    hide Present, UserBit, Writable, Huge, Fr, Get;
    var r := s.cr3;
    assert NodeOk(roles, r);
    RootOnPath(roles, r, v);
    ShiftBounds(v);
    if v < LOWER {
      RightsBelow(s.mem, roles, s.kernel, r, r, v, write);
      MappedIsData(s.mem, roles, s.kernel, r, v);
    } else {
      assert UpperOk(s.mem, s.kernel, r, Idx(v, 4));
    }
  }

  // ----- equal memories

  // Page w of address space q' in m' reads as page w of q in m.
  ghost predicate SamePageContents(m: seq<nat>, q: nat, m': seq<nat>, q': nat, w: nat) {
    var e, e' := Get(m, q, 4, w), Get(m', q', 4, w);
    && (Present(e) <==> Present(e'))
    && (Present(e) ==>
          && (InMemory(m, Fr(e)) <==> InMemory(m', Fr(e')))
          && forall j: nat :: j < 512 ==> Rd(m', Fr(e'), j) == Rd(m, Fr(e), j))
  }

  lemma MemoryEqual(m: seq<nat>, q: nat, m': seq<nat>, q': nat)
    requires forall w: nat :: w < LOWER ==> SamePageContents(m, q, m', q', w)
    ensures MemoryOf(m', q') == MemoryOf(m, q)
  {
    hide Get, Present, Fr;
    var a, b := MemoryOf(m, q), MemoryOf(m', q');
    forall w: nat | w < LOWER
      ensures w in a <==> w in b
      ensures w in a ==> a[w] == b[w]
    {
      assert SamePageContents(m, q, m', q', w);
    }
  }

  // The step from s to s' keeps the invariant of memory and what every task reads.
  ghost predicate Stable(s: Machine, roles: seq<Role>, s': Machine, roles': seq<Role>) {
    && Ok(s', roles') && Coherent(s') && Exclusive(s'.mem, roles')
    && s'.cr3 == s.cr3 && s'.kernel == s.kernel
    && (forall q: nat :: IsRoot(roles', q) <==> IsRoot(roles, q))
    && (forall q: nat :: IsRoot(roles, q) ==> MemoryOf(s'.mem, q) == MemoryOf(s.mem, q))
  }

  lemma CowStable(s: Machine, roles: seq<Role>, s': Machine, roles': seq<Role>, r: nat, v: nat, f: nat)
    requires Ok(s, roles) && Coherent(s) && Exclusive(s.mem, roles) && IsRoot(roles, r) && v < LOWER && s.cr3 == r
    requires Present(Get(s.mem, r, 4, v)) && Moved(s, s', roles, roles', r, v, f)
    ensures Stable(s, roles, s', roles')
  {
    hide Get, Present, Writable, UserBit, Huge, Fr, AloneOn, MemoryOf;
    ScratchIndices();
    CowKeepsExclusive(s, s', roles, roles', r, v, f);
    forall q: nat | IsRoot(roles, q)
      ensures MemoryOf(s'.mem, q) == MemoryOf(s.mem, q)
    {
      forall w: nat | w < LOWER
        ensures SamePageContents(s.mem, q, s'.mem, q, w)
      {
        CowKeepsPage(s, roles, s', roles', r, v, f, q, w);
      }
      MemoryEqual(s.mem, q, s'.mem, q);
    }
  }

  lemma CowKeepsPage(s: Machine, roles: seq<Role>, s': Machine, roles': seq<Role>, r: nat, v: nat, f: nat,
                     q: nat, w: nat)
    requires Ok(s, roles) && IsRoot(roles, r) && v < LOWER && IsRoot(roles, q) && w < LOWER
    requires Present(Get(s.mem, r, 4, v)) && Moved(s, s', roles, roles', r, v, f)
    ensures SamePageContents(s.mem, q, s'.mem, q, w)
  {
    hide Get, Present, Writable, UserBit, Huge, Fr;
    ScratchIndices();
    MappedIsData(s.mem, roles, s.kernel, q, w);
    if !SamePage(q, w, r, v) && Present(Get(s.mem, q, 4, w)) {
      assert SameFrame(s.mem, s'.mem, Fr(Get(s.mem, q, 4, w)));
    }
  }

  // The frames that one user access may cost.
  function AccessCost(s: Machine, r: nat, v: nat, off: nat, write: bool): nat {
    if !Allowed(s, v, write) && UserPtr(v, off) && Present(Get(s.mem, r, 4, v)) then CowCost(s) else 0
  }

  // A user access succeeds exactly on mapped user pages, unless it is a write to a read-only page
  // at an address that the fault handler does not take for a user address; then the page has
  // the wanted rights, and no task's memory has changed.
  lemma AccessEffect(s: Machine, roles: seq<Role>, r: nat, v: nat, off: nat, write: bool)
    returns (ok: bool, s': Machine, roles': seq<Role>)
    requires Ok(s, roles) && Coherent(s) && Exclusive(s.mem, roles) && IsRoot(roles, r) && s.cr3 == r
    requires v < PAGES && off < 512
    requires Frames.Available(s.pmm) >= AccessCost(s, r, v, off, write)
    ensures Access(s, r, v, off, write) == Some((ok, s')) && Stable(s, roles, s', roles')
    ensures var e := Get(s.mem, r, 4, v);
      ok <==> v < LOWER && Present(e) && (write ==> Writable(e) || UserPtr(v, off))
    ensures ok ==> Present(Get(s'.mem, r, 4, v)) && (write ==> Writable(Get(s'.mem, r, 4, v)))
  {
    hide Get, Present, Writable, UserBit, Huge, Fr, AloneOn, MemoryOf, Cow, Allowed, Missing;
    AllowedMeans(s, roles, v, write);
    ok, s', roles' := Allowed(s, v, write), s, roles;
    var e := Get(s.mem, r, 4, v);
    if !ok && UserPtr(v, off) {
      assert v < LOWER;
      if Present(e) {
        MappedIsData(s.mem, roles, s.kernel, r, v);
        var f;
        f, s', roles' := CowEffect(s, roles, r, v);
        CowStable(s, roles, s', roles', r, v, f);
        AllowedMeans(s', roles', v, write);
        ok := true;
      } else {
        RootWalkable(s.mem, roles, s.kernel, r, v);
        CowOfAbsent(s, r, v);
      }
    }
  }

  lemma CowOfAbsent(s: Machine, r: nat, v: nat)
    requires Walkable(s.mem, r, 4, v) && !Present(Get(s.mem, r, 4, v))
    ensures Cow(s, r, v) == Some((false, s))
  {
  }

  // ----- stores

  lemma MappedInMemory(s: Machine, roles: seq<Role>, r: nat, v: nat)
    requires Ok(s, roles) && IsRoot(roles, r) && v < LOWER && Present(Get(s.mem, r, 4, v))
    ensures InMemory(s.mem, Fr(Get(s.mem, r, 4, v))) && v in MemoryOf(s.mem, r)
    ensures MemoryOf(s.mem, r)[v] == Frame(s.mem, Fr(Get(s.mem, r, 4, v)))
  {
    hide Get, Present, Writable, UserBit, Huge, Fr;
    MappedIsData(s.mem, roles, s.kernel, r, v);
  }

  // A store to a writable page changes one word of one task's memory.
  lemma StoreEffect(s: Machine, roles: seq<Role>, r: nat, v: nat, off: nat, x: nat)
    returns (s': Machine)
    requires Ok(s, roles) && Coherent(s) && Exclusive(s.mem, roles) && IsRoot(roles, r) && IsRoot(roles, s.cr3)
    requires v < LOWER && off < 512 && Present(Get(s.mem, r, 4, v)) && Writable(Get(s.mem, r, 4, v))
    ensures InMemory(s.mem, Fr(Get(s.mem, r, 4, v)))
    ensures s' == s.(mem := Put(s.mem, Fr(Get(s.mem, r, 4, v)), off, x))
    ensures Ok(s', roles) && Coherent(s') && Exclusive(s'.mem, roles)
    ensures forall q: nat :: IsRoot(roles, q) && q != r ==> MemoryOf(s'.mem, q) == MemoryOf(s.mem, q)
    ensures v in MemoryOf(s.mem, r) && |MemoryOf(s.mem, r)[v]| == 512
    ensures MemoryOf(s'.mem, r) == Written(MemoryOf(s.mem, r), v, off, x)
  {
    hide Get, Present, Writable, UserBit, Huge, Fr, MemoryOf;
    var f := Fr(Get(s.mem, r, 4, v));
    MappedIsData(s.mem, roles, s.kernel, r, v);
    MappedInMemory(s, roles, r, v);
    s' := PutData(s, roles, f, off, x);
    assert forall q: nat, w: nat, q': nat, w': nat ::
      IsRoot(roles, q) && IsRoot(roles, q') && w < LOWER && w' < LOWER ==>
      AloneOn(s.mem, q, w, q', w') ==> AloneOn(s'.mem, q, w, q', w');
    forall q: nat | IsRoot(roles, q) && q != r
      ensures MemoryOf(s'.mem, q) == MemoryOf(s.mem, q)
    {
      forall w: nat | w < LOWER
        ensures SamePageContents(s.mem, q, s'.mem, q, w)
      {
        assert AloneOn(s.mem, r, v, q, w);
      }
      MemoryEqual(s.mem, q, s'.mem, q);
    }
    StoreInOwn(s, roles, s', r, v, off, x);
  }

  lemma StoreInOwn(s: Machine, roles: seq<Role>, s': Machine, r: nat, v: nat, off: nat, x: nat)
    requires Exclusive(s.mem, roles) && IsRoot(roles, r) && v < LOWER && off < 512
    requires Present(Get(s.mem, r, 4, v)) && Writable(Get(s.mem, r, 4, v))
    requires InMemory(s.mem, Fr(Get(s.mem, r, 4, v))) && TranslationsKept(s.mem, s'.mem, roles)
    requires s' == s.(mem := Put(s.mem, Fr(Get(s.mem, r, 4, v)), off, x))
    ensures v in MemoryOf(s.mem, r) && |MemoryOf(s.mem, r)[v]| == 512
    ensures MemoryOf(s'.mem, r) == Written(MemoryOf(s.mem, r), v, off, x)
  {
    hide Get, Present, Writable, UserBit, Huge, Fr, Put;
    var a := MemoryOf(s.mem, r);
    var b := MemoryOf(s'.mem, r);
    forall w: nat | w < LOWER
      ensures w in a <==> w in b
      ensures w in a ==> b[w] == Written(a, v, off, x)[w]
    {
      assert Get(s'.mem, r, 4, w) == Get(s.mem, r, 4, w);
      assert AloneOn(s.mem, r, v, r, w);
    }
    assert b == Written(a, v, off, x);
  }

  // ----- one step

  lemma RingAbstraction(m: seq<nat>, m': seq<nat>, roles: seq<Role>, ring: seq<S.Task<nat>>)
    requires RingOk(ring, roles)
    requires forall q: nat :: IsRoot(roles, q) ==> MemoryOf(m', q) == MemoryOf(m, q)
    ensures AbstractRing(m', ring) == AbstractRing(m, ring)
  {
    hide MemoryOf;
  }

  // A stable change of the machine changes nothing that the processes see.
  lemma StableSystem(sys: System, roles: seq<Role>, sys1: System, roles1: seq<Role>)
    requires Inv(sys, roles) && Stable(sys.mach, roles, sys1.mach, roles1) && sys1 == sys.(mach := sys1.mach)
    ensures Inv(sys1, roles1) && Abstract(sys1) == Abstract(sys)
  {
    hide Ok, Coherent, Exclusive, MemoryOf;
    RingAbstraction(sys.mach.mem, sys1.mach.mem, roles, sys.ring);
  }

  lemma TickStep(sys: System, roles: seq<Role>, now: Word, frame: S.Frame)
    returns (sys': System, out: Out)
    requires Inv(sys, roles) && !sys.halted
    ensures Step(sys, Tick(now, frame)) == Some((sys', out)) && Inv(sys', roles)
    ensures IdealStep(Abstract(sys), Tick(now, frame)) == (Abstract(sys'), out)
  {
    hide MemoryOf, Layout, Exclusive, Get, Present, S.Rotate, RingOk, AbstractRing;
    TickRing(sys.mach.mem, roles, sys.ring, now, frame);
    RingNonempty(sys.ring, roles);
    sys' := Step(sys, Tick(now, frame)).value.0;
    out := Step(sys, Tick(now, frame)).value.1;
  }

  lemma RingNonempty(ring: seq<S.Task<nat>>, roles: seq<Role>)
    requires RingOk(ring, roles)
    ensures ring != [] && IsRoot(roles, ring[0].vmap)
  {
  }

  // Rotating the ring commutes with the abstraction.
  lemma TickRing(m: seq<nat>, roles: seq<Role>, ring: seq<S.Task<nat>>, now: Word, frame: S.Frame)
    requires RingOk(ring, roles)
    ensures RingOk(S.Tick(ring, now, frame), roles)
    ensures AbstractRing(m, S.Tick(ring, now, frame)) == S.Tick(AbstractRing(m, ring), now, frame)
    ensures S.Expired(AbstractRing(m, ring), now) <==> S.Expired(ring, now)
    ensures S.Resume(AbstractRing(m, S.Tick(ring, now, frame))[0]) == S.Resume(S.Tick(ring, now, frame)[0])
  {
    hide MemoryOf;
  }

  lemma LoadStep(sys: System, roles: seq<Role>, v: Page, off: Offset)
    returns (sys': System, out: Out, roles': seq<Role>)
    requires Inv(sys, roles) && !sys.halted
    requires Frames.Available(sys.mach.pmm) >= AccessCost(sys.mach, sys.ring[0].vmap, v, off, false)
    ensures Step(sys, Load(v, off)) == Some((sys', out)) && Inv(sys', roles')
    ensures IdealStep(Abstract(sys), Load(v, off)) == (Abstract(sys'), out)
  {
    hide Ok, Exclusive, Get, Present, Access;
    var s, r := sys.mach, sys.ring[0].vmap;
    var ok, s1;
    ok, s1, roles' := AccessEffect(s, roles, r, v, off, false);
    RingAbstraction(s.mem, s1.mem, roles, sys.ring);
    AllowedMeans(s1, roles', v, false);
    if ok {
      MappedInMemory(s, roles, r, v);
      MappedInMemory(s1, roles', r, v);
    }
    sys' := Step(sys, Load(v, off)).value.0;
    out := Step(sys, Load(v, off)).value.1;
  }

  lemma StoreStep(sys: System, roles: seq<Role>, v: Page, off: Offset, x: Word)
    returns (sys': System, out: Out, roles': seq<Role>)
    requires Inv(sys, roles) && !sys.halted
    requires Frames.Available(sys.mach.pmm) >= AccessCost(sys.mach, sys.ring[0].vmap, v, off, true)
    ensures Step(sys, Store(v, off, x)) == Some((sys', out)) && Inv(sys', roles')
    ensures StoreSeen(sys, v, off) ==>
      IdealStep(Abstract(sys), Store(v, off, x)) == (Abstract(sys'), out)
    ensures !StoreSeen(sys, v, off) ==>
      out == Fault && IdealStep(Abstract(sys), Store(v, off, x)).1 == Stored
  {
    hide Ok, Exclusive, Get, Present, Writable, Access, Fr, UserPtr;
    var s, r := sys.mach, sys.ring[0].vmap;
    var ok, s1;
    LastWord(v, off);
    ok, s1, roles' := AccessEffect(s, roles, r, v, off, true);
    RingAbstraction(s.mem, s1.mem, roles, sys.ring);
    AllowedMeans(s1, roles', v, true);
    if v < LOWER && Present(Get(s.mem, r, 4, v)) {
      MappedInMemory(s, roles, r, v);
    }
    if ok {
      var s2 := StoreEffect(s1, roles', r, v, off, x);
      assert AbstractRing(s2.mem, sys.ring)[0] == AbstractTask(s2.mem, sys.ring[0]);
      assert AbstractRing(s2.mem, sys.ring) ==
        AbstractRing(s.mem, sys.ring)[0 := AbstractTask(s2.mem, sys.ring[0])];
    }
    sys' := Step(sys, Store(v, off, x)).value.0;
    out := Step(sys, Store(v, off, x)).value.1;
  }

  // The kernel lets a store through that the ideal machine performs, unless it goes to the last word
  // of the user half, 0x7ffffffffff8, and meets a read-only page there: ptr_is_user refuses that
  // address alone.
  ghost predicate StoreSeen(sys: System, v: nat, off: nat)
    requires sys.ring != []
  {
    var e := Get(sys.mach.mem, sys.ring[0].vmap, 4, v);
    v != 0x7_ffff_ffff || off != 511 || !Present(e) || Writable(e)
  }

  lemma LastWord(v: nat, off: nat)
    requires off < 512
    ensures UserPtr(v, off) <==> v < 0x8_0000_0000 && (v != 0x7_ffff_ffff || off != 511)
  {
  }

  lemma ForkStep(sys: System, roles: seq<Role>, frame: S.Frame, junk: Word)
    returns (sys': System, out: Out, roles': seq<Role>)
    requires Inv(sys, roles) && !sys.halted
    requires Frames.Available(sys.mach.pmm) >= 1 + Tables(sys.mach.mem, sys.ring[0].vmap, 4)
    ensures Step(sys, ForkCall(frame, junk)) == Some((sys', out)) && Inv(sys', roles')
    ensures IdealStep(Abstract(sys), ForkCall(frame, junk)) == (Abstract(sys'), out)
  {
    hide Get, Present, Writable, Fr, ForkSpace, Tables, AloneOn, MemoryOf;
    var s, r := sys.mach, sys.ring[0].vmap;
    var n, s1;
    n, s1, roles' := ForkEffect(s, roles, r);
    ForkKeepsExclusive(s, s1, roles, roles', r, n);
    ForkCoherent(s, roles, s1, roles', r, n);
    ForkMemories(s, roles, s1, roles', r, n);
    var child := S.Child(frame, n, junk, sys.tid);
    var ring := S.Insert(sys.ring, child);
    ForkRing(sys.ring, roles, roles', s, n, child);
    sys' := Step(sys, ForkCall(frame, junk)).value.0;
    out := Silent;
    var m, m1 := s.mem, s1.mem;
    var parent := AbstractRing(m, sys.ring);
    assert AbstractRing(m1, ring) ==
      S.Insert(parent, S.Child(frame, MemoryOf(m, r), junk, sys.tid)) by {
      assert forall i :: 0 <= i < |sys.ring| ==> AbstractTask(m1, sys.ring[i]) == AbstractTask(m, sys.ring[i]);
      assert AbstractTask(m1, child) == S.Child(frame, MemoryOf(m, r), junk, sys.tid);
    }
  }

  lemma ForkRing(ring: seq<S.Task<nat>>, roles: seq<Role>, roles': seq<Role>, s: Machine, n: nat, child: S.Task<nat>)
    requires RingOk(ring, roles) && SpaceTaken(s, roles, roles', n) && child.vmap == n
    ensures RingOk(S.Insert(ring, child), roles')
  {
    forall i | 0 <= i < |ring|
      ensures IsRoot(roles', ring[i].vmap) && ring[i].vmap != n
    {
      RootKept(roles, roles', ring[i].vmap, s, n);
    }
  }

  lemma ForkCoherent(s: Machine, roles: seq<Role>, s1: Machine, roles': seq<Role>, r: nat, n: nat)
    requires Coherent(s) && IsRoot(roles, r) && s.cr3 == r && Forked(s, s1, roles, roles', r, n)
    ensures Coherent(s1)
  {
    hide Get, Present, Writable, UserBit, Huge, Fr;
  }

  // After a fork, parent and child read what the parent read, and all others what they read.
  lemma ForkMemories(s: Machine, roles: seq<Role>, s1: Machine, roles': seq<Role>, r: nat, n: nat)
    requires Ok(s, roles) && IsRoot(roles, r) && Forked(s, s1, roles, roles', r, n)
    ensures MemoryOf(s1.mem, n) == MemoryOf(s.mem, r)
    ensures forall q: nat :: IsRoot(roles, q) ==> MemoryOf(s1.mem, q) == MemoryOf(s.mem, q)
  {
    hide Get, Present, Writable, UserBit, Huge, Fr, MemoryOf;
    forall w: nat | w < LOWER
      ensures SamePageContents(s.mem, r, s1.mem, n, w)
    {
      ForkKeepsPage(s, roles, s1, roles', r, n, r, n, w);
    }
    MemoryEqual(s.mem, r, s1.mem, n);
    forall q: nat | IsRoot(roles, q)
      ensures MemoryOf(s1.mem, q) == MemoryOf(s.mem, q)
    {
      forall w: nat | w < LOWER
        ensures SamePageContents(s.mem, q, s1.mem, q, w)
      {
        ForkKeepsPage(s, roles, s1, roles', r, n, q, q, w);
      }
      MemoryEqual(s.mem, q, s1.mem, q);
    }
  }

  lemma ForkKeepsPage(s: Machine, roles: seq<Role>, s1: Machine, roles': seq<Role>, r: nat, n: nat,
                      q: nat, q': nat, w: nat)
    requires Ok(s, roles) && IsRoot(roles, r) && Forked(s, s1, roles, roles', r, n) && w < LOWER
    requires IsRoot(roles, q) && (q' == q || (q == r && q' == n))
    ensures SamePageContents(s.mem, q, s1.mem, q', w)
  {
    hide Get, Present, Writable, UserBit, Huge, Fr;
    RootKept(roles, roles', q, s, n);
    PageTableProtect.ClearWritableBits(Get(s.mem, q, 4, w));
    MappedIsData(s.mem, roles, s.kernel, q, w);
    var e := Get(s.mem, q, 4, w);
    if Present(e) {
      assert SameFrame(s.mem, s1.mem, Fr(e));
    }
  }

  // ----- all steps and all runs

  // The free frames that the handling of one event takes.
  function Cost(sys: System, ev: Event): nat
    requires sys.ring != []
  {
    if sys.halted then 0
    else
      match ev
      case ForkCall(_, _) => 1 + Tables(sys.mach.mem, sys.ring[0].vmap, 4)
      case Load(v, off) => AccessCost(sys.mach, sys.ring[0].vmap, v, off, false)
      case Store(v, off, _) => AccessCost(sys.mach, sys.ring[0].vmap, v, off, true)
      case _ => 0
  }

  // The event is not a store that the fault handler turns down although the page is mapped.
  ghost predicate Seen(sys: System, ev: Event)
    requires sys.ring != []
  {
    !sys.halted && ev.Store? ==> StoreSeen(sys, ev.v, ev.off)
  }

  lemma TlbStep(sys: System, roles: seq<Role>, ev: Event)
    returns (sys': System)
    requires Inv(sys, roles) && !sys.halted && (ev.Fill? || ev.Evict?)
    ensures Step(sys, ev) == Some((sys', Silent)) && Inv(sys', roles)
    ensures IdealStep(Abstract(sys), ev) == (Abstract(sys'), Silent)
  {
    hide MemoryOf, Layout, Exclusive, Get, Present;
    sys' := Step(sys, ev).value.0;
  }

  // One event that is seen does the same on both machines.
  lemma StepRefines(sys: System, roles: seq<Role>, ev: Event)
    returns (sys': System, out: Out, roles': seq<Role>)
    requires Inv(sys, roles) && Seen(sys, ev) && Frames.Available(sys.mach.pmm) >= Cost(sys, ev)
    ensures Step(sys, ev) == Some((sys', out)) && Inv(sys', roles')
    ensures IdealStep(Abstract(sys), ev) == (Abstract(sys'), out)
  {
    hide Ok, Coherent, Exclusive, Access, ForkSpace, AbstractRing, Tables, Step, IdealStep, StoreSeen;
    roles' := roles;
    if sys.halted {
      HaltedStep(sys, ev);
      sys', out := sys, Silent;
    } else {
      match ev {
        case Tick(now, frame) => sys', out := TickStep(sys, roles, now, frame);
        case ForkCall(frame, junk) => sys', out, roles' := ForkStep(sys, roles, frame, junk);
        case Load(v, off) => sys', out, roles' := LoadStep(sys, roles, v, off);
        case Store(v, off, x) => sys', out, roles' := StoreStep(sys, roles, v, off, x);
        case Fill(v) => sys' := TlbStep(sys, roles, ev); out := Silent;
        case Evict(v) => sys' := TlbStep(sys, roles, ev); out := Silent;
      }
    }
  }

  // A store that is not seen faults, and the invariant is kept all the same.
  lemma UnseenStep(sys: System, roles: seq<Role>, ev: Event)
    returns (sys': System, out: Out, roles': seq<Role>)
    requires Inv(sys, roles) && !Seen(sys, ev) && Frames.Available(sys.mach.pmm) >= Cost(sys, ev)
    ensures Step(sys, ev) == Some((sys', out)) && Inv(sys', roles')
    ensures out == Fault && IdealStep(Abstract(sys), ev).1 == Stored
  {
    hide Ok, Coherent, Exclusive, Access, AbstractRing, Step, IdealStep, StoreSeen;
    sys', out, roles' := StoreStep(sys, roles, ev.v, ev.off, ev.x);
  }

  lemma HaltedStep(sys: System, ev: Event)
    requires sys.ring != [] && sys.halted
    ensures Step(sys, ev) == Some((sys, Silent)) && IdealStep(Abstract(sys), ev) == (Abstract(sys), Silent)
  {
  }

  // Before every event of the run there are enough free frames for it.
  predicate Enough(sys: System, evs: seq<Event>)
    requires sys.ring != []
    decreases |evs|
  {
    evs == [] ||
    (&& Frames.Available(sys.mach.pmm) >= Cost(sys, evs[0])
     && (Step(sys, evs[0]).Some? && Step(sys, evs[0]).value.0.ring != [] ==>
           Enough(Step(sys, evs[0]).value.0, evs[1..])))
  }

  // No store of the run goes to a read-only page at an address beyond ptr_is_user.
  ghost predicate AllSeen(sys: System, evs: seq<Event>)
    requires sys.ring != []
    decreases |evs|
  {
    evs == [] ||
    (&& Seen(sys, evs[0])
     && (Step(sys, evs[0]).Some? && Step(sys, evs[0]).value.0.ring != [] ==>
           AllSeen(Step(sys, evs[0]).value.0, evs[1..])))
  }

  // In particular, none does if no store goes to the last word of the user half.
  lemma {:induction false} UserRangeIsSeen(sys: System, evs: seq<Event>)
    requires sys.ring != []
    requires forall i :: 0 <= i < |evs| && evs[i].Store? ==> evs[i].v != 0x7_ffff_ffff || evs[i].off != 511
    ensures AllSeen(sys, evs)
    decreases |evs|
  {
    hide Step;
    if evs != [] && Step(sys, evs[0]).Some? && Step(sys, evs[0]).value.0.ring != [] {
      UserRangeIsSeen(Step(sys, evs[0]).value.0, evs[1..]);
    }
  }

  /** Copy-on-write refines eager copying: on every run of forks, timer switches, loads, stores and
      translation caching, the kernel shows each process exactly what it would see if fork had copied
      all its memory; and the invariant holds in the state reached. */
  lemma {:induction false} CopyOnWriteRefinesCopying(sys: System, roles: seq<Role>, evs: seq<Event>)
    returns (sys': System, outs: seq<Out>, roles': seq<Role>)
    requires Inv(sys, roles) && Enough(sys, evs) && AllSeen(sys, evs)
    ensures Run(sys, evs) == Some((sys', outs)) && Inv(sys', roles')
    ensures IdealRun(Abstract(sys), evs) == (Abstract(sys'), outs)
    decreases |evs|
  {
    hide Step, IdealStep, AbstractRing, Cost, Ok, Coherent, Exclusive, Seen;
    if evs == [] {
      sys', outs, roles' := sys, [], roles;
    } else {
      var sys1, out, roles1 := StepRefines(sys, roles, evs[0]);
      var rest;
      sys', rest, roles' := CopyOnWriteRefinesCopying(sys1, roles1, evs[1..]);
      outs := [out] + rest;
    }
  }

  /** Without the condition on stores the kernel still reaches a state that satisfies the invariant, and
      its outputs are those of the ideal machine if and only if the condition holds. */
  lemma {:induction false} RunsAgreeIffStoresAreSeen(sys: System, roles: seq<Role>, evs: seq<Event>)
    returns (sys': System, outs: seq<Out>, roles': seq<Role>)
    requires Inv(sys, roles) && Enough(sys, evs)
    ensures Run(sys, evs) == Some((sys', outs)) && Inv(sys', roles')
    ensures IdealRun(Abstract(sys), evs).1 == outs <==> AllSeen(sys, evs)
    decreases |evs|
  {
    hide Step, IdealStep, AbstractRing, Cost, Ok, Coherent, Exclusive, Seen;
    if evs == [] {
      sys', outs, roles' := sys, [], roles;
    } else {
      var sys1, out, roles1;
      if Seen(sys, evs[0]) {
        sys1, out, roles1 := StepRefines(sys, roles, evs[0]);
      } else {
        sys1, out, roles1 := UnseenStep(sys, roles, evs[0]);
      }
      var rest;
      sys', rest, roles' := RunsAgreeIffStoresAreSeen(sys1, roles1, evs[1..]);
      outs := [out] + rest;
      var st1, iout := IdealStep(Abstract(sys), evs[0]).0, IdealStep(Abstract(sys), evs[0]).1;
      IdealRingStays(Abstract(sys), evs[0]);
      SameHead(iout, IdealRun(st1, evs[1..]).1, out, rest);
    }
  }

  // The last word of the user half, which holds the initial stack's last page, is beyond ptr_is_user.
  const LAST_PAGE: nat := 0x7_ffff_ffff

  // After a fork, no page of the running task is writable.
  lemma ForkProtects(sys: System, roles: seq<Role>, frame: S.Frame, junk: Word, v: nat)
    requires Inv(sys, roles) && !sys.halted && v < LOWER
    requires Frames.Available(sys.mach.pmm) >= 1 + Tables(sys.mach.mem, sys.ring[0].vmap, 4)
    requires Present(Get(sys.mach.mem, sys.ring[0].vmap, 4, v))
    ensures var r := Step(sys, ForkCall(frame, junk));
      && r.Some? && r.value.1 == Silent && !r.value.0.halted && r.value.0.ring != []
      && r.value.0.ring[0] == sys.ring[0]
      && var e := Get(r.value.0.mach.mem, sys.ring[0].vmap, 4, v); Present(e) && !Writable(e)
  {
    hide Get, Present, Writable, UserBit, Huge, Fr, ForkSpace, Tables, ClearWritable, Exclusive, Coherent;
    RingNonempty(sys.ring, roles);
    var r := sys.ring[0].vmap;
    var n, s1, roles1 := ForkEffect(sys.mach, roles, r);
    RootKept(roles, roles1, r, sys.mach, n);
    PageTableProtect.ClearWritableBits(Get(sys.mach.mem, r, 4, v));
  }

  /** The condition is not met by every run: once a task with its stack page has forked, a store to
      the last word of that page faults and halts the kernel, where the ideal machine stores. */
  lemma LastWordIsLostAfterFork(sys: System, roles: seq<Role>, frame: S.Frame, junk: Word, x: Word)
    requires Inv(sys, roles) && !sys.halted
    requires Frames.Available(sys.mach.pmm) >= 1 + Tables(sys.mach.mem, sys.ring[0].vmap, 4)
    requires Present(Get(sys.mach.mem, sys.ring[0].vmap, 4, LAST_PAGE))
    ensures var evs := [ForkCall(frame, junk), Store(LAST_PAGE, 511, x)];
      && Enough(sys, evs) && !AllSeen(sys, evs)
      && Run(sys, evs).Some? && Run(sys, evs).value.0.halted
      && Run(sys, evs).value.1 == [Silent, Fault]
      && IdealRun(Abstract(sys), evs).1 == [Silent, Stored]
  {
    hide Get, Present, Writable, Step, IdealStep, Inv, Abstract, Tables;
    var fork, store := ForkCall(frame, junk), Store(LAST_PAGE, 511, x);
    InvRing(sys, roles);
    ForkProtects(sys, roles, frame, junk, LAST_PAGE);
    var sys1, out1, roles1 := ForkStep(sys, roles, frame, junk);
    var sys2, out2, roles2 := UnseenStep(sys1, roles1, store);
    UnseenHalts(sys1, LAST_PAGE, 511, x);
    TwoSteps(sys, fork, store);
    TwoIdealSteps(Abstract(sys), fork, store);
  }

  lemma InvRing(sys: System, roles: seq<Role>)
    requires Inv(sys, roles)
    ensures sys.ring != [] && Abstract(sys).ring != []
  {
    hide Ok, Coherent, Exclusive;
  }

  lemma UnseenHalts(sys: System, v: Page, off: Offset, x: Word)
    requires sys.ring != [] && Step(sys, Store(v, off, x)).Some? && !sys.halted
    ensures Step(sys, Store(v, off, x)).value.1 == Fault ==> Step(sys, Store(v, off, x)).value.0.halted
    ensures Step(sys, Store(v, off, x)).value.0.ring == sys.ring
  {
    hide Access;
  }

  lemma OneStep(sys: System, b: Event)
    requires sys.ring != [] && Step(sys, b).Some? && Step(sys, b).value.0.ring != []
    ensures Run(sys, [b]) == Some((Step(sys, b).value.0, [Step(sys, b).value.1]))
    ensures Enough(sys, [b]) <==> Frames.Available(sys.mach.pmm) >= Cost(sys, b)
    ensures AllSeen(sys, [b]) <==> Seen(sys, b)
  {
    hide Step, Cost, Seen;
    var evs := [b];
    assert evs[1..] == [];
    assert Run(sys, evs) == Some((Step(sys, b).value.0, [Step(sys, b).value.1] + []));
    assert [Step(sys, b).value.1] + [] == [Step(sys, b).value.1];
    assert Enough(sys, evs) <==>
      Frames.Available(sys.mach.pmm) >= Cost(sys, b) && Enough(Step(sys, b).value.0, evs[1..]);
    assert AllSeen(sys, evs) <==> Seen(sys, b) && AllSeen(Step(sys, b).value.0, evs[1..]);
  }

  lemma TwoSteps(sys: System, a: Event, b: Event)
    requires sys.ring != [] && Step(sys, a).Some? && Step(sys, a).value.0.ring != []
    requires Step(Step(sys, a).value.0, b).Some? && Step(Step(sys, a).value.0, b).value.0.ring != []
    ensures var sys1 := Step(sys, a).value.0;
      var sys2 := Step(sys1, b).value.0;
      && Run(sys, [a, b]) == Some((sys2, [Step(sys, a).value.1, Step(sys1, b).value.1]))
      && (Enough(sys, [a, b]) <==>
            Frames.Available(sys.mach.pmm) >= Cost(sys, a) && Frames.Available(sys1.mach.pmm) >= Cost(sys1, b))
      && (AllSeen(sys, [a, b]) <==> Seen(sys, a) && Seen(sys1, b))
  {
    hide Step, Cost, Seen;
    var evs, sys1 := [a, b], Step(sys, a).value.0;
    assert evs[1..] == [b];
    OneStep(sys1, b);
    var sys2 := Step(sys1, b).value.0;
    var out1, out2 := Step(sys, a).value.1, Step(sys1, b).value.1;
    assert Run(sys, evs) == Some((sys2, [out1] + [out2]));
    assert [out1] + [out2] == [out1, out2];
    assert Enough(sys, evs) <==> Frames.Available(sys.mach.pmm) >= Cost(sys, a) && Enough(sys1, evs[1..]);
    assert AllSeen(sys, evs) <==> Seen(sys, a) && AllSeen(sys1, evs[1..]);
  }

  lemma TwoIdealSteps(st: Ideal, a: Event, b: Event)
    requires st.ring != []
    ensures IdealStep(st, a).0.ring != []
    ensures IdealRun(st, [a, b]).1 == [IdealStep(st, a).1, IdealStep(IdealStep(st, a).0, b).1]
  {
    hide IdealStep;
    IdealRingStays(st, a);
    var st1 := IdealStep(st, a).0;
    var evs := [a, b];
    OneIdealStep(st1, b);
    assert evs[1..] == [b];
    assert IdealRun(st, evs).1 == [IdealStep(st, a).1] + IdealRun(st1, evs[1..]).1;
  }

  lemma OneIdealStep(st: Ideal, b: Event)
    requires st.ring != []
    ensures IdealRun(st, [b]).1 == [IdealStep(st, b).1]
  {
    hide IdealStep;
    IdealRingStays(st, b);
    var evs := [b];
    assert evs[1..] == [];
    assert IdealRun(st, evs).1 == [IdealStep(st, b).1] + IdealRun(IdealStep(st, b).0, evs[1..]).1;
  }

  lemma SameHead(a: Out, s: seq<Out>, b: Out, t: seq<Out>)
    ensures [a] + s == [b] + t <==> a == b && s == t
  {
    assert ([a] + s)[0] == a && ([b] + t)[0] == b;
    assert ([a] + s)[1..] == s && ([b] + t)[1..] == t;
  }
}
