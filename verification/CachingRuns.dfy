/** Runs of the kernel on a processor that caches translations at any time during copy-on-write
    faults and forks: the processes see the same. */
module CachingRuns {
  import opened Options
  import opened PageTables
  import opened CopyOnWrite
  import opened Forking
  import opened FaultCaching
  import opened ForkCaching
  import opened Systems
  import opened Refinement
  import S = Scheduling
  import Frames

  // What the processor does during one fault, before the words of the copy and between the other steps,
  // or during one fork, in the passes over parent and child and before them.
  datatype Caching = Caching(copy: nat -> Choice, steps: nat -> Choice, parent: nat -> Choice, child: nat -> Choice)

  function AccessWith(s: Machine, r: nat, v: nat, off: nat, write: bool, c: Caching): Option<(bool, Machine)> {
    if Allowed(s, v, write) then Some((true, s))
    else if !UserPtr(v, off) then Some((false, s))
    else
      var (ok, s1) :- CowWith(s, r, v, c.copy, c.steps);
      if !ok then Some((false, s1))
      else if Allowed(s1, v, write) then Some((true, s1))
      else None
  }

  /** `Step` with faults and forks during which the processor caches and drops translations. */
  function StepWith(sys: System, ev: Event, c: Caching): Option<(System, Out)>
    requires sys.ring != []
  {
    var s, r := sys.mach, sys.ring[0].vmap;
    if sys.halted then Step(sys, ev)
    else
      match ev
      case Load(v, off) =>
        var (ok, s1) :- AccessWith(s, r, v, off, false, c);
        if ok then Some((sys.(mach := s1), Value(Rd(s1.mem, Fr(Translate(s1, v)), off))))
        else Some((sys.(mach := s1, halted := true), Fault))
      case Store(v, off, x) =>
        var (ok, s1) :- AccessWith(s, r, v, off, true, c);
        if !ok then Some((sys.(mach := s1, halted := true), Fault))
        else if InMemory(s1.mem, Fr(Translate(s1, v))) then
          Some((sys.(mach := s1.(mem := Put(s1.mem, Fr(Translate(s1, v)), off, x))), Stored))
        else None
      case ForkCall(frame, junk) =>
        var (n, s1) :- ForkSpaceWith(s, r, c.steps(0), c.parent, c.child);
        Some((sys.(mach := s1, ring := S.Insert(sys.ring, S.Child(frame, n, junk, sys.tid)),
                   tid := (sys.tid + 1) % 256), Silent))
      case _ => Step(sys, ev)
  }

  function RunWith(sys: System, evs: seq<Event>, cs: seq<Caching>): Option<(System, seq<Out>)>
    requires sys.ring != [] && |cs| == |evs|
    decreases |evs|
  {
    if evs == [] then Some((sys, []))
    else
      var (sys1, out) :- StepWith(sys, evs[0], cs[0]);
      if sys1.ring == [] then None
      else
        var (sys2, outs) :- RunWith(sys1, evs[1..], cs[1..]);
        Some((sys2, [out] + outs))
  }

  // ----- one step

  lemma AccessTwin(s: Machine, roles: seq<Role>, r: nat, v: nat, off: nat, write: bool, c: Caching)
    returns (ok: bool, s1: Machine, s2: Machine, roles': seq<Role>)
    requires Ok(s, roles) && Coherent(s) && Exclusive(s.mem, roles) && IsRoot(roles, r) && s.cr3 == r
    requires v < PAGES && off < 512
    requires Frames.Available(s.pmm) >= AccessCost(s, r, v, off, write)
    ensures Access(s, r, v, off, write) == Some((ok, s1)) && AccessWith(s, r, v, off, write, c) == Some((ok, s2))
    ensures SameBut(s1, s2) && Coherent(s2) && Stable(s, roles, s1, roles')
    ensures ok ==> v < LOWER && Present(Get(s1.mem, r, 4, v)) && (write ==> Writable(Get(s1.mem, r, 4, v)))
  {
    hide Get, Present, Writable, UserBit, Huge, Fr, Exclusive, MemoryOf, Cow, CowWith, Allowed, Missing, Layout;
    ok, s1, roles' := AccessEffect(s, roles, r, v, off, write);
    AllowedMeans(s, roles, v, write);
    s2 := s1;
    var e := Get(s.mem, r, 4, v);
    if !Allowed(s, v, write) && UserPtr(v, off) {
      RootWalkable(s.mem, roles, s.kernel, r, v);
      if Present(e) {
        MappedIsData(s.mem, roles, s.kernel, r, v);
        CowWithEffect(s, roles, r, v, c.copy, c.steps);
        s2 := CowWith(s, r, v, c.copy, c.steps).value.1;
        AllowedTwin(s1, s2, roles', v, write);
      } else {
        NoCowWith(s, r, v, c);
        CowOfAbsent(s, r, v);
      }
    }
  }

  lemma NoCowWith(s: Machine, r: nat, v: nat, c: Caching)
    requires Walkable(s.mem, r, 4, v) && !Present(Get(s.mem, r, 4, v))
    ensures CowWith(s, r, v, c.copy, c.steps) == Some((false, s))
  {
  }

  // Coherent caches decide nothing.
  lemma AllowedTwin(s1: Machine, s2: Machine, roles: seq<Role>, v: nat, write: bool)
    requires Ok(s1, roles) && Coherent(s1) && Coherent(s2) && SameBut(s1, s2) && IsRoot(roles, s1.cr3) && v < PAGES
    ensures Allowed(s1, v, write) == Allowed(s2, v, write) && Translate(s1, v) == Translate(s2, v)
    ensures Translate(s1, v) == Get(s1.mem, s1.cr3, 4, v)
  {
    hide Get, Present, Writable, Layout, Allowed, Translate;
    AllowedMeans(s1, roles, v, write);
    AllowedMeans(s2, roles, v, write);
  }

  // The system in the same state but for the cache.
  ghost predicate Twin(sys: System, tys: System) {
    tys == sys.(mach := tys.mach) && SameBut(sys.mach, tys.mach) && Coherent(tys.mach)
  }

  lemma TwinIsAsGood(sys: System, tys: System, roles: seq<Role>)
    requires Inv(sys, roles) && Twin(sys, tys)
    ensures Inv(tys, roles) && Abstract(tys) == Abstract(sys)
  {
    hide Layout, Exclusive, MemoryOf, Coherent;
  }

  // A step with any caching ends in a twin of the state that it ends in without, with the same output.
  lemma StepTwin(sys: System, roles: seq<Role>, ev: Event, c: Caching)
    returns (sys': System, tys': System, out: Out)
    requires Inv(sys, roles) && Frames.Available(sys.mach.pmm) >= Cost(sys, ev)
    requires Step(sys, ev).Some? && Coherent(Step(sys, ev).value.0.mach)
    ensures Step(sys, ev) == Some((sys', out)) && StepWith(sys, ev, c) == Some((tys', out)) && Twin(sys', tys')
  {
    hide Ok, Coherent, Exclusive, Access, AccessWith, Get, Present, Fr, Translate, Allowed, ForkSpace, ForkSpaceWith,
      MemoryOf, Tables, S.Child, S.Insert;
    sys', out := Step(sys, ev).value.0, Step(sys, ev).value.1;
    tys' := sys';
    if !sys.halted && (ev.Load? || ev.Store?) {
      RingNonempty(sys.ring, roles);
      var ok, s1, s2, roles1 := AccessTwin(sys.mach, roles, sys.ring[0].vmap, ev.v, ev.off, ev.Store?, c);
      AllowedTwin(s1, s2, roles1, ev.v, ev.Store?);
      tys' := StepWith(sys, ev, c).value.0;
      if ok && ev.Store? {
        StoredTwin(s1, s2, roles1, sys.ring[0].vmap, ev.v, ev.off, ev.x);
      }
    }
    if !sys.halted && ev.ForkCall? {
      RingNonempty(sys.ring, roles);
      ForkWithEffect(sys.mach, roles, sys.ring[0].vmap, c.steps(0), c.parent, c.child);
      tys' := StepWith(sys, ev, c).value.0;
    }
  }

  lemma StoredTwin(s1: Machine, s2: Machine, roles: seq<Role>, r: nat, v: nat, off: nat, x: nat)
    requires Ok(s1, roles) && Exclusive(s1.mem, roles) && SameBut(s1, s2) && Coherent(s2)
    requires IsRoot(roles, r) && s1.cr3 == r && v < LOWER && off < 512
    requires Present(Get(s1.mem, r, 4, v)) && Writable(Get(s1.mem, r, 4, v))
    ensures var f := Fr(Get(s1.mem, r, 4, v));
      InMemory(s1.mem, f) && Coherent(s2.(mem := Put(s1.mem, f, off, x)))
  {
    hide Get, Present, Writable, Fr, Layout, Exclusive, MemoryOf, Coherent;
    var s' := StoreEffect(s2, roles, r, v, off, x);
  }

  /** One event with any caching during it: the invariant is kept, and the output is that of the
      ideal machine exactly when the event is seen. */
  lemma StepWithRefines(sys: System, roles: seq<Role>, ev: Event, c: Caching)
    returns (sys': System, out: Out, roles': seq<Role>)
    requires Inv(sys, roles) && Frames.Available(sys.mach.pmm) >= Cost(sys, ev)
    ensures StepWith(sys, ev, c) == Some((sys', out)) && Inv(sys', roles')
    ensures Seen(sys, ev) ==> IdealStep(Abstract(sys), ev) == (Abstract(sys'), out)
    ensures IdealStep(Abstract(sys), ev).1 == out <==> Seen(sys, ev)
  {
    hide Step, StepWith, IdealStep, Seen, Abstract, Ok, Coherent, Exclusive, Cost;
    var sys1;
    if Seen(sys, ev) {
      sys1, out, roles' := StepRefines(sys, roles, ev);
    } else {
      sys1, out, roles' := UnseenStep(sys, roles, ev);
    }
    var _, tys, _ := StepTwin(sys, roles, ev, c);
    TwinIsAsGood(sys1, tys, roles');
    sys' := tys;
  }

  // ----- runs

  // Before every event of the run there are enough free frames for it.
  predicate EnoughWith(sys: System, evs: seq<Event>, cs: seq<Caching>)
    requires sys.ring != [] && |cs| == |evs|
    decreases |evs|
  {
    evs == [] ||
    (&& Frames.Available(sys.mach.pmm) >= Cost(sys, evs[0])
     && (StepWith(sys, evs[0], cs[0]).Some? && StepWith(sys, evs[0], cs[0]).value.0.ring != [] ==>
           EnoughWith(StepWith(sys, evs[0], cs[0]).value.0, evs[1..], cs[1..])))
  }

  ghost predicate AllSeenWith(sys: System, evs: seq<Event>, cs: seq<Caching>)
    requires sys.ring != [] && |cs| == |evs|
    decreases |evs|
  {
    evs == [] ||
    (&& Seen(sys, evs[0])
     && (StepWith(sys, evs[0], cs[0]).Some? && StepWith(sys, evs[0], cs[0]).value.0.ring != [] ==>
           AllSeenWith(StepWith(sys, evs[0], cs[0]).value.0, evs[1..], cs[1..])))
  }

  /** Copy-on-write refines eager copying on a processor that caches translations at any time: over
      every run and whatever is cached, the invariant is kept, and the outputs are those of the ideal
      machine if and only if no store goes to a read-only page beyond ptr_is_user. */
  lemma {:induction false} CachingRunsRefineCopying(sys: System, roles: seq<Role>, evs: seq<Event>, cs: seq<Caching>)
    returns (sys': System, outs: seq<Out>, roles': seq<Role>)
    requires |cs| == |evs| && Inv(sys, roles) && sys.ring != [] && EnoughWith(sys, evs, cs)
    ensures RunWith(sys, evs, cs) == Some((sys', outs)) && Inv(sys', roles')
    ensures IdealRun(Abstract(sys), evs).1 == outs <==> AllSeenWith(sys, evs, cs)
    ensures AllSeenWith(sys, evs, cs) ==> IdealRun(Abstract(sys), evs).0 == Abstract(sys')
    decreases |evs|
  {
    hide StepWith, IdealStep, AbstractRing, Cost, Ok, Coherent, Exclusive, Seen;
    if evs == [] {
      sys', outs, roles' := sys, [], roles;
    } else {
      var sys1, out, roles1 := StepWithRefines(sys, roles, evs[0], cs[0]);
      var rest;
      sys', rest, roles' := CachingRunsRefineCopying(sys1, roles1, evs[1..], cs[1..]);
      outs := [out] + rest;
      var st1, iout := IdealStep(Abstract(sys), evs[0]).0, IdealStep(Abstract(sys), evs[0]).1;
      IdealRingStays(Abstract(sys), evs[0]);
      SameHead(iout, IdealRun(st1, evs[1..]).1, out, rest);
    }
  }
}
