/** The kernel's own translations in runs: no event changes them, the page aside that copy-on-write
    maps and unmaps.  In particular the direct map, through which the kernel reaches its tables,
    stays as the initialization leaves it. */
module KernelHalf {
  import opened PageTables
  import opened CopyOnWrite
  import opened DirectMapping
  import opened Forking
  import opened Systems
  import opened Refinement
  import S = Scheduling
  import Frames

  ghost predicate KeepsKernelHalf(s: Machine, s': Machine) {
    && s'.kernel == s.kernel && KernelHalfKept(s.mem, s'.mem, s.kernel)
    && (Get(s.mem, s.kernel, 4, 0x8_1020_0000) == 0 ==> Get(s'.mem, s.kernel, 4, 0x8_1020_0000) == 0)
  }

  lemma ForkKeeps(s: Machine, roles: seq<Role>, r: nat)
    requires Ok(s, roles) && IsRoot(roles, r) && Frames.Available(s.pmm) >= 1 + Tables(s.mem, r, 4)
    ensures ForkSpace(s, r).Some? && KeepsKernelHalf(s, ForkSpace(s, r).value.1)
  {
    hide Get, Present, Ok, ForkSpace, Tables, ClearWritable;
    KernelIsRoot(s, roles);
    var n, s', roles' := ForkEffect(s, roles, r);
  }

  lemma AccessKeeps(s: Machine, roles: seq<Role>, r: nat, v: nat, off: nat, write: bool)
    requires Ok(s, roles) && Coherent(s) && Exclusive(s.mem, roles) && IsRoot(roles, r) && s.cr3 == r
    requires v < PAGES && off < 512 && Frames.Available(s.pmm) >= AccessCost(s, r, v, off, write)
    ensures Access(s, r, v, off, write).Some? && KeepsKernelHalf(s, Access(s, r, v, off, write).value.1)
  {
    hide Get, Present, Writable, UserBit, Huge, Fr, FreeOk, Exclusive, Cow, Allowed, Missing, MemoryOf, CowCost, Layout;
    KernelIsRoot(s, roles);
    var ok, s1, roles1 := AccessEffect(s, roles, r, v, off, write);
    if !Allowed(s, v, write) && UserPtr(v, off) {
      if Present(Get(s.mem, r, 4, v)) {
        MappedIsData(s.mem, roles, s.kernel, r, v);
        var f, s2, roles2 := CowEffect(s, roles, r, v);
      } else {
        RootWalkable(s.mem, roles, s.kernel, r, v);
        CowOfAbsent(s, r, v);
      }
    }
  }

  // A word of a mapped user page is stored.
  lemma StoreKeeps(s: Machine, roles: seq<Role>, r: nat, v: nat, off: nat, x: nat)
    requires Ok(s, roles) && IsRoot(roles, r) && v < LOWER && off < 512 && Present(Get(s.mem, r, 4, v))
    ensures var f := Fr(Get(s.mem, r, 4, v));
      InMemory(s.mem, f) && KeepsKernelHalf(s, s.(mem := Put(s.mem, f, off, x)))
  {
    hide Get, Present, Writable, UserBit, Huge, Fr, Layout;
    KernelIsRoot(s, roles);
    MappedIsData(s.mem, roles, s.kernel, r, v);
    MappedInMemory(s, roles, r, v);
    var s' := PutData(s, roles, Fr(Get(s.mem, r, 4, v)), off, x);
  }

  lemma StepKeepsKernelHalf(sys: System, roles: seq<Role>, ev: Event)
    requires Inv(sys, roles) && Frames.Available(sys.mach.pmm) >= Cost(sys, ev) && Step(sys, ev).Some?
    ensures KeepsKernelHalf(sys.mach, Step(sys, ev).value.0.mach)
  {
    hide Get, Present, Writable, Fr, Ok, Coherent, Exclusive, Access, AccessCost, ForkSpace, Tables, MemoryOf,
      Translate, S.Tick, S.Insert, S.Child, S.Resume;
    RingNonempty(sys.ring, roles);
    var s, r := sys.mach, sys.ring[0].vmap;
    if !sys.halted {
      match ev {
        case ForkCall(frame, junk) => ForkKeeps(s, roles, r);
        case Load(v, off) => AccessKeeps(s, roles, r, v, off, false);
        case Store(v, off, x) =>
          AccessKeeps(s, roles, r, v, off, true);
          var ok, s1, roles1 := AccessEffect(s, roles, r, v, off, true);
          if ok {
            AllowedMeans(s1, roles1, v, true);
            StoreKeeps(s1, roles1, r, v, off, x);
            KeptTwice(s, s1, Step(sys, ev).value.0.mach);
          }
        case _ =>
      }
    }
  }

  lemma KeptTwice(s: Machine, s1: Machine, s': Machine)
    requires KeepsKernelHalf(s, s1) && KeepsKernelHalf(s1, s')
    ensures KeepsKernelHalf(s, s')
  {
    hide Get;
  }

  /** In every reachable state the kernel half is as it was at the start, but for the scratch page; the
      direct map leads to every frame that it led to, the kernel's image is where it was, and no other
      page of its 512 GiB is mapped that was not. */
  lemma {:induction false} RunsKeepTheDirectMap(sys: System, roles: seq<Role>, evs: seq<Event>)
    requires Inv(sys, roles) && sys.ring != [] && Enough(sys, evs)
    ensures Run(sys, evs).Some? && Run(sys, evs).value.0.mach.kernel == sys.mach.kernel
    ensures var m, m', k := sys.mach.mem, Run(sys, evs).value.0.mach.mem, sys.mach.kernel;
      && (forall w: nat :: 0x8_0000_0000 <= w < 0x10_0000_0000 && w != 0x8_1020_0000 ==>
            Get(m', k, 4, w) == Get(m, k, 4, w))
      && (Get(m, k, 4, 0x8_1020_0000) == 0 ==> Get(m', k, 4, 0x8_1020_0000) == 0)
      && (forall p: nat :: p < 0x1000_0000 && DirectPage(m, k, p) ==> DirectPage(m', k, p))
      && (forall p: nat :: p < 0x8_0000 && ImagePage(m, k, p) ==> ImagePage(m', k, p))
      && (forall w: nat :: 0xf_f800_0000 <= w < 0xf_fff8_0000 && Get(m, k, 4, w) == 0 ==> Get(m', k, 4, w) == 0)
    decreases |evs|
  {
    hide Get, LeadsTo, KeepsKernelHalf;
    RunKeepsKernelHalf(sys, roles, evs);
    var m, m', k := sys.mach.mem, Run(sys, evs).value.0.mach.mem, sys.mach.kernel;
    assert KernelHalfKept(m, m', k) by { UnfoldKeeps(sys.mach, Run(sys, evs).value.0.mach); }
    forall p: nat | p < 0x1000_0000
      ensures DirectPage(m, k, p) <==> DirectPage(m', k, p)
    {
      LeadsKept(m, m', k, 0x8_0000_0000 + p, p);
    }
    forall p: nat | p < 0x8_0000
      ensures ImagePage(m, k, p) <==> ImagePage(m', k, p)
    {
      LeadsKept(m, m', k, 0xf_fff8_0000 + p, p);
    }
    UnfoldKeeps(sys.mach, Run(sys, evs).value.0.mach);
  }

  lemma UnfoldKeeps(s: Machine, s': Machine)
    requires KeepsKernelHalf(s, s')
    ensures s'.kernel == s.kernel && KernelHalfKept(s.mem, s'.mem, s.kernel)
    ensures Get(s.mem, s.kernel, 4, 0x8_1020_0000) == 0 ==> Get(s'.mem, s.kernel, 4, 0x8_1020_0000) == 0
  {
  }

  lemma {:induction false} RunKeepsKernelHalf(sys: System, roles: seq<Role>, evs: seq<Event>)
    requires Inv(sys, roles) && sys.ring != [] && Enough(sys, evs)
    ensures Run(sys, evs).Some? && KeepsKernelHalf(sys.mach, Run(sys, evs).value.0.mach)
    decreases |evs|
  {
    hide Inv, Step, Cost, KeepsKernelHalf;
    var sys', outs, roles' := RunsAgreeIffStoresAreSeen(sys, roles, evs);
    if evs == [] {
      NothingChanged(sys.mach);
    } else {
      var sys1, roles1 := NextState(sys, roles, evs[0]);
      StepKeepsKernelHalf(sys, roles, evs[0]);
      RunKeepsKernelHalf(sys1, roles1, evs[1..]);
      KeptTwice(sys.mach, sys1.mach, sys'.mach);
    }
  }

  lemma NothingChanged(s: Machine)
    ensures KeepsKernelHalf(s, s)
  {
  }

  lemma NextState(sys: System, roles: seq<Role>, ev: Event)
    returns (sys': System, roles': seq<Role>)
    requires Inv(sys, roles) && sys.ring != [] && Frames.Available(sys.mach.pmm) >= Cost(sys, ev)
    ensures Step(sys, ev).Some? && sys' == Step(sys, ev).value.0 && Inv(sys', roles') && sys'.ring != []
  {
    hide Inv, Step, Cost, Seen;
    var out;
    if Seen(sys, ev) {
      sys', out, roles' := StepRefines(sys, roles, ev);
    } else {
      sys', out, roles' := UnseenStep(sys, roles, ev);
    }
    InvNonempty(sys', roles');
  }

  lemma InvNonempty(sys: System, roles: seq<Role>)
    requires Inv(sys, roles)
    ensures sys.ring != []
  {
    RingNonempty(sys.ring, roles);
  }
}
