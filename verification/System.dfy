/** The kernel as the user processes see it: timer ticks, forks, and loads and stores that may
    fault (`kernel/src/interrupts/interrupts.c`), on shared frames with copy-on-write.  Every run
    of it behaves as a run of the ideal machine, where fork copies memory at once and each task
    has a memory of its own. */
module Systems {
  import opened Bits
  import opened Options
  import opened PageTables
  import opened CopyOnWrite
  import opened Forking
  import S = Scheduling

  type Page = v: nat | v < PAGES
  type Offset = i: nat | i < 512   // of a 64-bit word in a page

  datatype System = System(mach: Machine, ring: seq<S.Task<nat>>, tid: nat, halted: bool)

  datatype Event =
    | Tick(now: Word, frame: S.Frame)                 // the timer interrupt
    | ForkCall(frame: S.Frame, junk: Word)            // junk: the uninitialized deadline of the child
    | Load(v: Page, off: Offset)                      // by the running user process
    | Store(v: Page, off: Offset, x: Word)
    | Fill(v: Page)                                   // the processor caches a translation
    | Evict(v: Page)

  datatype Out = Silent | Resumed(frame: S.Frame) | Value(x: nat) | Stored | Fault

  // ----- the processor

  // Rights are checked on every level of a walk (Intel SDM, volume 3A, section 4.6).
  predicate UserMay(m: seq<nat>, t: nat, level: nat, v: nat, write: bool)
    requires level > 0
    decreases level
  {
    var e := Rd(m, t, Idx(v, level));
    && Present(e) && UserBit(e) && (write ==> Writable(e))
    && (level == 1 || Huge(e) || UserMay(m, Fr(e), level - 1, v, write))
  }

  // A cached translation is checked by its own rights.  The top-level entries over the kernel
  // half never admit the user.
  predicate Allowed(s: Machine, v: nat, write: bool) {
    if v in s.tlb then v < LOWER && UserBit(s.tlb[v]) && (write ==> Writable(s.tlb[v]))
    else UserMay(s.mem, s.cr3, 4, v, write)
  }

  // ptr_is_user of the address of the word
  predicate UserPtr(v: nat, off: nat) {
    0x1000 * v + 8 * off <= 0x7fff_ffff_fff0
  }

  // A user access: on a fault the handler tries copy-on-write, and the access is retried.
  // False means that the handler gave up.
  function Access(s: Machine, r: nat, v: nat, off: nat, write: bool): Option<(bool, Machine)> {
    if Allowed(s, v, write) then Some((true, s))
    else if !UserPtr(v, off) then Some((false, s))
    else
      var (ok, s1) :- Cow(s, r, v);
      if !ok then Some((false, s1))
      else if Allowed(s1, v, write) then Some((true, s1))
      else None
  }

  // ----- the kernel and its processes

  function Step(sys: System, ev: Event): Option<(System, Out)>
    requires sys.ring != []
  {
    var s, r := sys.mach, sys.ring[0].vmap;
    if sys.halted then Some((sys, Silent))
    else
      match ev
      case Tick(now, frame) =>
        var ring := S.Tick(sys.ring, now, frame);
        if S.Expired(sys.ring, now) then
          Some((sys.(ring := ring, mach := s.(cr3 := ring[0].vmap, tlb := map[])), Resumed(S.Resume(ring[0]))))
        else Some((sys, Silent))
      case ForkCall(frame, junk) =>
        var (n, s1) :- ForkSpace(s, r);
        Some((sys.(mach := s1, ring := S.Insert(sys.ring, S.Child(frame, n, junk, sys.tid)),
                   tid := (sys.tid + 1) % 256), Silent))
      case Load(v, off) =>
        var (ok, s1) :- Access(s, r, v, off, false);
        if ok then Some((sys.(mach := s1), Value(Rd(s1.mem, Fr(Translate(s1, v)), off))))
        else Some((sys.(mach := s1, halted := true), Fault))
      case Store(v, off, x) =>
        var (ok, s1) :- Access(s, r, v, off, true);
        if !ok then Some((sys.(mach := s1, halted := true), Fault))
        else if InMemory(s1.mem, Fr(Translate(s1, v))) then
          Some((sys.(mach := s1.(mem := Put(s1.mem, Fr(Translate(s1, v)), off, x))), Stored))
        else None
      case Fill(v) =>
        var e := Get(s.mem, s.cr3, 4, v);
        Some((if Present(e) then sys.(mach := s.(tlb := s.tlb[v := e])) else sys, Silent))
      case Evict(v) =>
        Some((sys.(mach := s.(tlb := s.tlb - {v})), Silent))
  }

  function Run(sys: System, evs: seq<Event>): Option<(System, seq<Out>)>
    requires sys.ring != []
    decreases |evs|
  {
    if evs == [] then Some((sys, []))
    else
      var (sys1, out) :- Step(sys, evs[0]);
      if sys1.ring == [] then None
      else
        var (sys2, outs) :- Run(sys1, evs[1..]);
        Some((sys2, [out] + outs))
  }

  // ----- the ideal machine

  type Memory = map<nat, seq<nat>>   // the words of each mapped page

  datatype Ideal = Ideal(ring: seq<S.Task<Memory>>, tid: nat, halted: bool)

  // One word of page v replaced.
  function Written(mem: Memory, v: nat, off: nat, x: nat): Memory
    requires v in mem && off < |mem[v]|
  {
    var page: seq<nat> := mem[v][off := x];
    mem[v := page]
  }

  function IdealStep(st: Ideal, ev: Event): (Ideal, Out)
    requires st.ring != []
  {
    var mem := st.ring[0].vmap;
    if st.halted then (st, Silent)
    else
      match ev
      case Tick(now, frame) =>
        var ring := S.Tick(st.ring, now, frame);
        if S.Expired(st.ring, now) then (st.(ring := ring), Resumed(S.Resume(ring[0]))) else (st, Silent)
      case ForkCall(frame, junk) =>
        (st.(ring := S.Insert(st.ring, S.Child(frame, mem, junk, st.tid)), tid := (st.tid + 1) % 256), Silent)
      case Load(v, off) =>
        if v in mem && off < |mem[v]| then (st, Value(mem[v][off])) else (st.(halted := true), Fault)
      case Store(v, off, x) =>
        if v in mem && off < |mem[v]| then
          (st.(ring := st.ring[0 := st.ring[0].(vmap := Written(mem, v, off, x))]), Stored)
        else (st.(halted := true), Fault)
      case Fill(_) => (st, Silent)
      case Evict(_) => (st, Silent)
  }

  function IdealRun(st: Ideal, evs: seq<Event>): (Ideal, seq<Out>)
    requires st.ring != []
    decreases |evs|
  {
    if evs == [] then (st, [])
    else
      var (st1, out) := IdealStep(st, evs[0]);
      IdealRingStays(st, evs[0]);
      var (st2, outs) := IdealRun(st1, evs[1..]);
      (st2, [out] + outs)
  }

  lemma IdealRingStays(st: Ideal, ev: Event)
    requires st.ring != []
    ensures IdealStep(st, ev).0.ring != []
  {
  }

  // ----- the abstraction: what a task can read

  ghost function MemoryOf(m: seq<nat>, r: nat): Memory {
    map v | 0 <= v < LOWER && Present(Get(m, r, 4, v)) && InMemory(m, Fr(Get(m, r, 4, v)))
      :: Frame(m, Fr(Get(m, r, 4, v)))
  }

  ghost function AbstractTask(m: seq<nat>, t: S.Task<nat>): S.Task<Memory> {
    S.Task(t.regs, t.rsp, t.rflags, t.rip, MemoryOf(m, t.vmap), t.deadline, t.id)
  }

  ghost function AbstractRing(m: seq<nat>, ring: seq<S.Task<nat>>): (ideal: seq<S.Task<Memory>>)
    ensures |ideal| == |ring|
  {
    seq(|ring|, i requires 0 <= i < |ring| => AbstractTask(m, ring[i]))
  }

  ghost function Abstract(sys: System): Ideal {
    Ideal(AbstractRing(sys.mach.mem, sys.ring), sys.tid, sys.halted)
  }

  // ----- the invariant

  ghost predicate RingOk(ring: seq<S.Task<nat>>, roles: seq<Role>) {
    && ring != []
    && (forall i :: 0 <= i < |ring| ==> IsRoot(roles, ring[i].vmap))
    && (forall i, j :: 0 <= i < j < |ring| ==> ring[i].vmap != ring[j].vmap)
  }

  ghost predicate Inv(sys: System, roles: seq<Role>) {
    && Ok(sys.mach, roles) && Coherent(sys.mach) && Exclusive(sys.mach.mem, roles)
    && RingOk(sys.ring, roles) && sys.mach.cr3 == sys.ring[0].vmap
  }
}
