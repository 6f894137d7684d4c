/** Runs of the kernel whose forks take their task structures from the kernel heap: the processes see
    what they see without, and the heap stays tiled and mapped. */
module HeapRuns {
  import opened Bits
  import opened Options
  import opened PageTables
  import opened CopyOnWrite
  import opened Forking
  import opened KernelHalf
  import opened HeapPages
  import opened Systems
  import opened Refinement
  import S = Scheduling
  import Frames
  import Heaps

  // One event; a fork allocates.
  function StepHeap(sys: System, h: Heaps.Heap, ev: Event): Option<(System, Out, Heaps.Heap)>
    requires sys.ring != [] && Heaps.Tiles(h, Heaps.START)
  {
    if ev.ForkCall? && !sys.halted then ForkWithMalloc(sys, h, ev.frame, ev.junk)
    else
      var (sys1, out) :- Step(sys, ev);
      Some((sys1, out, h))
  }

  // The model stops where the heap is broken.
  ghost function RunHeap(sys: System, h: Heaps.Heap, evs: seq<Event>): Option<(System, seq<Out>, Heaps.Heap)>
    requires sys.ring != [] && Heaps.Tiles(h, Heaps.START)
    decreases |evs|
  {
    if evs == [] then Some((sys, [], h))
    else
      var (sys1, out, h1) :- StepHeap(sys, h, evs[0]);
      if sys1.ring == [] || !Heaps.Tiles(h1, Heaps.START) then None
      else
        var (sys2, outs, h2) :- RunHeap(sys1, h1, evs[1..]);
        Some((sys2, [out] + outs, h2))
  }

  // The free frames that one event takes.
  function CostHeap(sys: System, h: Heaps.Heap, ev: Event): nat
    requires sys.ring != [] && Heaps.Tiles(h, Heaps.START) && h.end >= Heaps.START
  {
    if ev.ForkCall? && !sys.halted then ForkCost(sys, h) else Cost(sys, ev)
  }

  // The frames for the event are there, the heap is within its limit, and a fork finds a roomy chunk.
  ghost predicate Ready(sys: System, h: Heaps.Heap, ev: Event)
    requires sys.ring != [] && Heaps.Tiles(h, Heaps.START)
  {
    && 0xffff_8100_0000_0000 <= h.end <= 0xffff_8102_0000_0000
    && Frames.Available(sys.mach.pmm) >= CostHeap(sys, h, ev)
    && (ev.ForkCall? && !sys.halted ==> Heaps.Roomy(h, 169))
  }

  ghost predicate AllReady(sys: System, h: Heaps.Heap, evs: seq<Event>)
    requires sys.ring != [] && Heaps.Tiles(h, Heaps.START)
    decreases |evs|
  {
    evs == [] ||
    (&& Ready(sys, h, evs[0])
     && match StepHeap(sys, h, evs[0])
        case None => true
        case Some((sys1, _, h1)) =>
          sys1.ring != [] && Heaps.Tiles(h1, Heaps.START) ==> AllReady(sys1, h1, evs[1..]))
  }

  ghost predicate AllSeenHeap(sys: System, h: Heaps.Heap, evs: seq<Event>)
    requires sys.ring != [] && Heaps.Tiles(h, Heaps.START)
    decreases |evs|
  {
    evs == [] ||
    (&& Seen(sys, evs[0])
     && match StepHeap(sys, h, evs[0])
        case None => true
        case Some((sys1, _, h1)) =>
          sys1.ring != [] && Heaps.Tiles(h1, Heaps.START) ==> AllSeenHeap(sys1, h1, evs[1..]))
  }

  // The kernel and its heap.
  ghost predicate InvHeap(sys: System, roles: seq<Role>, h: Heaps.Heap) {
    Inv(sys, roles) && Heaps.HeapOk(h) && HeapMapped(sys.mach, h)
  }

  // ----- one event

  // Events other than forks leave the heap mapped while it is within its limit.
  lemma KernelHalfKeepsHeap(s: Machine, s': Machine, h: Heaps.Heap)
    requires KeepsKernelHalf(s, s') && Heaps.HeapOk(h) && HeapMapped(s, h) && h.end <= Heaps.LIMIT
    ensures HeapMapped(s', h)
  {
    hide Get, Present, Heaps.HeapOk;
    HeapAddresses(h);
  }

  lemma RingLength(sys: System, ev: Event)
    requires sys.ring != [] && Step(sys, ev).Some?
    ensures |Step(sys, ev).value.0.ring| == |sys.ring| + if ev.ForkCall? && !sys.halted then 1 else 0
  {
    hide Access, ForkSpace, Get, Translate, S.Child, S.Resume, S.Expired;
  }

  // Blocks are only added, each of the size of a task structure.
  ghost predicate AddsStructures(h: Heaps.Heap, h': Heaps.Heap)
    requires Heaps.Tiles(h, Heaps.START) && Heaps.Tiles(h', Heaps.START)
  {
    var live, live' := Heaps.Live(h, Heaps.START), Heaps.Live(h', Heaps.START);
    live <= live' && forall b :: b in live' && b !in live ==> b.size == 169
  }

  // A fork from a roomy chunk adds one block.
  lemma OneMore(h: Heaps.Heap)
    requires Heaps.HeapOk(h) && h.end <= Heaps.LIMIT && Heaps.Roomy(h, TASK_SIZE)
    requires Heaps.AfterMalloc(h, TASK_SIZE).1.Some?
    requires var (h', r) := Heaps.AfterMalloc(h, TASK_SIZE); Heaps.Gains(h, h', r.value, TASK_SIZE)
    ensures var h' := Heaps.AfterMalloc(h, TASK_SIZE).0;
      |Heaps.Live(h', Heaps.START)| == |Heaps.Live(h, Heaps.START)| + 1 && AddsStructures(h, h')
  {
    hide Heaps.Find, Heaps.AfterMalloc, Heaps.Appended, Heaps.Chain, Heaps.Tiles, Heaps.Roomy, Heaps.Live;
    OnePage(h);
    Heaps.MallocEffect(h, TASK_SIZE);
    var block := Heaps.Block(Heaps.AfterMalloc(h, TASK_SIZE).1.value + 24, TASK_SIZE);
    assert block !in Heaps.Live(h, Heaps.START);
  }

  /** One event of a kernel whose forks allocate: the invariant of kernel and heap is kept, the output is
      that of the ideal machine exactly when the event is seen, and the heap holds one more block for
      each new task. */
  lemma StepHeapRefines(sys: System, roles: seq<Role>, h: Heaps.Heap, ev: Event)
    returns (sys': System, out: Out, h': Heaps.Heap, roles': seq<Role>)
    requires InvHeap(sys, roles, h) && sys.ring != [] && Ready(sys, h, ev)
    ensures StepHeap(sys, h, ev) == Some((sys', out, h')) && InvHeap(sys', roles', h') && sys'.ring != []
    ensures Seen(sys, ev) ==> IdealStep(Abstract(sys), ev) == (Abstract(sys'), out)
    ensures IdealStep(Abstract(sys), ev).1 == out <==> Seen(sys, ev)
    ensures |Heaps.Live(h', Heaps.START)| - |Heaps.Live(h, Heaps.START)| == |sys'.ring| - |sys.ring|
    ensures AddsStructures(h, h')
  {
    hide Inv, HeapMapped, Step, IdealStep, Abstract, Cost, ForkCost, ForkWithMalloc, Heaps.Roomy, Heaps.Live,
      Heaps.Chain;
    if ev.ForkCall? && !sys.halted {
      sys', out, h', roles' := ForkWithMallocEffect(sys, roles, h, ev.frame, ev.junk);
      ForkedRing(sys, h, ev.frame, ev.junk);
      OneMore(h);
    } else {
      if Seen(sys, ev) {
        sys', out, roles' := StepRefines(sys, roles, ev);
      } else {
        sys', out, roles' := UnseenStep(sys, roles, ev);
      }
      h' := h;
      StepKeepsKernelHalf(sys, roles, ev);
      KernelHalfKeepsHeap(sys.mach, sys'.mach, h);
      RingLength(sys, ev);
    }
    InvNonempty(sys', roles');
  }

  lemma ForkedRing(sys: System, h: Heaps.Heap, frame: S.Frame, junk: Word)
    requires sys.ring != [] && !sys.halted && Heaps.Tiles(h, Heaps.START) && ForkWithMalloc(sys, h, frame, junk).Some?
    ensures |ForkWithMalloc(sys, h, frame, junk).value.0.ring| == |sys.ring| + 1
    ensures ForkWithMalloc(sys, h, frame, junk).value.2 == Heaps.AfterMalloc(h, TASK_SIZE).0
  {
    hide Step, MallocPages, Heaps.AfterMalloc;
    RingLength(sys.(mach := MallocPages(sys.mach, h, TASK_SIZE).value), ForkCall(frame, junk));
  }

  // ----- runs

  /** Copy-on-write refines eager copying for a kernel whose forks allocate: over every run in which the
      heap stays within its limit and every fork finds a roomy chunk, the invariant is kept, the heap
      stays tiled and mapped and holds one structure more for each new task, and the outputs are those of
      the ideal machine if and only if no store goes to a read-only page beyond ptr_is_user. */
  lemma {:induction false} HeapRunsRefineCopying(sys: System, roles: seq<Role>, h: Heaps.Heap, evs: seq<Event>)
    returns (sys': System, outs: seq<Out>, h': Heaps.Heap, roles': seq<Role>)
    requires InvHeap(sys, roles, h) && sys.ring != [] && AllReady(sys, h, evs)
    ensures RunHeap(sys, h, evs) == Some((sys', outs, h')) && InvHeap(sys', roles', h')
    ensures IdealRun(Abstract(sys), evs).1 == outs <==> AllSeenHeap(sys, h, evs)
    ensures AllSeenHeap(sys, h, evs) ==> IdealRun(Abstract(sys), evs).0 == Abstract(sys')
    ensures |Heaps.Live(h', Heaps.START)| - |Heaps.Live(h, Heaps.START)| == |sys'.ring| - |sys.ring|
    ensures AddsStructures(h, h')
    decreases |evs|
  {
    hide Inv, HeapMapped, StepHeap, IdealStep, AbstractRing, Seen, Ready, Heaps.Live, Heaps.Chain, Heaps.Tiles;
    if evs == [] {
      sys', outs, h', roles' := sys, [], h, roles;
    } else {
      var sys1, out, h1, roles1 := StepHeapRefines(sys, roles, h, evs[0]);
      var rest;
      sys', rest, h', roles' := HeapRunsRefineCopying(sys1, roles1, h1, evs[1..]);
      outs := [out] + rest;
      var st1, iout := IdealStep(Abstract(sys), evs[0]).0, IdealStep(Abstract(sys), evs[0]).1;
      IdealRingStays(Abstract(sys), evs[0]);
      SameHead(iout, IdealRun(st1, evs[1..]).1, out, rest);
    }
  }
}
