/** What holds of the address spaces in every reachable state, said without the roles of frames
    that the proofs use. */
module Safety {
  import opened Options
  import opened PageTables
  import opened CopyOnWrite
  import opened PageTableProtect
  import opened Forking
  import opened Systems
  import opened Refinement
  import Frames

  // The table of level k that the walk of page v reads.
  function TableOn(m: seq<nat>, t: nat, level: nat, v: nat, k: nat): Option<nat>
    requires 1 <= k <= level
    decreases level
  {
    var e := Rd(m, t, Idx(v, level));
    if k == level then Some(t)
    else if Present(e) && !Huge(e) then TableOn(m, Fr(e), level - 1, v, k)
    else None
  }

  lemma {:induction false} TableOnRole(m: seq<nat>, roles: seq<Role>, kernel: nat, t: nat, r: nat, v: nat, k: nat)
    requires Layout(m, roles, kernel) && v < PAGES && OnPath(roles, t, r, v) && 1 <= k <= roles[t].level
    ensures var g := TableOn(m, t, roles[t].level, v, k);
      g.Some? ==> OnPath(roles, g.value, r, v) && roles[g.value].level == k
    decreases roles[t].level
  {
    hide Present, Writable, UserBit, Huge, Fr;
    var e := Rd(m, t, Idx(v, roles[t].level));
    PathStepIf(m, roles, kernel, t, r, v);
    if k < roles[t].level && Present(e) && !Huge(e) {
      TableOnRole(m, roles, kernel, Fr(e), r, v, k);
    }
  }

  // ----- the safety property

  // A frame that user page v of task i may write is mapped nowhere else.
  ghost predicate WritableAlone(sys: System, i: nat, v: nat, j: nat, w: nat)
    requires i < |sys.ring| && j < |sys.ring|
  {
    AloneOn(sys.mach.mem, sys.ring[i].vmap, v, sys.ring[j].vmap, w)
  }

  // Two walks through user pages share a table only if it is the same table of the same task.
  ghost predicate TablesPrivate(sys: System, i: nat, v: nat, k: nat, j: nat, w: nat, l: nat)
    requires i < |sys.ring| && j < |sys.ring| && 1 <= k <= 4 && 1 <= l <= 4
  {
    var a := TableOn(sys.mach.mem, sys.ring[i].vmap, 4, v, k);
    var b := TableOn(sys.mach.mem, sys.ring[j].vmap, 4, w, l);
    a.Some? && a == b ==> sys.ring[i].vmap == sys.ring[j].vmap && k == l && Shift(v, k) == Shift(w, k)
  }

  // A mapped user frame is in use, and is a table of no walk.
  ghost predicate DataNotTable(sys: System, i: nat, v: nat, j: nat, w: nat, k: nat)
    requires i < |sys.ring| && j < |sys.ring| && 1 <= k <= 4
  {
    var e := Get(sys.mach.mem, sys.ring[i].vmap, 4, v);
    Present(e) ==>
      !Frames.Free(sys.mach.pmm, Fr(e)) && TableOn(sys.mach.mem, sys.ring[j].vmap, 4, w, k) != Some(Fr(e))
  }

  // Every table of a walk is in use.
  ghost predicate TablesLocked(sys: System, i: nat, v: nat, k: nat)
    requires i < |sys.ring| && 1 <= k <= 4
  {
    var a := TableOn(sys.mach.mem, sys.ring[i].vmap, 4, v, k);
    a.Some? ==> !Frames.Free(sys.mach.pmm, a.value)
  }

  // A task sees the kernel half as the kernel's own tables have it.
  ghost predicate KernelHalfAgrees(sys: System, i: nat, v: nat)
    requires i < |sys.ring|
  {
    Get(sys.mach.mem, sys.ring[i].vmap, 4, v) == Get(sys.mach.mem, sys.mach.kernel, 4, v)
  }

  ghost predicate Safe(sys: System) {
    && (forall i: nat, v: nat, j: nat, w: nat ::
          i < |sys.ring| && j < |sys.ring| && v < LOWER && w < LOWER ==> WritableAlone(sys, i, v, j, w))
    && (forall i: nat, v: nat, k: nat, j: nat, w: nat, l: nat ::
          i < |sys.ring| && j < |sys.ring| && v < LOWER && w < LOWER && 1 <= k <= 4 && 1 <= l <= 4 ==>
          TablesPrivate(sys, i, v, k, j, w, l))
    && (forall i: nat, v: nat, j: nat, w: nat, k: nat ::
          i < |sys.ring| && j < |sys.ring| && v < LOWER && w < PAGES && 1 <= k <= 4 ==>
          DataNotTable(sys, i, v, j, w, k))
    && (forall i: nat, v: nat, k: nat ::
          i < |sys.ring| && v < PAGES && 1 <= k <= 4 ==> TablesLocked(sys, i, v, k))
    && (forall i: nat, v: nat :: i < |sys.ring| && LOWER <= v < PAGES ==> KernelHalfAgrees(sys, i, v))
    && Coherent(sys.mach)
  }

  lemma TaskTable(sys: System, roles: seq<Role>, i: nat, v: nat, k: nat)
    requires Inv(sys, roles) && i < |sys.ring| && v < PAGES && 1 <= k <= 4
    ensures var r := sys.ring[i].vmap;
      var g := TableOn(sys.mach.mem, r, 4, v, k);
      g.Some? ==>
        && OnPath(roles, g.value, r, v) && roles[g.value].level == k
        && NodeOk(roles, g.value) && !Frames.Free(sys.mach.pmm, g.value)
  {
    hide Present, Writable, UserBit, Huge, Fr, Exclusive;
    var r := sys.ring[i].vmap;
    assert NodeOk(roles, r);
    RootOnPath(roles, r, v);
    TableOnRole(sys.mach.mem, roles, sys.mach.kernel, r, r, v, k);
  }

  lemma InvIsSafe(sys: System, roles: seq<Role>)
    requires Inv(sys, roles)
    ensures Safe(sys)
  {
    hide Present, Writable, UserBit, Huge, Fr, TableOn, Get, AloneOn, Layout;
    forall i: nat, v: nat, k: nat, j: nat, w: nat, l: nat
      | i < |sys.ring| && j < |sys.ring| && v < LOWER && w < LOWER && 1 <= k <= 4 && 1 <= l <= 4
      ensures TablesPrivate(sys, i, v, k, j, w, l)
    {
      TaskTable(sys, roles, i, v, k);
      TaskTable(sys, roles, j, w, l);
    }
    forall i: nat, v: nat, j: nat, w: nat, k: nat
      | i < |sys.ring| && j < |sys.ring| && v < LOWER && w < PAGES && 1 <= k <= 4
      ensures DataNotTable(sys, i, v, j, w, k)
    {
      TaskTable(sys, roles, j, w, k);
      MappedIsData(sys.mach.mem, roles, sys.mach.kernel, sys.ring[i].vmap, v);
    }
    forall i: nat, v: nat, k: nat | i < |sys.ring| && v < PAGES && 1 <= k <= 4
      ensures TablesLocked(sys, i, v, k)
    {
      TaskTable(sys, roles, i, v, k);
    }
    forall i: nat, v: nat | i < |sys.ring| && LOWER <= v < PAGES
      ensures KernelHalfAgrees(sys, i, v)
    {
      KernelIsRoot(sys.mach, roles);
      KernelHalfShared(sys.mach.mem, roles, sys.mach.kernel, sys.ring[i].vmap, sys.mach.kernel, v);
    }
  }

  // Every state that a run reaches is safe.
  lemma ReachableStatesAreSafe(sys: System, roles: seq<Role>, evs: seq<Event>)
    requires Inv(sys, roles) && Enough(sys, evs)
    ensures Run(sys, evs).Some? && Safe(Run(sys, evs).value.0)
  {
    hide Inv, Safe, Run;
    var sys', outs, roles' := RunsAgreeIffStoresAreSeen(sys, roles, evs);
    InvIsSafe(sys', roles');
  }

  // ----- no change of the tables leaves a stale translation

  lemma MapKeepsTlb(s: Machine, roles: seq<Role>, r: nat, v: nat, leaf: nat)
    requires Ok(s, roles) && Coherent(s) && IsRoot(roles, s.cr3) && IsRoot(roles, r) && v < PAGES
    requires LeafOk(roles, Own(r, v), leaf)
    requires NoHuge(s.mem, r, 4, v) && Frames.Available(s.pmm) >= Missing(s.mem, r, 4, v)
    ensures MapAt(s, r, 4, v, leaf).Some? && Coherent(MapAt(s, r, 4, v, leaf).value)
  {
    hide Get, Present, Writable, UserBit, Huge, Fr, MapAt, Missing, NoHuge;
    var s', roles' := MapRootEffect(s, roles, r, v, leaf);
  }

  // An unmap that finds no leaf table flushes nothing; nothing is cached then.
  lemma UnmapKeepsTlb(s: Machine, roles: seq<Role>, r: nat, v: nat)
    requires Ok(s, roles) && Coherent(s) && IsRoot(roles, s.cr3) && IsRoot(roles, r) && v < PAGES
    requires NoHuge(s.mem, r, 4, v)
    ensures UnmapAt(s, r, 4, v).Some? && Coherent(UnmapAt(s, r, 4, v).value)
  {
    hide Get, Present, Writable, UserBit, Huge, Fr, UnmapAt, Missing, NoHuge;
    assert NodeOk(roles, r);
    RootOnPath(roles, r, v);
    var s' := UnmapEffect(s, roles, r, r, v);
    if SamePage(s.cr3, v, r, v) {
      SamePageSame(s.mem, roles, s.kernel, s.cr3, r, v);
      if Present(Get(s.mem, r, 4, v)) { PresentIsMapped(s.mem, r, 4, v); }
    }
  }

  lemma SamePageSame(m: seq<nat>, roles: seq<Role>, kernel: nat, q: nat, r: nat, v: nat)
    requires Layout(m, roles, kernel) && IsRoot(roles, q) && IsRoot(roles, r) && v < PAGES && SamePage(q, v, r, v)
    ensures Get(m, q, 4, v) == Get(m, r, 4, v)
  {
    if v >= LOWER { KernelHalfShared(m, roles, kernel, q, r, v); }
  }

  lemma ProtectKeepsTlb(s: Machine, roles: seq<Role>, r: nat)
    requires Ok(s, roles) && Coherent(s) && IsRoot(roles, s.cr3) && IsRoot(roles, r)
    ensures ReadonlyTable(s, r, 4, 0).Some? && Coherent(ReadonlyTable(s, r, 4, 0).value)
  {
    hide Get, Present, Writable, UserBit, Huge, Fr, ReadonlyTable;
    var s' := ProtectSpace(s, roles, r);
  }

  lemma CowKeepsTlb(s: Machine, roles: seq<Role>, r: nat, v: nat)
    requires Ok(s, roles) && Coherent(s) && IsRoot(roles, r) && v < LOWER && s.cr3 == r
    requires Present(Get(s.mem, r, 4, v)) && UserBit(Get(s.mem, r, 4, v)) && Frames.Available(s.pmm) >= CowCost(s)
    ensures Cow(s, r, v).Some? && Coherent(Cow(s, r, v).value.1)
  {
    hide Get, Present, Writable, UserBit, Huge, Fr, Cow, CowCost;
    var f, s', roles' := CowEffect(s, roles, r, v);
  }

  // ----- the order of flush and store in paging_make_readonly

  // A store into the leaf table of page w changes the translation of that page to the word.
  lemma {:induction false} LeafStore(m: seq<nat>, roles: seq<Role>, kernel: nat, u: nat, r: nat, w: nat, t: nat, x: nat)
    requires Layout(m, roles, kernel) && w < PAGES && OnPath(roles, u, r, w)
    requires TableOn(m, u, roles[u].level, w, 1) == Some(t) && OnPath(roles, t, r, w) && roles[t].level == 1
    ensures Get(m, u, roles[u].level, w) == Rd(m, t, Idx(w, 1))
    ensures Get(Put(m, t, Idx(w, 1), x), u, roles[u].level, w) == x
    decreases roles[u].level
  {
    hide Present, Writable, UserBit, Huge, Fr;
    PathStepIf(m, roles, kernel, u, r, w);
    if roles[u].level > 1 {
      LeafStore(m, roles, kernel, Fr(Rd(m, u, Idx(w, roles[u].level))), r, w, t, x);
    }
  }

  // The kernel flushes a translation before it stores the protected entry.  If the processor
  // caches the page again in between, the cache is stale afterwards exactly when the page is
  // present and was writable.
  lemma RefillBeforeStoreIsStale(s: Machine, roles: seq<Role>, w: nat, t: nat)
    requires Ok(s, roles) && IsRoot(roles, s.cr3) && w < LOWER && TableOn(s.mem, s.cr3, 4, w, 1) == Some(t)
    ensures var e := Get(s.mem, s.cr3, 4, w);
      var flushed := s.(tlb := s.tlb - {w});
      var refilled := if Present(e) then flushed.(tlb := flushed.tlb[w := e]) else flushed;
      InMemory(s.mem, t) &&
      var stored := refilled.(mem := Put(s.mem, t, Idx(w, 1), ClearWritable(Rd(s.mem, t, Idx(w, 1)))));
      (w in stored.tlb ==> stored.tlb[w] == Get(stored.mem, stored.cr3, 4, w))
        <==> !(Present(e) && Writable(e))
  {
    hide Huge, Fr, UserBit, Present;
    var r := s.cr3;
    assert NodeOk(roles, r);
    RootOnPath(roles, r, w);
    TableOnRole(s.mem, roles, s.kernel, r, r, w, 1);
    LeafStore(s.mem, roles, s.kernel, r, r, w, t, ClearWritable(Rd(s.mem, t, Idx(w, 1))));
  }
}
