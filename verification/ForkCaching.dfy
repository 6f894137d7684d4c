/** A fork on a processor that caches translations at any time.  `paging_make_readonly` flushes a
    page before it stores the protected entry, so that a page cached in between is stale when the
    pass ends.  A fork makes two passes, and the one over the child flushes the same pages again. */
module ForkCaching {
  import opened Options
  import opened PageTables
  import opened PageTableCopy
  import opened PageTableProtect
  import opened CopyOnWrite
  import opened Forking
  import opened FaultCaching
  import opened Safety
  import Frames

  // ----- the passes, with a choice of the processor between every flush and the store after it

  function ReadonlyLeavesWith(s: Machine, t: nat, prefix: nat, i: nat, cs: nat -> Choice): Option<Machine>
    requires i <= 512
    decreases 512 - i
  {
    if i == 512 then Some(s)
    else if !InMemory(s.mem, t) then None
    else ReadonlyLeavesWith(ProtectWith(s, t, prefix, i, cs), t, prefix, i + 1, cs)
  }

  // One slot of a leaf table.
  function ProtectWith(s: Machine, t: nat, prefix: nat, i: nat, cs: nat -> Choice): Machine
    requires i < 512 && InMemory(s.mem, t)
  {
    var w := 512 * prefix + i;
    var a := Refill(Flush(s, w), cs(w));
    a.(mem := Put(a.mem, t, i, ClearWritable(Rd(a.mem, t, i))))
  }

  function ReadonlyTableWith(s: Machine, t: nat, level: nat, prefix: nat, cs: nat -> Choice): Option<Machine>
    requires level > 0
    decreases level, 513
  {
    if level == 1 then ReadonlyLeavesWith(s, t, prefix, 0, cs) else ReadonlySlotsWith(s, t, level, prefix, 0, cs)
  }

  function ReadonlySlotsWith(s: Machine, t: nat, level: nat, prefix: nat, i: nat, cs: nat -> Choice): Option<Machine>
    requires level > 1 && i <= Slots(level)
    decreases level, 512 - i
  {
    if i == Slots(level) then Some(s)
    else if !InMemory(s.mem, t) then None
    else if !Present(Rd(s.mem, t, i)) then ReadonlySlotsWith(s, t, level, prefix, i + 1, cs)
    else
      var s1 :- ReadonlyTableWith(s, Fr(Rd(s.mem, t, i)), level - 1, 512 * prefix + i, cs);
      ReadonlySlotsWith(s1, t, level, prefix, i + 1, cs)
  }

  /** `ForkSpace` with a choice after the copy, which stores to no table in use, and choices throughout
      the two passes. */
  function ForkSpaceWith(s: Machine, r: nat, c: Choice, cs: nat -> Choice, ds: nat -> Choice): Option<(nat, Machine)> {
    var (n, s1) :- CopySpace(s, r);
    var s2 :- ReadonlyTableWith(Refill(s1, c), r, 4, 0, cs);
    var s3 :- ReadonlyTableWith(s2, n, 4, 0, ds);
    Some((n, s3))
  }

  // ----- the stores do not depend on the cache

  lemma {:induction false} LeavesIgnoreCache(s: Machine, a: Machine, t: nat, prefix: nat, i: nat, cs: nat -> Choice)
    requires i <= 512 && SameBut(s, a)
    ensures ReadonlyLeavesWith(a, t, prefix, i, cs).Some? <==> ReadonlyLeaves(s, t, prefix, i).Some?
    ensures ReadonlyLeaves(s, t, prefix, i).Some? ==>
      SameBut(ReadonlyLeaves(s, t, prefix, i).value, ReadonlyLeavesWith(a, t, prefix, i, cs).value)
    decreases 512 - i
  {
    hide ClearWritable, Put, Get;
    if i < 512 && InMemory(s.mem, t) {
      var m := Put(s.mem, t, i, ClearWritable(Rd(s.mem, t, i)));
      var s1 := s.(mem := m, tlb := s.tlb - {512 * prefix + i});
      LeavesIgnoreCache(s1, ProtectWith(a, t, prefix, i, cs), t, prefix, i + 1, cs);
    }
  }

  lemma {:induction false} TableIgnoresCache(s: Machine, a: Machine, t: nat, level: nat, prefix: nat, cs: nat -> Choice)
    requires level > 0 && SameBut(s, a)
    ensures ReadonlyTableWith(a, t, level, prefix, cs).Some? <==> ReadonlyTable(s, t, level, prefix).Some?
    ensures ReadonlyTable(s, t, level, prefix).Some? ==>
      SameBut(ReadonlyTable(s, t, level, prefix).value, ReadonlyTableWith(a, t, level, prefix, cs).value)
    decreases level, 513
  {
    hide Present, Fr, ReadonlyLeaves, ReadonlyLeavesWith;
    if level == 1 {
      LeavesIgnoreCache(s, a, t, prefix, 0, cs);
    } else {
      SlotsIgnoreCache(s, a, t, level, prefix, 0, cs);
    }
  }

  lemma {:induction false} SlotsIgnoreCache(s: Machine, a: Machine, t: nat, level: nat, prefix: nat, i: nat,
                                            cs: nat -> Choice)
    requires level > 1 && i <= Slots(level) && SameBut(s, a)
    ensures ReadonlySlotsWith(a, t, level, prefix, i, cs).Some? <==> ReadonlySlots(s, t, level, prefix, i).Some?
    ensures ReadonlySlots(s, t, level, prefix, i).Some? ==>
      SameBut(ReadonlySlots(s, t, level, prefix, i).value, ReadonlySlotsWith(a, t, level, prefix, i, cs).value)
    decreases level, 512 - i
  {
    hide Present, Fr, ReadonlyTable, ReadonlyTableWith;
    if i < Slots(level) && InMemory(s.mem, t) {
      var e := Rd(s.mem, t, i);
      if !Present(e) {
        SlotsIgnoreCache(s, a, t, level, prefix, i + 1, cs);
      } else {
        TableIgnoresCache(s, a, Fr(e), level - 1, 512 * prefix + i, cs);
        if ReadonlyTable(s, Fr(e), level - 1, 512 * prefix + i).Some? {
          SlotsIgnoreCache(ReadonlyTable(s, Fr(e), level - 1, 512 * prefix + i).value,
            ReadonlyTableWith(a, Fr(e), level - 1, 512 * prefix + i, cs).value, t, level, prefix, i + 1, cs);
        }
      }
    }
  }

  // ----- what is stale after a pass

  ghost predicate Stale(s: Machine, w: nat) {
    w in s.tlb && s.tlb[w] != Get(s.mem, s.cr3, 4, w)
  }

  // Only present translations are cached.
  ghost predicate CachePresent(s: Machine) {
    forall w: nat :: w in s.tlb ==> w < PAGES && Present(s.tlb[w])
  }

  // Page w is cached between its flush and its store, while it is still writable.
  ghost predicate CachedInBetween(m: seq<nat>, r: nat, cs: nat -> Choice, w: nat) {
    var e := Get(m, r, 4, w); Present(e) && Writable(e) && w in cs(w).fill
  }

  ghost predicate NeverDropped(cs: nat -> Choice, w: nat) {
    forall v: nat :: w !in cs(v).drop
  }

  // The user pages that the slots from i to j of a table with this level and prefix translate.
  predicate InRange(w: nat, level: nat, prefix: nat, i: nat, j: nat)
    requires level > 0
  {
    w < LOWER && Shift(w, level) == prefix && i <= Idx(w, level) < j
  }

  // A pass makes page w stale, or leaves it so.
  ghost predicate Expected(s: Machine, r: nat, cs: nat -> Choice, level: nat, prefix: nat, i: nat, j: nat, w: nat)
    requires level > 0
  {
    if InRange(w, level, prefix, i, j) then r == s.cr3 && CachedInBetween(s.mem, r, cs, w) else Stale(s, w)
  }

  ghost predicate PageAfter(s: Machine, s': Machine, r: nat, cs: nat -> Choice,
                            level: nat, prefix: nat, i: nat, j: nat, w: nat)
    requires level > 0
  {
    && (Stale(s', w) ==> Expected(s, r, cs, level, prefix, i, j, w))
    && (NeverDropped(cs, w) && Expected(s, r, cs, level, prefix, i, j, w) ==> Stale(s', w))
  }

  ghost predicate InteriorKept(m: seq<nat>, m': seq<nat>, roles: seq<Role>) {
    forall g :: 0 <= g < |roles| && roles[g].Node? && roles[g].level > 1 ==> SameFrame(m, m', g)
  }

  // The effect of a pass over the slots from i to j.
  ghost predicate Passed(s: Machine, s': Machine, roles: seq<Role>, r: nat, cs: nat -> Choice,
                         level: nat, prefix: nat, i: nat, j: nat)
    requires level > 0
  {
    && Ok(s', roles) && s' == s.(mem := s'.mem, tlb := s'.tlb) && CachePresent(s') && InteriorKept(s.mem, s'.mem, roles)
    && (forall q: nat, w: nat :: IsRoot(roles, q) && w < PAGES ==>
          Get(s'.mem, q, 4, w) ==
            if q == r && InRange(w, level, prefix, i, j) then ClearWritable(Get(s.mem, q, 4, w))
            else Get(s.mem, q, 4, w))
    && (forall w: nat :: w < PAGES ==> PageAfter(s, s', r, cs, level, prefix, i, j, w))
  }

  // Table t of address space r is the one that all pages with this prefix go through.
  ghost predicate Reached(m: seq<nat>, roles: seq<Role>, r: nat, t: nat, level: nat, prefix: nat)
    requires 1 <= level <= 4
  {
    && UserTable(roles, t, r, level, prefix)
    && forall w: nat :: w < LOWER && Shift(w, level) == prefix ==> TableOn(m, r, 4, w, level) == Some(t)
  }

  // What is stale before the pass will be flushed.
  ghost predicate StaleArePresent(s: Machine, r: nat, level: nat, prefix: nat, i: nat)
    requires level > 0
  {
    forall w: nat :: InRange(w, level, prefix, i, 512) && Stale(s, w) ==> Present(Get(s.mem, r, 4, w))
  }

  // ----- one slot of a leaf table

  lemma {:induction false} GetVia(m: seq<nat>, u: nat, level: nat, w: nat, k: nat)
    requires 1 <= k <= level && TableOn(m, u, level, w, k).Some?
    ensures Get(m, u, level, w) == Get(m, TableOn(m, u, level, w, k).value, k, w)
    decreases level
  {
    hide Present, Huge, Fr;
    if k < level {
      GetVia(m, Fr(Rd(m, u, Idx(w, level))), level - 1, w, k);
    }
  }

  // What the processor does between the flush of page w and the store: of the other pages, none becomes
  // stale, and none that it does not drop becomes current.
  lemma WindowEffect(s: Machine, w: nat, c: Choice, v: nat)
    requires CachePresent(s) && v < PAGES
    ensures var a := Refill(Flush(s, w), c);
      && SameBut(s, a) && CachePresent(a)
      && (v != w && Stale(a, v) ==> Stale(s, v))
      && (v != w && Stale(s, v) && v !in c.drop ==> Stale(a, v))
      && !(Stale(a, w))
      && (w in a.tlb <==> w in c.fill && Cacheable(s, w))
  {
    hide Get, Present;
  }

  // The store to the slot of page w.
  lemma StoreProtected(a: Machine, roles: seq<Role>, r: nat, t: nat, prefix: nat, i: nat)
    returns (w: nat, s1: Machine)
    requires Ok(a, roles) && IsRoot(roles, r) && Reached(a.mem, roles, r, t, 1, prefix)
    requires i < 512 && 512 * prefix + i < LOWER
    ensures w == 512 * prefix + i && InMemory(a.mem, t)
    ensures s1 == a.(mem := Put(a.mem, t, i, ClearWritable(Rd(a.mem, t, i))))
    ensures Ok(s1, roles) && InteriorKept(a.mem, s1.mem, roles)
    ensures forall q: nat, v: nat :: IsRoot(roles, q) && v < PAGES ==>
      Get(s1.mem, q, 4, v) == if q == r && v == w then ClearWritable(Get(a.mem, q, 4, v)) else Get(a.mem, q, 4, v)
  {
    hide Present, Writable, UserBit, Huge, Fr, Get, Layout, ClearWritable, TableOn;
    w := 512 * prefix + i;
    var x := ClearWritable(Rd(a.mem, t, i));
    var b := ProtectLeaf(a, roles, t, r, prefix, i);
    TableInMemory(a, roles, t);
    s1 := a.(mem := Put(a.mem, t, i, x));
    SlotOfPage(prefix, i);
    LeafStoreAt(a, roles, r, t, w, x);
  }

  lemma OkTwin(s: Machine, a: Machine, roles: seq<Role>)
    requires Ok(s, roles) && SameBut(s, a)
    ensures Ok(a, roles)
  {
    hide Layout;
  }

  lemma SlotOfPage(prefix: nat, i: nat)
    requires i < 512
    ensures var w := 512 * prefix + i; Shift(w, 1) == prefix && Idx(w, 1) == i
  {
  }

  lemma LeafStoreAt(a: Machine, roles: seq<Role>, r: nat, t: nat, w: nat, x: nat)
    requires Ok(a, roles) && IsRoot(roles, r) && w < LOWER && UserTable(roles, t, r, 1, Shift(w, 1))
    requires TableOn(a.mem, r, 4, w, 1) == Some(t) && x == ClearWritable(Rd(a.mem, t, Idx(w, 1))) && InMemory(a.mem, t)
    ensures var m' := Put(a.mem, t, Idx(w, 1), x);
      && Get(m', r, 4, w) == ClearWritable(Get(a.mem, r, 4, w)) && OthersKept(a.mem, m', roles, r, w)
  {
    hide Huge, Fr, Get, TableOn, Present, Writable, UserBit, ClearWritable;
    assert NodeOk(roles, r) && SlotOk(a.mem, roles, t, Idx(w, 1));
    RootOnPath(roles, r, w);
    LeafStore(a.mem, roles, a.kernel, r, r, w, t, x);
    ClearWritableBits(Rd(a.mem, t, Idx(w, 1)));
    PutLeaf(a.mem, roles, a.kernel, t, r, w, x);
  }

  lemma ProtectWithEffect(s: Machine, roles: seq<Role>, r: nat, t: nat, prefix: nat, i: nat, cs: nat -> Choice)
    returns (s1: Machine)
    requires Ok(s, roles) && IsRoot(roles, s.cr3) && IsRoot(roles, r) && CachePresent(s)
    requires Reached(s.mem, roles, r, t, 1, prefix) && i < 512 && 512 * prefix + i < LOWER
    ensures InMemory(s.mem, t) && s1 == ProtectWith(s, t, prefix, i, cs)
    ensures Passed(s, s1, roles, r, cs, 1, prefix, i, i + 1)
  {
    hide Present, Writable, UserBit, Huge, Fr, Get, Layout, ClearWritable, TableOn, Refill, FreeOk;
    var w, j := 512 * prefix + i, i + 1;
    WindowEffect(s, w, cs(w), w);
    var a := Refill(Flush(s, w), cs(w));
    OkTwin(s, a, roles);
    TableInMemory(s, roles, t);
    var _, b := StoreProtected(a, roles, r, t, prefix, i);
    s1 := b;
    forall v: nat
      ensures InRange(v, 1, prefix, i, j) <==> v == w
    {
      SlotOfPage(prefix, i);
    }
    forall v: nat | v < PAGES
      ensures PageAfter(s, s1, r, cs, 1, prefix, i, j, v)
    {
      WindowEffect(s, w, cs(w), v);
      ClearChanges(Get(s.mem, r, 4, w));
    }
  }

  lemma ClearChanges(e: nat)
    ensures ClearWritable(e) != e <==> Writable(e)
  {
  }

  // ----- passes one after the other

  lemma ComposePasses(s: Machine, s1: Machine, s': Machine, roles: seq<Role>, r: nat, cs: nat -> Choice,
                      level: nat, prefix: nat, i: nat, k: nat, j: nat)
    requires level > 0 && i <= k <= j && IsRoot(roles, r)
    requires Passed(s, s1, roles, r, cs, level, prefix, i, k) && Passed(s1, s', roles, r, cs, level, prefix, k, j)
    ensures Passed(s, s', roles, r, cs, level, prefix, i, j)
  {
    hide Present, Writable, Get, Ok, ClearWritable, Idx, Shift, NeverDropped, Stale, CachePresent;
    forall g | 0 <= g < |roles| && roles[g].Node? && roles[g].level > 1
      ensures SameFrame(s.mem, s'.mem, g)
    {
      assert SameFrame(s.mem, s1.mem, g) && SameFrame(s1.mem, s'.mem, g);
    }
    forall w: nat | w < PAGES
      ensures PageAfter(s, s', r, cs, level, prefix, i, j, w)
    {
      assert PageAfter(s, s1, r, cs, level, prefix, i, k, w) && PageAfter(s1, s', r, cs, level, prefix, k, j, w);
    }
  }

  // The pages under slot i are those of the table that it leads to.
  lemma PassBelow(s: Machine, s': Machine, roles: seq<Role>, r: nat, cs: nat -> Choice, level: nat, prefix: nat, i: nat)
    requires level > 1 && i < 512 && Passed(s, s', roles, r, cs, level - 1, 512 * prefix + i, 0, 512)
    ensures Passed(s, s', roles, r, cs, level, prefix, i, i + 1)
  {
    hide Present, Writable, Get, Ok, ClearWritable, CachedInBetween, Stale, NeverDropped;
    var j := i + 1;
    forall w: nat
      ensures InRange(w, level, prefix, i, j) <==> InRange(w, level - 1, 512 * prefix + i, 0, 512)
    {
    }
    forall w: nat | w < PAGES
      ensures PageAfter(s, s', r, cs, level, prefix, i, j, w)
    {
      assert PageAfter(s, s', r, cs, level - 1, 512 * prefix + i, 0, 512, w);
    }
  }

  // A pass over slots without tables does nothing.
  lemma IdlePass(s: Machine, roles: seq<Role>, r: nat, cs: nat -> Choice, level: nat, prefix: nat, i: nat, j: nat)
    requires Ok(s, roles) && CachePresent(s) && level > 0 && j <= 512 && StaleArePresent(s, r, level, prefix, i)
    requires forall w: nat :: InRange(w, level, prefix, i, j) ==> Get(s.mem, r, 4, w) == 0
    ensures Passed(s, s, roles, r, cs, level, prefix, i, j)
  {
    hide Get, Ok, Idx, Shift, Stale;
    forall w: nat | w < PAGES
      ensures PageAfter(s, s, r, cs, level, prefix, i, j, w)
    {
      if InRange(w, level, prefix, i, j) {
        assert InRange(w, level, prefix, i, 512) && !Stale(s, w);
      }
    }
  }

  lemma StalePresentStays(s: Machine, s1: Machine, roles: seq<Role>, r: nat, cs: nat -> Choice,
                          level: nat, prefix: nat, i: nat)
    requires level > 0 && IsRoot(roles, r) && Passed(s, s1, roles, r, cs, level, prefix, i, i + 1)
    requires StaleArePresent(s, r, level, prefix, i)
    ensures StaleArePresent(s1, r, level, prefix, i + 1)
  {
    hide Get, Ok, Idx, Shift, Stale, Present, Writable, ClearWritable, NeverDropped;
    var j := i + 1;
    forall w: nat | InRange(w, level, prefix, j, 512) && Stale(s1, w)
      ensures Present(Get(s1.mem, r, 4, w))
    {
      assert PageAfter(s, s1, r, cs, level, prefix, i, j, w) && InRange(w, level, prefix, i, 512);
    }
  }

  // ----- the way to a table

  lemma {:induction false} TableOnKept(m: seq<nat>, m': seq<nat>, roles: seq<Role>, kernel: nat,
                                       u: nat, r: nat, w: nat, k: nat)
    requires Layout(m, roles, kernel) && w < PAGES && OnPath(roles, u, r, w) && 1 <= k <= roles[u].level
    requires InteriorKept(m, m', roles)
    ensures TableOn(m', u, roles[u].level, w, k) == TableOn(m, u, roles[u].level, w, k)
    decreases roles[u].level
  {
    hide Present, Writable, UserBit, Huge, Fr;
    var e := Rd(m, u, Idx(w, roles[u].level));
    if k < roles[u].level {
      assert SameFrame(m, m', u);
      PathStepIf(m, roles, kernel, u, r, w);
      if Present(e) && !Huge(e) {
        TableOnKept(m, m', roles, kernel, Fr(e), r, w, k);
      }
    }
  }

  lemma ReachedStays(s: Machine, m': seq<nat>, roles: seq<Role>, r: nat, t: nat, level: nat, prefix: nat)
    requires Ok(s, roles) && IsRoot(roles, r) && 1 <= level <= 4
    requires Reached(s.mem, roles, r, t, level, prefix) && InteriorKept(s.mem, m', roles)
    ensures Reached(m', roles, r, t, level, prefix)
  {
    hide TableOn, Layout, FreeOk, Shift;
    RootNode(s.mem, roles, s.kernel, r);
    forall w: nat | w < LOWER && Shift(w, level) == prefix
      ensures TableOn(m', r, 4, w, level) == Some(t)
    {
      RootOnPath(roles, r, w);
      TableOnKept(s.mem, m', roles, s.kernel, r, r, w, level);
    }
  }

  lemma {:induction false} TableOnNext(m: seq<nat>, u: nat, level: nat, w: nat, k: nat)
    requires 1 < k <= level && TableOn(m, u, level, w, k).Some?
    ensures var e := Rd(m, TableOn(m, u, level, w, k).value, Idx(w, k));
      Present(e) && !Huge(e) ==> TableOn(m, u, level, w, k - 1) == Some(Fr(e))
    decreases level
  {
    hide Present, Huge, Fr;
    if k < level {
      TableOnNext(m, Fr(Rd(m, u, Idx(w, level))), level - 1, w, k);
    }
  }

  // What slot i of the table leads to.
  lemma ReachedBelow(s: Machine, roles: seq<Role>, r: nat, t: nat, level: nat, prefix: nat, i: nat)
    requires Ok(s, roles) && 1 < level <= 4 && i < Slots(level) && Reached(s.mem, roles, r, t, level, prefix)
    ensures var e := Rd(s.mem, t, i);
      Present(e) ==> Reached(s.mem, roles, r, Fr(e), level - 1, 512 * prefix + i)
    ensures var e := Rd(s.mem, t, i);
      !Present(e) ==> forall w: nat :: InRange(w, level, prefix, i, i + 1) ==> Get(s.mem, r, 4, w) == 0
  {
    hide Present, Writable, UserBit, Huge, Fr, TableOn, Get, FreeOk;
    var e, j, below := Rd(s.mem, t, i), i + 1, level - 1;
    assert SlotOk(s.mem, roles, t, i);
    forall w: nat | w < LOWER && Shift(w, below) == 512 * prefix + i && Present(e)
      ensures TableOn(s.mem, r, 4, w, below) == Some(Fr(e))
    {
      assert Shift(w, level) == prefix && Idx(w, level) == i;
      TableOnNext(s.mem, r, 4, w, level);
    }
    forall w: nat | InRange(w, level, prefix, i, j) && !Present(e)
      ensures Get(s.mem, r, 4, w) == 0
    {
      GetVia(s.mem, r, 4, w, level);
      AbsentGet(s.mem, t, level, w);
    }
  }

  lemma AbsentGet(m: seq<nat>, t: nat, level: nat, w: nat)
    requires level > 1 && !Present(Rd(m, t, Idx(w, level)))
    ensures Get(m, t, level, w) == 0
  {
  }

  // ----- whole passes

  // All pages with this prefix are user pages.
  predicate LowerPrefix(level: nat, prefix: nat) {
    prefix < (if level == 4 then 1 else if level == 3 then 0x100 else if level == 2 then 0x2_0000 else 0x400_0000)
  }

  lemma {:induction false} LeavesWithEffect(s: Machine, roles: seq<Role>, r: nat, t: nat, prefix: nat, i: nat,
                                            cs: nat -> Choice)
    returns (s': Machine)
    requires Ok(s, roles) && IsRoot(roles, s.cr3) && IsRoot(roles, r) && CachePresent(s)
    requires Reached(s.mem, roles, r, t, 1, prefix) && LowerPrefix(1, prefix) && i <= 512
    requires StaleArePresent(s, r, 1, prefix, i)
    ensures ReadonlyLeavesWith(s, t, prefix, i, cs) == Some(s') && Passed(s, s', roles, r, cs, 1, prefix, i, 512)
    decreases 512 - i
  {
    hide Ok, Reached, ProtectWith, CachePresent, Passed, StaleArePresent, IsRoot;
    if i == 512 {
      s' := s;
      IdlePass(s, roles, r, cs, 1, prefix, 512, 512);
    } else {
      var s1 := ProtectWithEffect(s, roles, r, t, prefix, i, cs);
      StalePresentStays(s, s1, roles, r, cs, 1, prefix, i);
      PassedFacts(s, s1, roles, r, cs, 1, prefix, i, i + 1);
      ReachedStays(s, s1.mem, roles, r, t, 1, prefix);
      s' := LeavesWithEffect(s1, roles, r, t, prefix, i + 1, cs);
      ComposePasses(s, s1, s', roles, r, cs, 1, prefix, i, i + 1, 512);
    }
  }

  lemma PassedFacts(s: Machine, s': Machine, roles: seq<Role>, r: nat, cs: nat -> Choice,
                    level: nat, prefix: nat, i: nat, j: nat)
    requires level > 0 && Passed(s, s', roles, r, cs, level, prefix, i, j)
    ensures Ok(s', roles) && s' == s.(mem := s'.mem, tlb := s'.tlb) && CachePresent(s')
    ensures InteriorKept(s.mem, s'.mem, roles)
  {
  }

  lemma {:induction false} TableWithEffect(s: Machine, roles: seq<Role>, r: nat, t: nat, level: nat, prefix: nat,
                                           cs: nat -> Choice)
    returns (s': Machine)
    requires Ok(s, roles) && IsRoot(roles, s.cr3) && IsRoot(roles, r) && CachePresent(s) && 1 <= level <= 4
    requires Reached(s.mem, roles, r, t, level, prefix) && LowerPrefix(level, prefix)
    requires StaleArePresent(s, r, level, prefix, 0)
    ensures ReadonlyTableWith(s, t, level, prefix, cs) == Some(s') && Passed(s, s', roles, r, cs, level, prefix, 0, 512)
    decreases level, 513
  {
    hide Ok, Reached, CachePresent, Passed, StaleArePresent, IsRoot, ReadonlyLeavesWith, ReadonlySlotsWith;
    if level == 1 {
      s' := LeavesWithEffect(s, roles, r, t, prefix, 0, cs);
    } else {
      s' := SlotsWithEffect(s, roles, r, t, level, prefix, 0, cs);
    }
  }

  lemma {:induction false} SlotsWithEffect(s: Machine, roles: seq<Role>, r: nat, t: nat, level: nat, prefix: nat,
                                           i: nat, cs: nat -> Choice)
    returns (s': Machine)
    requires Ok(s, roles) && IsRoot(roles, s.cr3) && IsRoot(roles, r) && CachePresent(s) && 1 < level <= 4
    requires Reached(s.mem, roles, r, t, level, prefix) && LowerPrefix(level, prefix) && i <= Slots(level)
    requires StaleArePresent(s, r, level, prefix, i)
    ensures ReadonlySlotsWith(s, t, level, prefix, i, cs) == Some(s')
    ensures Passed(s, s', roles, r, cs, level, prefix, i, 512)
    decreases level, 512 - i
  {
    hide Ok, Reached, CachePresent, Passed, StaleArePresent, IsRoot, ReadonlyTableWith, Present, InRange, Fr;
    if i == Slots(level) {
      s' := s;
      PastTheEnd(level, prefix);
      IdlePass(s, roles, r, cs, level, prefix, i, 512);
    } else {
      var e := Rd(s.mem, t, i);
      ReachedInMemory(s, roles, r, t, level, prefix);
      ReachedBelow(s, roles, r, t, level, prefix, i);
      var s1 := s;
      if Present(e) {
        StaleBelow(s, r, level, prefix, i);
        s1 := TableWithEffect(s, roles, r, Fr(e), level - 1, 512 * prefix + i, cs);
        PassBelow(s, s1, roles, r, cs, level, prefix, i);
      } else {
        IdlePass(s, roles, r, cs, level, prefix, i, i + 1);
      }
      StalePresentStays(s, s1, roles, r, cs, level, prefix, i);
      PassedFacts(s, s1, roles, r, cs, level, prefix, i, i + 1);
      ReachedStays(s, s1.mem, roles, r, t, level, prefix);
      s' := SlotsWithEffect(s1, roles, r, t, level, prefix, i + 1, cs);
      ComposePasses(s, s1, s', roles, r, cs, level, prefix, i, i + 1, 512);
    }
  }

  lemma PastTheEnd(level: nat, prefix: nat)
    requires 1 < level <= 4
    ensures forall w: nat :: !InRange(w, level, prefix, Slots(level), 512)
  {
    forall w: nat
      ensures !InRange(w, level, prefix, Slots(level), 512)
    {
      if w < LOWER { ShiftBounds(w); }
    }
  }

  lemma ReachedInMemory(s: Machine, roles: seq<Role>, r: nat, t: nat, level: nat, prefix: nat)
    requires Ok(s, roles) && 1 <= level <= 4 && Reached(s.mem, roles, r, t, level, prefix)
    ensures InMemory(s.mem, t)
  {
    TableInMemory(s, roles, t);
  }

  lemma StaleBelow(s: Machine, r: nat, level: nat, prefix: nat, i: nat)
    requires level > 1 && i < 512 && StaleArePresent(s, r, level, prefix, i)
    ensures StaleArePresent(s, r, level - 1, 512 * prefix + i, 0)
  {
    hide Get, Stale, Present;
    forall w: nat | InRange(w, level - 1, 512 * prefix + i, 0, 512)
      ensures InRange(w, level, prefix, i, 512)
    {
    }
  }

  lemma RootReached(s: Machine, roles: seq<Role>, r: nat)
    requires Ok(s, roles) && IsRoot(roles, r)
    ensures Reached(s.mem, roles, r, r, 4, 0)
  {
    RootNode(s.mem, roles, s.kernel, r);
  }

  /** One call of paging_make_readonly, whatever is cached and dropped during it, stores what it stores
      without.  A page of the running task is stale afterwards only if it was present and writable and
      was cached between its flush and its store; and such a page is, unless it is dropped later on. */
  lemma StaleAfterPass(s: Machine, roles: seq<Role>, r: nat, cs: nat -> Choice)
    returns (s': Machine)
    requires Ok(s, roles) && Coherent(s) && IsRoot(roles, s.cr3) && IsRoot(roles, r)
    ensures ReadonlyTableWith(s, r, 4, 0, cs) == Some(s')
    ensures ReadonlyTable(s, r, 4, 0).Some? && SameBut(ReadonlyTable(s, r, 4, 0).value, s') && Ok(s', roles)
    ensures CachePresent(s')
    ensures forall w: nat :: Stale(s', w) ==> w < LOWER && r == s.cr3 && CachedInBetween(s.mem, r, cs, w)
    ensures forall w: nat :: w < LOWER && r == s.cr3 && CachedInBetween(s.mem, r, cs, w) && NeverDropped(cs, w) ==>
      Stale(s', w)
  {
    hide Get, Present, Ok, ReadonlyTable, ReadonlyTableWith, CachedInBetween, NeverDropped, InteriorKept;
    RootReached(s, roles, r);
    s' := TableWithEffect(s, roles, r, r, 4, 0, cs);
    TableIgnoresCache(s, s, r, 4, 0, cs);
    forall w: nat | w < PAGES
      ensures Stale(s', w) ==> w < LOWER && r == s.cr3 && CachedInBetween(s.mem, r, cs, w)
      ensures w < LOWER && r == s.cr3 && CachedInBetween(s.mem, r, cs, w) && NeverDropped(cs, w) ==> Stale(s', w)
    {
      assert PageAfter(s, s', r, cs, 4, 0, 0, 512, w);
      ShiftBounds(w);
    }
  }

  // A pass over another address space leaves nothing stale that it flushes.
  lemma SecondPass(s: Machine, roles: seq<Role>, n: nat, ds: nat -> Choice)
    returns (s': Machine)
    requires Ok(s, roles) && CachePresent(s) && IsRoot(roles, s.cr3) && IsRoot(roles, n) && n != s.cr3
    requires forall w: nat :: Stale(s, w) ==> w < LOWER && Present(Get(s.mem, n, 4, w))
    ensures ReadonlyTableWith(s, n, 4, 0, ds) == Some(s')
    ensures ReadonlyTable(s, n, 4, 0).Some? && SameBut(ReadonlyTable(s, n, 4, 0).value, s') && Coherent(s')
  {
    hide Get, Present, Ok, ReadonlyTable, ReadonlyTableWith, CachedInBetween, NeverDropped, InteriorKept;
    RootReached(s, roles, n);
    s' := TableWithEffect(s, roles, n, n, 4, 0, ds);
    TableIgnoresCache(s, s, n, 4, 0, ds);
    forall w: nat | w in s'.tlb
      ensures w < PAGES && s'.tlb[w] == Get(s'.mem, s'.cr3, 4, w)
    {
      assert PageAfter(s, s', n, ds, 4, 0, 0, 512, w);
      ShiftBounds(w);
    }
  }

  /** Whatever the processor caches and drops during a fork, the fork has the effect that it has without,
      and leaves no stale translation: what the pass over the parent leaves, the pass over the child
      flushes. */
  lemma ForkWithEffect(s: Machine, roles: seq<Role>, r: nat, c: Choice, cs: nat -> Choice, ds: nat -> Choice)
    requires Ok(s, roles) && Coherent(s) && IsRoot(roles, r) && s.cr3 == r
    requires Frames.Available(s.pmm) >= 1 + Tables(s.mem, r, 4)
    ensures ForkSpace(s, r).Some? && ForkSpaceWith(s, r, c, cs, ds).Some?
    ensures var (n, s1) := ForkSpace(s, r).value;
      var (k, s2) := ForkSpaceWith(s, r, c, cs, ds).value;
      k == n && SameBut(s1, s2) && Coherent(s2)
  {
    hide Get, Present, Writable, Ok, CopySpace, ReadonlyTable, ReadonlyTableWith, Tables, Refill, NeverDropped, Layout;
    var n, s1, roles' := CopySpaceEffect(s, roles, r);
    RefillKeeps(s1, c, 0);
    var a1 := Refill(s1, c);
    CopyIsCoherent(s, s1, roles, roles', r, n);
    OkTwin(s1, a1, roles');
    var s2 := ProtectSpace(s1, roles', r);
    TableIgnoresCache(s1, a1, r, 4, 0, cs);
    var a2 := StaleAfterPass(a1, roles', r, cs);
    forall w: nat | Stale(a2, w)
      ensures w < LOWER && Present(Get(a2.mem, n, 4, w))
    {
      assert CachedInBetween(a1.mem, r, cs, w);
    }
    var a3 := SecondPass(a2, roles', n, ds);
    TableIgnoresCache(s2, a2, n, 4, 0, ds);
  }

  lemma CopyIsCoherent(s: Machine, s1: Machine, roles: seq<Role>, roles': seq<Role>, r: nat, n: nat)
    requires Coherent(s) && IsRoot(roles, r) && s.cr3 == r && SpaceCopied(s, s1, roles, roles', r, n)
    ensures Coherent(s1) && IsRoot(roles', r) && n != r && s1.cr3 == r
  {
    hide Get, Present, Ok;
  }
}
