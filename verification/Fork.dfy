/** What `syscall_fork` does to address spaces (`kernel/src/syscall/fork.c`): the parent is
    copied, and both copies lose write access. */
module Forking {
  import opened Options
  import opened PageTables
  import opened PageTableCopy
  import opened PageTableProtect
  import opened CopyOnWrite
  import Frames

  function ForkSpace(s: Machine, r: nat): Option<(nat, Machine)> {
    var (n, s1) :- CopySpace(s, r);
    var s2 :- ReadonlyTable(s1, r, 4, 0);
    var s3 :- ReadonlyTable(s2, n, 4, 0);
    Some((n, s3))
  }

  // A writable user page is alone on its frame.
  ghost predicate AloneOn(m: seq<nat>, q: nat, w: nat, q': nat, w': nat) {
    var e, e' := Get(m, q, 4, w), Get(m, q', 4, w');
    Present(e) && Present(e') && Writable(e) && Fr(e) == Fr(e') ==> q == q' && w == w'
  }

  ghost predicate Exclusive(m: seq<nat>, roles: seq<Role>) {
    forall q: nat, w: nat, q': nat, w': nat ::
      IsRoot(roles, q) && IsRoot(roles, q') && w < LOWER && w' < LOWER ==> AloneOn(m, q, w, q', w')
  }

  // Write-protecting address space r as a whole.
  ghost predicate SpaceProtected(s: Machine, s': Machine, roles: seq<Role>, r: nat) {
    && Ok(s', roles) && s' == s.(mem := s'.mem, tlb := s'.tlb) && TlbShrinks(s.tlb, s'.tlb)
    && (forall q: nat, w: nat :: IsRoot(roles, q) && w < PAGES ==>
          Get(s'.mem, q, 4, w) ==
            if q == r && w < LOWER then ClearWritable(Get(s.mem, q, 4, w)) else Get(s.mem, q, 4, w))
    && (forall w: nat :: w < LOWER && Present(Get(s.mem, r, 4, w)) ==> w !in s'.tlb)
    && (forall g :: 0 <= g < |roles| && !roles[g].Node? ==> SameFrame(s.mem, s'.mem, g))
  }

  lemma ProtectSpace(s: Machine, roles: seq<Role>, r: nat)
    returns (s': Machine)
    requires Ok(s, roles) && IsRoot(roles, r)
    ensures ReadonlyTable(s, r, 4, 0) == Some(s') && SpaceProtected(s, s', roles, r)
  {
    hide Get, Present, Writable, UserBit, Huge, Fr, ClearWritable;
    assert NodeOk(roles, r);
    s' := ReadonlyTableEffect(s, roles, r, r, 4, 0);
    forall q: nat, w: nat | IsRoot(roles, q) && w < PAGES
      ensures Get(s'.mem, q, 4, w) ==
        if q == r && w < LOWER then ClearWritable(Get(s.mem, q, 4, w)) else Get(s.mem, q, 4, w)
    {
      if q == r && w < LOWER {
        ShiftBounds(w);
      } else {
        ProtectKeeps(s, s', roles, r, q, w);
      }
    }
    forall w: nat | w < LOWER && Present(Get(s.mem, r, 4, w))
      ensures w !in s'.tlb
    {
      ShiftBounds(w);
    }
  }

  lemma ProtectKeeps(s: Machine, s': Machine, roles: seq<Role>, r: nat, q: nat, w: nat)
    requires Ok(s, roles) && IsRoot(roles, q) && w < PAGES && (q != r || w >= LOWER)
    requires Protected(s, s', roles, r, r, 4, 0, 0)
    ensures Get(s'.mem, q, 4, w) == Get(s.mem, q, 4, w)
  {
    hide Get, Present, Writable, UserBit, Huge, Fr, ClearWritable, FreeOk;
    assert NodeOk(roles, q);
    RootOnPath(roles, q, w);
    forall g: nat | OnPath(roles, g, q, w) && roles[g].level <= 4
      ensures Rd(s'.mem, g, Idx(w, roles[g].level)) == Rd(s.mem, g, Idx(w, roles[g].level))
    {
      assert !Below(roles, g, r, 4, 0, 0);
      assert SameFrame(s.mem, s'.mem, g);
    }
    GetLocal(s.mem, s'.mem, roles, s.kernel, q, q, w);
  }

  // After a fork, parent r and child n translate every user page alike and read-only, onto the
  // frames the parent had; everything else is as before.
  ghost predicate Forked(s: Machine, s': Machine, roles: seq<Role>, roles': seq<Role>, r: nat, n: nat) {
    && Ok(s', roles') && SpaceTaken(s, roles, roles', n) && n != r
    && (forall q: nat, w: nat :: IsRoot(roles', q) && w < LOWER ==>
          Get(s'.mem, q, 4, w) ==
            if q == r || q == n then ClearWritable(Get(s.mem, r, 4, w)) else Get(s.mem, q, 4, w))
    && (forall q: nat, w: nat :: IsRoot(roles, q) && LOWER <= w < PAGES ==>
          Get(s'.mem, q, 4, w) == Get(s.mem, q, 4, w))
    && (forall g :: 0 <= g < |roles| && !roles[g].Node? && !Frames.Free(s.pmm, g) ==>
          SameFrame(s.mem, s'.mem, g))
    && (forall w: nat :: w < LOWER && Present(Get(s.mem, r, 4, w)) ==> w !in s'.tlb)
    && TlbShrinks(s.tlb, s'.tlb)
    && PmmSteps(s.pmm, s'.pmm, 1 + Tables(s.mem, r, 4))
    && s' == s.(mem := s'.mem, pmm := s'.pmm, tlb := s'.tlb)
  }

  lemma ForkEffect(s: Machine, roles: seq<Role>, r: nat)
    returns (n: nat, s': Machine, roles': seq<Role>)
    requires Ok(s, roles) && IsRoot(roles, r)
    requires Frames.Available(s.pmm) >= 1 + Tables(s.mem, r, 4)
    ensures ForkSpace(s, r) == Some((n, s')) && Forked(s, s', roles, roles', r, n)
  {
    hide Get, Present, Writable, UserBit, Huge, Fr, ClearWritable, CopySpace, ReadonlyTable, Tables, Ok;
    var s1;
    n, s1, roles' := CopySpaceEffect(s, roles, r);
    var s2 := ProtectSpace(s1, roles', r);
    s' := ProtectSpace(s2, roles', n);
    ForkCompose(s, s1, s2, s', roles, roles', r, n);
  }

  lemma ForkCompose(s: Machine, s1: Machine, s2: Machine, s': Machine, roles: seq<Role>, roles': seq<Role>,
                    r: nat, n: nat)
    requires IsRoot(roles, r) && SpaceCopied(s, s1, roles, roles', r, n)
    requires SpaceProtected(s1, s2, roles', r) && SpaceProtected(s2, s', roles', n)
    ensures Forked(s, s', roles, roles', r, n)
  {
    hide Get, Present, Writable, UserBit, Huge, Fr, ClearWritable, Tables, Ok;
    forall q: nat, w: nat | IsRoot(roles', q) && w < LOWER
      ensures Get(s'.mem, q, 4, w) ==
        if q == r || q == n then ClearWritable(Get(s.mem, r, 4, w)) else Get(s.mem, q, 4, w)
    {
    }
    forall q: nat, w: nat | IsRoot(roles, q) && LOWER <= w < PAGES
      ensures Get(s'.mem, q, 4, w) == Get(s.mem, q, 4, w)
    {
      assert IsRoot(roles', q);
    }
    forall g | 0 <= g < |roles| && !roles[g].Node? && !Frames.Free(s.pmm, g)
      ensures SameFrame(s.mem, s'.mem, g)
    {
      assert SameFrame(s.mem, s1.mem, g) && SameFrame(s1.mem, s2.mem, g) && SameFrame(s2.mem, s'.mem, g);
    }
  }

  lemma RootKept(roles: seq<Role>, roles': seq<Role>, q: nat, s: Machine, n: nat)
    requires SpaceTaken(s, roles, roles', n) && IsRoot(roles, q)
    ensures IsRoot(roles', q) && q != n
  {
  }

  // ----- writable pages stay alone on their frames

  lemma ForkKeepsExclusive(s: Machine, s': Machine, roles: seq<Role>, roles': seq<Role>, r: nat, n: nat)
    requires Exclusive(s.mem, roles) && IsRoot(roles, r) && Forked(s, s', roles, roles', r, n)
    ensures Exclusive(s'.mem, roles')
  {
    hide Get, Present, Writable, UserBit, Huge, Fr, ClearWritable, Ok;
    forall q: nat, w: nat, q': nat, w': nat
      | IsRoot(roles', q) && IsRoot(roles', q') && w < LOWER && w' < LOWER
      ensures AloneOn(s'.mem, q, w, q', w')
    {
      ClearWritableBits(Get(s.mem, r, 4, w));
      ClearWritableBits(Get(s.mem, r, 4, w'));
      if q != r && q != n {
        var p' := if q' == n then r else q';
        assert IsRoot(roles, q) && IsRoot(roles, p');
        assert AloneOn(s.mem, q, w, p', w');
      }
    }
  }

  lemma CowKeepsExclusive(s: Machine, s': Machine, roles: seq<Role>, roles': seq<Role>, r: nat, v: nat, f: nat)
    requires Ok(s, roles) && Exclusive(s.mem, roles) && IsRoot(roles, r) && v < LOWER
    requires Moved(s, s', roles, roles', r, v, f)
    ensures Exclusive(s'.mem, roles')
  {
    hide Get, Present, Writable, UserBit, Huge, Fr, Layout, FreeOk;
    ScratchIndices();
    forall q: nat, w: nat, q': nat, w': nat
      | IsRoot(roles', q) && IsRoot(roles', q') && w < LOWER && w' < LOWER
      ensures AloneOn(s'.mem, q, w, q', w')
    {
      assert IsRoot(roles, q) && IsRoot(roles, q');
      assert AloneOn(s.mem, q, w, q', w');
      MappedIsData(s.mem, roles, s.kernel, q, w);
      MappedIsData(s.mem, roles, s.kernel, q', w');
    }
  }
}
