/** `paging_make_readonly`: every user page of one address space loses write access, nothing
    else changes, and no translation of a present page is left in the TLB. */
module PageTableProtect {
  import opened Options
  import opened PageTables

  // The innermost level.  Each translation is flushed, and then its entry is written.
  function ReadonlyLeaves(s: Machine, t: nat, prefix: nat, i: nat): Option<Machine>
    requires i <= 512
    decreases 512 - i
  {
    if i == 512 then Some(s)
    else if !InMemory(s.mem, t) then None
    else
      var m := Put(s.mem, t, i, ClearWritable(Rd(s.mem, t, i)));
      ReadonlyLeaves(s.(mem := m, tlb := s.tlb - {512 * prefix + i}), t, prefix, i + 1)
  }

  // paging_make_readonly_recursive
  function ReadonlyTable(s: Machine, t: nat, level: nat, prefix: nat): Option<Machine>
    requires level > 0
    decreases level, 513
  {
    if level == 1 then ReadonlyLeaves(s, t, prefix, 0) else ReadonlySlots(s, t, level, prefix, 0)
  }

  function ReadonlySlots(s: Machine, t: nat, level: nat, prefix: nat, i: nat): Option<Machine>
    requires level > 1 && i <= Slots(level)
    decreases level, 512 - i
  {
    if i == Slots(level) then Some(s)
    else if !InMemory(s.mem, t) then None
    else if !Present(Rd(s.mem, t, i)) then ReadonlySlots(s, t, level, prefix, i + 1)
    else
      var s1 :- ReadonlyTable(s, Fr(Rd(s.mem, t, i)), level - 1, 512 * prefix + i);
      ReadonlySlots(s1, t, level, prefix, i + 1)
  }

  lemma ClearWritableBits(e: nat)
    ensures var x := ClearWritable(e);
      !Writable(x) && Fr(x) == Fr(e) && (Present(x) <==> Present(e))
      && (UserBit(x) <==> UserBit(e)) && (Huge(x) <==> Huge(e))
  {
    var flags := e % 0x1000;
    EntryBits(Fr(e), flags);
    if Writable(e) {
      ClearInFlags(flags);
      EntryBits(Fr(e), flags - 2);
    }
  }

  lemma ClearInFlags(flags: nat)
    requires Writable(flags)
    ensures flags >= 2 && !Writable(flags - 2)
    ensures Present(flags - 2) <==> Present(flags)
    ensures UserBit(flags - 2) <==> UserBit(flags)
    ensures Huge(flags - 2) <==> Huge(flags)
  {
    var q, k := flags / 4, flags % 4;
    LowBits(q, k);
    HighBit(q, k);
    assert k / 2 % 2 == 1;
    LowBits(q, k - 2);
    HighBit(q, k - 2);
  }

  lemma {:induction false} ShiftShift(w: nat, k: nat)
    ensures Shift(Shift(w, 1), k) == Shift(w, k + 1)
  {
    if k > 0 {
      ShiftShift(w, k - 1);
    }
  }

  // Leaf table g covers only pages in slots from i on of the table with this level and prefix.
  ghost predicate Below(roles: seq<Role>, g: nat, r: nat, level: nat, prefix: nat, i: nat)
    requires g < |roles| && level > 0
  {
    && roles[g].Node? && roles[g].space == User(r) && roles[g].level == 1
    && (if level == 1 then roles[g].prefix == prefix
        else Shift(roles[g].prefix, level - 1) == prefix && Idx(roles[g].prefix, level - 1) >= i)
  }

  ghost predicate Protected(s: Machine, s': Machine, roles: seq<Role>, t: nat, r: nat,
                            level: nat, prefix: nat, i: nat)
    requires level > 0
  {
    && Ok(s', roles) && s' == s.(mem := s'.mem, tlb := s'.tlb) && TlbShrinks(s.tlb, s'.tlb)
    && (forall g :: 0 <= g < |roles| && !Below(roles, g, r, level, prefix, i) ==> SameFrame(s.mem, s'.mem, g))
    && (forall w: nat :: w < LOWER && Shift(w, level) == prefix && Idx(w, level) >= i ==>
          && Get(s'.mem, t, level, w) == ClearWritable(Get(s.mem, t, level, w))
          && (Present(Get(s.mem, t, level, w)) ==> w !in s'.tlb))
  }

  lemma ProtectLeaf(s: Machine, roles: seq<Role>, t: nat, r: nat, prefix: nat, i: nat)
    returns (s1: Machine)
    requires Ok(s, roles) && UserTable(roles, t, r, 1, prefix) && i < 512
    ensures s1 == s.(mem := Put(s.mem, t, i, ClearWritable(Rd(s.mem, t, i))), tlb := s.tlb - {512 * prefix + i})
    ensures Ok(s1, roles)
  {
    var x := ClearWritable(Rd(s.mem, t, i));
    s1 := s.(mem := Put(s.mem, t, i, x), tlb := s.tlb - {512 * prefix + i});
    ClearWritableBits(Rd(s.mem, t, i));
    forall f, j: nat | 0 <= f < |roles| && roles[f].Node? && j < 512
      ensures SlotOk(s1.mem, roles, f, j)
    {
      assert SlotOk(s.mem, roles, f, j);
    }
    forall q, j | IsRoot(roles, q) && 256 <= j < 512
      ensures UpperOk(s1.mem, s.kernel, q, j)
    {
      assert UpperOk(s.mem, s.kernel, q, j);
    }
  }

  lemma {:induction false} ReadonlyLeavesEffect(s: Machine, roles: seq<Role>, t: nat, r: nat, prefix: nat, i: nat)
    returns (s': Machine)
    requires Ok(s, roles) && UserTable(roles, t, r, 1, prefix) && i <= 512
    ensures ReadonlyLeaves(s, t, prefix, i) == Some(s')
    ensures Ok(s', roles) && s' == s.(mem := s'.mem, tlb := s'.tlb) && TlbShrinks(s.tlb, s'.tlb)
    ensures forall g: nat :: g != t ==> SameFrame(s.mem, s'.mem, g)
    ensures forall j: nat :: j < 512 ==>
      Rd(s'.mem, t, j) == if j < i then Rd(s.mem, t, j) else ClearWritable(Rd(s.mem, t, j))
    ensures forall w: nat :: Shift(w, 1) == prefix && Idx(w, 1) >= i ==> w !in s'.tlb
    decreases 512 - i
  {
    hide ClearWritable;
    if i == 512 {
      s' := s;
    } else {
      var s1 := ProtectLeaf(s, roles, t, r, prefix, i);
      s' := ReadonlyLeavesEffect(s1, roles, t, r, prefix, i + 1);
      forall g: nat | g != t
        ensures SameFrame(s.mem, s'.mem, g)
      {
        assert SameFrame(s.mem, s1.mem, g) && SameFrame(s1.mem, s'.mem, g);
      }
      forall w: nat | Shift(w, 1) == prefix && Idx(w, 1) >= i
        ensures w !in s'.tlb
      {
        assert w == 512 * Shift(w, 1) + Idx(w, 1);
      }
    }
  }

  lemma {:induction false} ReadonlyTableEffect(s: Machine, roles: seq<Role>, t: nat, r: nat, level: nat, prefix: nat)
    returns (s': Machine)
    requires Ok(s, roles) && 1 <= level <= 4 && UserTable(roles, t, r, level, prefix)
    ensures ReadonlyTable(s, t, level, prefix) == Some(s')
    ensures Protected(s, s', roles, t, r, level, prefix, 0)
    decreases level, 513
  {
    if level == 1 {
      s' := ReadonlyLeavesEffect(s, roles, t, r, prefix, 0);
      forall g | 0 <= g < |roles| && !Below(roles, g, r, level, prefix, 0)
        ensures SameFrame(s.mem, s'.mem, g)
      {
        assert g != t;
      }
    } else {
      s' := ReadonlySlotsEffect(s, roles, t, r, level, prefix, 0);
    }
  }

  lemma {:induction false} ReadonlySlotsEffect(s: Machine, roles: seq<Role>, t: nat, r: nat,
                                               level: nat, prefix: nat, i: nat)
    returns (s': Machine)
    requires Ok(s, roles) && 1 < level <= 4 && UserTable(roles, t, r, level, prefix) && i <= Slots(level)
    ensures ReadonlySlots(s, t, level, prefix, i) == Some(s')
    ensures Protected(s, s', roles, t, r, level, prefix, i)
    decreases level, 512 - i
  {
    hide ClearWritable, Writable, UserBit, Protected, Get;
    if i == Slots(level) {
      s' := s;
      ProtectEnd(s, roles, t, r, level, prefix);
    } else if !Present(Rd(s.mem, t, i)) {
      s' := ReadonlySlotsEffect(s, roles, t, r, level, prefix, i + 1);
      ProtectAbsent(s, s', roles, t, r, level, prefix, i);
    } else {
      assert SlotOk(s.mem, roles, t, i);
      var s1 := ReadonlyTableEffect(s, roles, Fr(Rd(s.mem, t, i)), r, level - 1, 512 * prefix + i);
      ProtectedKeepsOk(s, s1, roles, Fr(Rd(s.mem, t, i)), r, level - 1, 512 * prefix + i);
      s' := ReadonlySlotsEffect(s1, roles, t, r, level, prefix, i + 1);
      ProtectCompose(s, s1, s', roles, t, r, level, prefix, i);
    }
  }

  lemma ProtectedKeepsOk(s: Machine, s1: Machine, roles: seq<Role>, t: nat, r: nat, level: nat, prefix: nat)
    requires level > 0 && Protected(s, s1, roles, t, r, level, prefix, 0)
    ensures Ok(s1, roles)
  {
  }

  lemma ProtectEnd(s: Machine, roles: seq<Role>, t: nat, r: nat, level: nat, prefix: nat)
    requires Ok(s, roles) && 1 < level <= 4
    ensures Protected(s, s, roles, t, r, level, prefix, Slots(level))
  {
    forall w: nat | w < LOWER && Shift(w, level) == prefix
      ensures Idx(w, level) < Slots(level)
    {
      ShiftBounds(w);
    }
  }

  lemma ProtectAbsent(s: Machine, s': Machine, roles: seq<Role>, t: nat, r: nat, level: nat, prefix: nat, i: nat)
    requires Ok(s, roles) && 1 < level <= 4 && UserTable(roles, t, r, level, prefix) && i < Slots(level)
    requires !Present(Rd(s.mem, t, i))
    requires Protected(s, s', roles, t, r, level, prefix, i + 1)
    ensures Protected(s, s', roles, t, r, level, prefix, i)
  {
    hide Ok;
    assert !Below(roles, t, r, level, prefix, i + 1);
    assert SameFrame(s.mem, s'.mem, t);
  }

  // Leaf tables under slot i, and those under later slots, are different tables.
  lemma BelowSplits(roles: seq<Role>, g: nat, r: nat, level: nat, prefix: nat, i: nat)
    requires g < |roles| && 1 < level && i < 512
    ensures Below(roles, g, r, level - 1, 512 * prefix + i, 0) ==>
      Below(roles, g, r, level, prefix, i) && !Below(roles, g, r, level, prefix, i + 1)
    ensures Below(roles, g, r, level, prefix, i + 1) ==> Below(roles, g, r, level, prefix, i)
  {
  }

  // A leaf table on the path of page w is under the slot that w selects.
  lemma PathBelow(roles: seq<Role>, g: nat, r: nat, level: nat, prefix: nat, i: nat, w: nat)
    requires OnPath(roles, g, r, w) && w < LOWER && 1 < level && Shift(w, level) == prefix
    ensures Below(roles, g, r, level, prefix, i) ==> Idx(w, level) >= i
    ensures Below(roles, g, r, level - 1, 512 * prefix + i, 0) ==> Idx(w, level) == i || i >= 512
  {
    if roles[g].level == 1 {
      ShiftShift(w, level - 1);
      ShiftShift(w, level - 2);
    }
  }

  lemma ProtectCompose(s: Machine, s1: Machine, s': Machine, roles: seq<Role>, t: nat, r: nat,
                       level: nat, prefix: nat, i: nat)
    requires Ok(s, roles) && 1 < level <= 4 && UserTable(roles, t, r, level, prefix) && i < Slots(level)
    requires Present(Rd(s.mem, t, i))
    requires Protected(s, s1, roles, Fr(Rd(s.mem, t, i)), r, level - 1, 512 * prefix + i, 0)
    requires Protected(s1, s', roles, t, r, level, prefix, i + 1)
    ensures Protected(s, s', roles, t, r, level, prefix, i)
  {
    hide Get, ClearWritable, Writable, UserBit;
    forall g | 0 <= g < |roles| && !Below(roles, g, r, level, prefix, i)
      ensures SameFrame(s.mem, s'.mem, g)
    {
      BelowSplits(roles, g, r, level, prefix, i);
      assert SameFrame(s.mem, s1.mem, g) && SameFrame(s1.mem, s'.mem, g);
    }
    forall w: nat | w < LOWER && Shift(w, level) == prefix && Idx(w, level) >= i
      ensures Get(s'.mem, t, level, w) == ClearWritable(Get(s.mem, t, level, w))
      ensures Present(Get(s.mem, t, level, w)) ==> w !in s'.tlb
    {
      ProtectedPage(s, s1, s', roles, t, r, level, prefix, i, w);
    }
  }

  lemma ProtectedPage(s: Machine, s1: Machine, s': Machine, roles: seq<Role>, t: nat, r: nat,
                      level: nat, prefix: nat, i: nat, w: nat)
    requires Ok(s, roles) && 1 < level <= 4 && UserTable(roles, t, r, level, prefix) && i < Slots(level)
    requires Present(Rd(s.mem, t, i))
    requires Protected(s, s1, roles, Fr(Rd(s.mem, t, i)), r, level - 1, 512 * prefix + i, 0)
    requires Protected(s1, s', roles, t, r, level, prefix, i + 1)
    requires w < LOWER && Shift(w, level) == prefix && Idx(w, level) >= i
    ensures Get(s'.mem, t, level, w) == ClearWritable(Get(s.mem, t, level, w))
    ensures Present(Get(s.mem, t, level, w)) ==> w !in s'.tlb
  {
    hide ClearWritable, Writable, UserBit;
    var c := Fr(Rd(s.mem, t, i));
    assert SlotOk(s.mem, roles, t, i);
    assert OnPath(roles, t, r, w);
    if Idx(w, level) == i {
      assert Shift(w, level - 1) == 512 * prefix + i;
      assert OnPath(roles, c, r, w);
      LeavesKept(s1, s', roles, c, r, level, prefix, i + 1, w);
      assert SameFrame(s.mem, s1.mem, t) && SameFrame(s1.mem, s'.mem, t);
    } else {
      forall g: nat | OnPath(roles, g, r, w) && roles[g].level <= level
        ensures Rd(s1.mem, g, Idx(w, roles[g].level)) == Rd(s.mem, g, Idx(w, roles[g].level))
      {
        PathBelow(roles, g, r, level, prefix, i, w);
        assert SameFrame(s.mem, s1.mem, g);
      }
      GetLocal(s.mem, s1.mem, roles, s.kernel, t, r, w);
    }
  }

  // Writing leaf tables under later slots leaves the translation of page w alone.
  lemma LeavesKept(s1: Machine, s': Machine, roles: seq<Role>, c: nat, r: nat, level: nat, prefix: nat, i: nat, w: nat)
    requires Ok(s1, roles) && 1 < level && OnPath(roles, c, r, w) && w < LOWER
    requires Shift(w, level) == prefix && Idx(w, level) < i
    requires forall g :: 0 <= g < |roles| && !Below(roles, g, r, level, prefix, i) ==> SameFrame(s1.mem, s'.mem, g)
    ensures Get(s'.mem, c, roles[c].level, w) == Get(s1.mem, c, roles[c].level, w)
  {
    hide Get, Below;
    forall g: nat | OnPath(roles, g, r, w) && roles[g].level <= roles[c].level
      ensures Rd(s'.mem, g, Idx(w, roles[g].level)) == Rd(s1.mem, g, Idx(w, roles[g].level))
    {
      PathBelow(roles, g, r, level, prefix, i, w);
      assert SameFrame(s1.mem, s'.mem, g);
    }
    GetLocal(s1.mem, s'.mem, roles, s1.kernel, c, r, w);
  }
}
