/** `paging_copy`: the copy of a lower half translates every page as the original does, shares
    its leaf frames, and shares no table with it. */
module PageTableCopy {
  import opened Options
  import opened PageTables
  import Frames

  // Frames taken into use were free and became tables of address space n below the given level.
  ghost predicate TakenFor(s: Machine, roles: seq<Role>, roles': seq<Role>, n: nat, level: nat) {
    && |roles'| == |roles|
    && forall f :: 0 <= f < |roles| && roles'[f] != roles[f] ==>
      && Frames.Free(s.pmm, f) && roles[f].Unused?
      && roles'[f].Node? && roles'[f].space == User(n) && roles'[f].level < level
  }

  // No frame in use is written, except dst.
  ghost predicate OnlyWrites(s: Machine, m': seq<nat>, roles: seq<Role>, dst: nat) {
    forall g :: 0 <= g < |roles| && !Frames.Free(s.pmm, g) && g != dst ==> SameFrame(s.mem, m', g)
  }

  // From slot i on, table dst translates pages as table src did.
  ghost predicate TranslatesAs(m': seq<nat>, dst: nat, m: seq<nat>, src: nat, level: nat, prefix: nat, i: nat)
    requires level > 0
  {
    forall w: nat :: w < LOWER && Shift(w, level) == prefix && Idx(w, level) >= i ==>
      Get(m', dst, level, w) == Get(m, src, level, w)
  }

  function Cost(m: seq<nat>, src: nat, level: nat, i: nat): nat
    requires level > 0 && (level > 1 ==> i <= Slots(level))
  {
    if level == 1 then 0 else TablesFrom(m, src, level, i)
  }

  ghost predicate Copied(s: Machine, s': Machine, roles: seq<Role>, roles': seq<Role>,
                         dst: nat, src: nat, n: nat, level: nat, prefix: nat, i: nat)
    requires level > 0 && (level > 1 ==> i <= Slots(level))
  {
    && Ok(s', roles') && TakenFor(s, roles, roles', n, level)
    && OnlyWrites(s, s'.mem, roles, dst)
    && (forall j: nat :: j < 512 && (j < i || Slots(level) <= j) ==> Rd(s'.mem, dst, j) == Rd(s.mem, dst, j))
    && TranslatesAs(s'.mem, dst, s.mem, src, level, prefix, i)
    && PmmSteps(s.pmm, s'.pmm, Cost(s.mem, src, level, i))
    && s' == s.(mem := s'.mem, pmm := s'.pmm)
  }

  ghost predicate CopyReady(s: Machine, roles: seq<Role>, dst: nat, src: nat,
                            n: nat, r: nat, level: nat, prefix: nat, i: nat) {
    && Ok(s, roles) && n != r && 1 <= level <= 4
    && UserTable(roles, dst, n, level, prefix) && !Frames.Free(s.pmm, dst)
    && UserTable(roles, src, r, level, prefix)
    && forall j: nat :: i <= j < Slots(level) ==> Rd(s.mem, dst, j) == 0
  }

  lemma UserTableOnPath(m: seq<nat>, roles: seq<Role>, kernel: nat, t: nat, r: nat, level: nat, prefix: nat, w: nat)
    requires Layout(m, roles, kernel) && UserTable(roles, t, r, level, prefix) && level > 0
    requires w < LOWER && Shift(w, level) == prefix
    ensures OnPath(roles, t, r, w)
  {
  }

  // A free zero-filled frame becomes an empty table.
  lemma FreshTable(s: Machine, roles: seq<Role>, n: nat, level: nat, prefix: nat)
    returns (f: nat, s1: Machine, roles1: seq<Role>)
    requires Ok(s, roles) && IsRoot(roles, n) && 1 <= level < 4 && Frames.Available(s.pmm) > 0
    ensures Alloc(s) == Some((f, s1)) && f < |roles| && roles[f].Unused? && Frames.Free(s.pmm, f)
    ensures roles1 == roles[f := Node(User(n), level, prefix)]
    ensures s1 == s.(pmm := s1.pmm) && Ok(s1, roles1) && PmmSteps(s.pmm, s1.pmm, 1)
    ensures !Frames.Free(s1.pmm, f) && ZeroFrame(s1.mem, f)
  {
    AllocEffect(s, roles);
    f := Alloc(s).value.0;
    s1 := Alloc(s).value.1;
    roles1 := roles[f := Node(User(n), level, prefix)];
    forall g | 0 <= g < |roles1|
      ensures NodeOk(roles1, g)
    {
      assert NodeOk(roles, g);
    }
    forall g, j: nat | 0 <= g < |roles1| && roles1[g].Node? && j < 512
      ensures SlotOk(s.mem, roles1, g, j)
    {
      assert g != f ==> SlotOk(s.mem, roles, g, j);
    }
    forall q, j | IsRoot(roles1, q) && 256 <= j < 512
      ensures UpperOk(s.mem, s.kernel, q, j)
    {
      assert IsRoot(roles, q);
    }
  }

  // Storing a well-formed entry in a lower-half interior slot keeps the layout.
  lemma PutInterior(m: seq<nat>, roles: seq<Role>, kernel: nat, t: nat, i: nat, x: nat)
    requires Layout(m, roles, kernel) && t < |roles| && roles[t].Node? && roles[t].level > 1
    requires i < Slots(roles[t].level) && InteriorOk(roles, roles[t], i, x)
    ensures Layout(Put(m, t, i, x), roles, kernel)
  {
    var m' := Put(m, t, i, x);
    forall f, j: nat | 0 <= f < |roles| && roles[f].Node? && j < 512
      ensures SlotOk(m', roles, f, j)
    {
      assert SlotOk(m, roles, f, j);
    }
    forall q, j | IsRoot(roles, q) && 256 <= j < 512
      ensures UpperOk(m', kernel, q, j)
    {
      assert UpperOk(m, kernel, q, j);
    }
  }

  // A leaf table copied into an empty one.
  lemma CopyLeafTable(s: Machine, roles: seq<Role>, dst: nat, src: nat, n: nat, r: nat, prefix: nat)
    returns (s': Machine)
    requires CopyReady(s, roles, dst, src, n, r, 1, prefix, 0)
    ensures CopyTable(s, dst, src, 1) == Some(s')
    ensures Copied(s, s', roles, roles, dst, src, n, 1, prefix, 0)
  {
    s' := CopyTable(s, dst, src, 1).value;
    forall f, j: nat | 0 <= f < |roles| && roles[f].Node? && j < 512
      ensures SlotOk(s'.mem, roles, f, j)
    {
      assert SlotOk(s.mem, roles, if f == dst then src else f, j);
    }
    forall q, j | IsRoot(roles, q) && 256 <= j < 512
      ensures UpperOk(s'.mem, s.kernel, q, j)
    {
      assert UpperOk(s.mem, s.kernel, q, j);
    }
  }

  // Linking the finished copy f of the table that slot i of src leads to.
  lemma LinkCopy(s: Machine, roles: seq<Role>, dst: nat, src: nat, n: nat, r: nat, level: nat, prefix: nat,
                 i: nat, f: nat, e: nat)
    returns (s': Machine)
    requires Ok(s, roles) && 1 < level <= 4 && i < Slots(level)
    requires UserTable(roles, dst, n, level, prefix) && !Frames.Free(s.pmm, dst)
    requires UserTable(roles, src, r, level, prefix) && Rd(s.mem, src, i) == e && Present(e)
    requires UserTable(roles, f, n, level - 1, 512 * prefix + i)
    ensures s' == s.(mem := Put(s.mem, dst, i, 0x1000 * f + e % 0x1000)) && Ok(s', roles)
    ensures var x := Rd(s'.mem, dst, i); Present(x) && !Huge(x) && Fr(x) == f
  {
    var x := 0x1000 * f + e % 0x1000;
    EntryBits(f, e % 0x1000);
    EntryBits(Fr(e), e % 0x1000);
    s' := s.(mem := Put(s.mem, dst, i, x));
    assert SlotOk(s.mem, roles, src, i);
    PutInterior(s.mem, roles, s.kernel, dst, i, x);
  }

  // Frames on the path of a page below table t keep their slots when only other frames are written.
  lemma PathKept(s: Machine, m': seq<nat>, roles: seq<Role>, dst: nat, t: nat, r: nat, w: nat)
    requires Ok(s, roles) && OnPath(roles, t, r, w) && w < LOWER
    requires OnlyWrites(s, m', roles, dst)
    requires dst < |roles| && roles[dst].Node? &&
      (roles[dst].space != User(r) || roles[dst].level > roles[t].level)
    ensures Get(m', t, roles[t].level, w) == Get(s.mem, t, roles[t].level, w)
  {
    hide Get, Present, Writable, UserBit, Huge, Fr;
    forall g: nat | OnPath(roles, g, r, w) && roles[g].level <= roles[t].level
      ensures Rd(m', g, Idx(w, roles[g].level)) == Rd(s.mem, g, Idx(w, roles[g].level))
    {
      assert SameFrame(s.mem, m', g);
    }
    GetLocal(s.mem, m', roles, s.kernel, t, r, w);
  }

  lemma {:induction false} CopyTableEffect(s: Machine, roles: seq<Role>, dst: nat, src: nat,
                                           n: nat, r: nat, level: nat, prefix: nat)
    returns (s': Machine, roles': seq<Role>)
    requires CopyReady(s, roles, dst, src, n, r, level, prefix, 0)
    requires Frames.Available(s.pmm) >= Cost(s.mem, src, level, 0)
    ensures CopyTable(s, dst, src, level) == Some(s')
    ensures Copied(s, s', roles, roles', dst, src, n, level, prefix, 0)
    decreases level, 513, 0
  {
    if level == 1 {
      s' := CopyLeafTable(s, roles, dst, src, n, r, prefix);
      roles' := roles;
    } else {
      s', roles' := CopySlotsEffect(s, roles, dst, src, n, r, level, prefix, 0);
    }
  }

  // One slot copied: table f, linked at slot i of dst, translates as the table that slot i of
  // src leads to.
  ghost predicate SlotCopied(s: Machine, s3: Machine, roles: seq<Role>, roles2: seq<Role>,
                             dst: nat, src: nat, n: nat, level: nat, prefix: nat, i: nat, f: nat)
    requires level > 1 && i < Slots(level)
  {
    && Ok(s3, roles2) && TakenFor(s, roles, roles2, n, level) && OnlyWrites(s, s3.mem, roles, dst)
    && (forall j: nat :: j < 512 && j != i ==> Rd(s3.mem, dst, j) == Rd(s.mem, dst, j))
    && UserTable(roles2, f, n, level - 1, 512 * prefix + i) && !Frames.Free(s3.pmm, f)
    && (var x := Rd(s3.mem, dst, i); Present(x) && !Huge(x) && Fr(x) == f)
    && TranslatesAs(s3.mem, f, s.mem, Fr(Rd(s.mem, src, i)), level - 1, 512 * prefix + i, 0)
    && PmmSteps(s.pmm, s3.pmm, 1 + Tables(s.mem, Fr(Rd(s.mem, src, i)), level - 1))
    && s3 == s.(mem := s3.mem, pmm := s3.pmm)
  }

  lemma {:induction false} CopySlotsEffect(s: Machine, roles: seq<Role>, dst: nat, src: nat,
                                           n: nat, r: nat, level: nat, prefix: nat, i: nat)
    returns (s': Machine, roles': seq<Role>)
    requires level > 1 && i <= Slots(level) && CopyReady(s, roles, dst, src, n, r, level, prefix, i)
    requires Frames.Available(s.pmm) >= TablesFrom(s.mem, src, level, i)
    ensures CopySlots(s, dst, src, level, i) == Some(s')
    ensures Copied(s, s', roles, roles', dst, src, n, level, prefix, i)
    decreases level, 512 - i, 1
  {
    hide Present, Writable, UserBit, Huge, Fr, Get, CopySlots, CopyReady, Copied;
    if i == Slots(level) {
      s', roles' := s, roles;
      CopyNothing(s, roles, dst, src, n, r, level, prefix);
    } else if !Present(Rd(s.mem, src, i)) {
      SkipAbsent(s, roles, dst, src, n, r, level, prefix, i);
      s', roles' := CopySlotsEffect(s, roles, dst, src, n, r, level, prefix, i + 1);
      SlotAbsent(s, s', roles, roles', dst, src, n, level, prefix, i);
    } else {
      var s3, roles2, f := CopyOneSlot(s, roles, dst, src, n, r, level, prefix, i);
      s', roles' := CopySlotsEffect(s3, roles2, dst, src, n, r, level, prefix, i + 1);
      CopySlotsCompose(s, s3, s', roles, roles2, roles', dst, src, n, r, level, prefix, i, f);
    }
  }

  lemma CopyNothing(s: Machine, roles: seq<Role>, dst: nat, src: nat, n: nat, r: nat, level: nat, prefix: nat)
    requires level > 1 && CopyReady(s, roles, dst, src, n, r, level, prefix, Slots(level))
    ensures CopySlots(s, dst, src, level, Slots(level)) == Some(s)
    ensures Copied(s, s, roles, roles, dst, src, n, level, prefix, Slots(level))
  {
    hide Present, Writable, UserBit, Huge, Fr, Get, Idx, Shift;
    forall w: nat | w < LOWER
      ensures Idx(w, level) < Slots(level)
    {
      LowerIndex(w, level);
    }
  }

  // The slots that the copy visits are all that translate user pages.
  lemma LowerIndex(w: nat, level: nat)
    requires w < LOWER && 1 < level <= 4
    ensures Idx(w, level) < Slots(level)
  {
    ShiftBounds(w);
  }

  lemma SkipAbsent(s: Machine, roles: seq<Role>, dst: nat, src: nat, n: nat, r: nat, level: nat, prefix: nat, i: nat)
    requires level > 1 && i < Slots(level) && CopyReady(s, roles, dst, src, n, r, level, prefix, i)
    requires !Present(Rd(s.mem, src, i))
    ensures CopyReady(s, roles, dst, src, n, r, level, prefix, i + 1) && Rd(s.mem, dst, i) == 0
    ensures CopySlots(s, dst, src, level, i) == CopySlots(s, dst, src, level, i + 1)
    ensures TablesFrom(s.mem, src, level, i) == TablesFrom(s.mem, src, level, i + 1)
  {
    hide Present, Writable, UserBit, Huge, Fr, Get;
  }

  lemma {:induction false} CopyOneSlot(s: Machine, roles: seq<Role>, dst: nat, src: nat,
                                       n: nat, r: nat, level: nat, prefix: nat, i: nat)
    returns (s3: Machine, roles2: seq<Role>, f: nat)
    requires level > 1 && i < Slots(level) && CopyReady(s, roles, dst, src, n, r, level, prefix, i)
    requires Present(Rd(s.mem, src, i)) && Frames.Available(s.pmm) >= TablesFrom(s.mem, src, level, i)
    ensures CopySlots(s, dst, src, level, i) == CopySlots(s3, dst, src, level, i + 1)
    ensures SlotCopied(s, s3, roles, roles2, dst, src, n, level, prefix, i, f)
    ensures TablesFrom(s3.mem, src, level, i + 1) == TablesFrom(s.mem, src, level, i + 1)
    ensures CopyReady(s3, roles2, dst, src, n, r, level, prefix, i + 1)
    decreases level, 512 - i, 0
  {
    hide Writable, UserBit, Huge, Fr, CopySlots, Get, CopyTable, SlotCopied, FreeOk;
    var u, p := Fr(Rd(s.mem, src, i)), 512 * prefix + i;
    assert SlotOk(s.mem, roles, src, i) && NodeOk(roles, dst);
    var s1, roles1;
    f, s1, roles1 := FreshTable(s, roles, n, level - 1, p);
    var s2;
    s2, roles2 := CopyTableEffect(s1, roles1, f, u, n, r, level - 1, p);
    s3 := FinishSlot(s, s1, s2, roles, roles1, roles2, dst, src, n, r, level, prefix, i, f);
  }

  lemma FinishSlot(s: Machine, s1: Machine, s2: Machine, roles: seq<Role>, roles1: seq<Role>, roles2: seq<Role>,
                   dst: nat, src: nat, n: nat, r: nat, level: nat, prefix: nat, i: nat, f: nat)
    returns (s3: Machine)
    requires 1 < level && i < Slots(level) && CopyReady(s, roles, dst, src, n, r, level, prefix, i)
    requires Present(Rd(s.mem, src, i)) && Alloc(s) == Some((f, s1))
    requires f < |roles| && roles[f].Unused? && Frames.Free(s.pmm, f)
    requires roles1 == roles[f := Node(User(n), level - 1, 512 * prefix + i)]
    requires s1 == s.(pmm := s1.pmm) && PmmSteps(s.pmm, s1.pmm, 1) && !Frames.Free(s1.pmm, f)
    requires CopyTable(s1, f, Fr(Rd(s.mem, src, i)), level - 1) == Some(s2)
    requires Copied(s1, s2, roles1, roles2, f, Fr(Rd(s.mem, src, i)), n, level - 1, 512 * prefix + i, 0)
    ensures CopySlots(s, dst, src, level, i) == CopySlots(s3, dst, src, level, i + 1)
    ensures SlotCopied(s, s3, roles, roles2, dst, src, n, level, prefix, i, f)
    ensures TablesFrom(s3.mem, src, level, i + 1) == TablesFrom(s.mem, src, level, i + 1)
    ensures CopyReady(s3, roles2, dst, src, n, r, level, prefix, i + 1)
  {
    hide Writable, UserBit, Fr, CopySlots, Get, TablesFrom;
    assert SameFrame(s.mem, s2.mem, src);
    s3 := LinkCopy(s2, roles2, dst, src, n, r, level, prefix, i, f, Rd(s.mem, src, i));
    UnfoldCopySlots(s, s1, s2, s3, dst, src, level, i, f);
    SlotPresent(s, s1, s2, s3, roles, roles1, roles2, dst, src, n, r, level, prefix, i, f);
    TablesLocal(s.mem, s3.mem, roles, s.kernel, src, r, level, i + 1);
  }

  lemma UnfoldCopySlots(s: Machine, s1: Machine, s2: Machine, s3: Machine,
                        dst: nat, src: nat, level: nat, i: nat, f: nat)
    requires 1 < level && i < Slots(level) && InMemory(s.mem, dst) && InMemory(s.mem, src)
    requires Present(Rd(s.mem, src, i)) && Alloc(s) == Some((f, s1)) && s1.mem == s.mem
    requires CopyTable(s1, f, Fr(Rd(s.mem, src, i)), level - 1) == Some(s2)
    requires |s2.mem| == |s.mem| && Rd(s2.mem, src, i) == Rd(s.mem, src, i)
    requires s3 == s2.(mem := Put(s2.mem, dst, i, 0x1000 * f + Rd(s.mem, src, i) % 0x1000))
    ensures CopySlots(s, dst, src, level, i) == CopySlots(s3, dst, src, level, i + 1)
  {
    hide CopyTable, Alloc, Present, Fr, Rd;
  }

  lemma SlotAbsent(s: Machine, s': Machine, roles: seq<Role>, roles': seq<Role>,
                   dst: nat, src: nat, n: nat, level: nat, prefix: nat, i: nat)
    requires level > 1 && i < Slots(level) && !Present(Rd(s.mem, src, i)) && Rd(s.mem, dst, i) == 0
    requires Copied(s, s', roles, roles', dst, src, n, level, prefix, i + 1)
    ensures Copied(s, s', roles, roles', dst, src, n, level, prefix, i)
  {
    hide Ok, TakenFor, OnlyWrites, PmmSteps;
  }

  lemma SlotPresent(s: Machine, s1: Machine, s2: Machine, s3: Machine, roles: seq<Role>, roles1: seq<Role>,
                    roles2: seq<Role>, dst: nat, src: nat, n: nat, r: nat, level: nat, prefix: nat, i: nat, f: nat)
    requires 1 < level && i < Slots(level) && CopyReady(s, roles, dst, src, n, r, level, prefix, i)
    requires f < |roles| && roles[f].Unused? && Frames.Free(s.pmm, f)
    requires roles1 == roles[f := Node(User(n), level - 1, 512 * prefix + i)]
    requires s1 == s.(pmm := s1.pmm) && PmmSteps(s.pmm, s1.pmm, 1) && !Frames.Free(s1.pmm, f)
    requires Copied(s1, s2, roles1, roles2, f, Fr(Rd(s.mem, src, i)), n, level - 1, 512 * prefix + i, 0)
    requires Ok(s3, roles2)
    requires var e := Rd(s.mem, src, i); s3 == s2.(mem := Put(s2.mem, dst, i, 0x1000 * f + e % 0x1000))
    requires var x := Rd(s3.mem, dst, i); Present(x) && !Huge(x) && Fr(x) == f
    ensures SlotCopied(s, s3, roles, roles2, dst, src, n, level, prefix, i, f)
  {
    hide Present, Writable, UserBit, Huge, Fr, Get, TablesFrom;
    var u, k, p := Fr(Rd(s.mem, src, i)), level - 1, 512 * prefix + i;
    forall w: nat | w < LOWER && Shift(w, k) == p
      ensures Get(s3.mem, f, k, w) == Get(s.mem, u, k, w)
    {
      PathKept(s2, s3.mem, roles2, dst, f, n, w);
    }
  }

  lemma CopySlotsCompose(s: Machine, s3: Machine, s': Machine, roles: seq<Role>, roles2: seq<Role>, roles': seq<Role>,
                         dst: nat, src: nat, n: nat, r: nat, level: nat, prefix: nat, i: nat, f: nat)
    requires 1 < level && i < Slots(level) && CopyReady(s, roles, dst, src, n, r, level, prefix, i)
    requires Present(Rd(s.mem, src, i))
    requires SlotCopied(s, s3, roles, roles2, dst, src, n, level, prefix, i, f)
    requires TablesFrom(s3.mem, src, level, i + 1) == TablesFrom(s.mem, src, level, i + 1)
    requires Copied(s3, s', roles2, roles', dst, src, n, level, prefix, i + 1)
    ensures Copied(s, s', roles, roles', dst, src, n, level, prefix, i)
  {
    forall g | 0 <= g < |roles| && !Frames.Free(s.pmm, g) && g != dst
      ensures SameFrame(s.mem, s'.mem, g)
    {
      assert SameFrame(s.mem, s3.mem, g) && SameFrame(s3.mem, s'.mem, g);
    }
    forall w: nat | w < LOWER && Shift(w, level) == prefix && Idx(w, level) >= i
      ensures Get(s'.mem, dst, level, w) == Get(s.mem, src, level, w)
    {
      UserTableOnPath(s.mem, roles, s.kernel, src, r, level, prefix, w);
      assert SlotOk(s.mem, roles, src, i);
      if Idx(w, level) == i {
        assert Shift(w, level - 1) == 512 * prefix + i;
        PathKept(s3, s'.mem, roles2, dst, f, n, w);
      } else {
        PathKept(s, s3.mem, roles, dst, src, r, w);
      }
    }
  }

  // ----- whole address spaces

  // The kernel's upper half over an empty lower half.
  function TopWords(m: seq<nat>, kernel: nat): (words: seq<nat>)
    ensures |words| == 512
    ensures forall i :: 0 <= i < 512 ==> words[i] == if i < 256 then 0 else Rd(m, kernel, i)
  {
    seq(512, i requires 0 <= i < 512 => if i < 256 then 0 else Rd(m, kernel, i))
  }

  // paging_create_empty
  function CreateEmpty(s: Machine): Option<(nat, Machine)> {
    var (n, s1) :- Alloc(s);
    if !InMemory(s1.mem, n) || !InMemory(s1.mem, s.kernel) then None
    else
      var m := PutFrame(s1.mem, n, Zeros());
      Some((n, s1.(mem := PutFrame(m, n, TopWords(m, s.kernel)))))
  }

  // paging_copy
  function CopySpace(s: Machine, parent: nat): Option<(nat, Machine)> {
    var (n, s1) :- CreateEmpty(s);
    var s2 :- CopyTable(s1, n, parent, 4);
    Some((n, s2))
  }

  // Address spaces other than a new one keep every translation.
  ghost predicate TranslationsKept(m: seq<nat>, m': seq<nat>, roles: seq<Role>) {
    forall q: nat, w: nat :: IsRoot(roles, q) && w < PAGES ==> Get(m', q, 4, w) == Get(m, q, 4, w)
  }

  ghost predicate UsedKept(s: Machine, m': seq<nat>, roles: seq<Role>) {
    forall g :: 0 <= g < |roles| && !Frames.Free(s.pmm, g) ==> SameFrame(s.mem, m', g)
  }

  lemma CreateEmptyEffect(s: Machine, roles: seq<Role>)
    returns (n: nat, s1: Machine, roles1: seq<Role>)
    requires Ok(s, roles) && Frames.Available(s.pmm) > 0
    ensures CreateEmpty(s) == Some((n, s1))
    ensures n < |roles| && roles[n].Unused? && Frames.Free(s.pmm, n) && !Frames.Free(s1.pmm, n)
    ensures roles1 == roles[n := Node(User(n), 4, 0)] && Ok(s1, roles1)
    ensures s1 == s.(mem := s1.mem, pmm := s1.pmm) && PmmSteps(s.pmm, s1.pmm, 1)
    ensures UsedKept(s, s1.mem, roles)
    ensures forall i: nat :: i < 256 ==> Rd(s1.mem, n, i) == 0
  {
    hide Present, Writable, UserBit, Huge, Fr;
    AllocEffect(s, roles);
    n := Alloc(s).value.0;
    s1 := CreateEmpty(s).value.1;
    roles1 := roles[n := Node(User(n), 4, 0)];
    CreateEmptyLayout(s.mem, s1.mem, roles, s.kernel, n);
  }

  lemma CreateEmptyLayout(m: seq<nat>, m1: seq<nat>, roles: seq<Role>, kernel: nat, n: nat)
    requires Layout(m, roles, kernel) && n < |roles| && roles[n].Unused?
    requires InMemory(m, n) && |m1| == |m|
    requires forall g: nat, j: nat :: j < 512 ==>
      Rd(m1, g, j) == if g == n then (if j < 256 then 0 else Rd(m, kernel, j)) else Rd(m, g, j)
    ensures Layout(m1, roles[n := Node(User(n), 4, 0)], kernel)
  {
    var roles1 := roles[n := Node(User(n), 4, 0)];
    forall g | 0 <= g < |roles1|
      ensures NodeOk(roles1, g)
    {
      assert NodeOk(roles, g);
    }
    forall g, j: nat | 0 <= g < |roles1| && roles1[g].Node? && j < 512
      ensures SlotOk(m1, roles1, g, j)
    {
      if g != n {
        assert SlotOk(m, roles, g, j);
      } else if j >= 256 {
        assert SlotOk(m, roles, kernel, j) && NodeOk(roles, kernel);
      }
    }
    forall q, j | IsRoot(roles1, q) && 256 <= j < 512
      ensures UpperOk(m1, kernel, q, j)
    {
      assert UpperOk(m, kernel, if q == n then kernel else q, j);
    }
  }

  // Used frames kept, every existing address space translates as before.
  lemma UsedKeepsTranslations(s: Machine, m': seq<nat>, roles: seq<Role>)
    requires Ok(s, roles) && UsedKept(s, m', roles)
    ensures TranslationsKept(s.mem, m', roles)
  {
    hide Get, Present, Writable, UserBit, Huge, Fr;
    forall q: nat, w: nat | IsRoot(roles, q) && w < PAGES
      ensures Get(m', q, 4, w) == Get(s.mem, q, 4, w)
    {
      assert NodeOk(roles, q);
      RootOnPath(roles, q, w);
      forall g: nat | OnPath(roles, g, q, w) && roles[g].level <= 4
        ensures Rd(m', g, Idx(w, roles[g].level)) == Rd(s.mem, g, Idx(w, roles[g].level))
      {
        assert SameFrame(s.mem, m', g);
      }
      GetLocal(s.mem, m', roles, s.kernel, q, q, w);
    }
  }

  lemma UsedStaysKept(s: Machine, s1: Machine, m': seq<nat>, roles: seq<Role>, roles1: seq<Role>, n: nat)
    requires UsedKept(s, s1.mem, roles) && OnlyWrites(s1, m', roles1, n) && |roles1| == |roles|
    requires Frames.Free(s.pmm, n) && forall f: nat :: Frames.Free(s1.pmm, f) ==> Frames.Free(s.pmm, f)
    ensures UsedKept(s, m', roles)
  {
    forall g | 0 <= g < |roles| && !Frames.Free(s.pmm, g)
      ensures SameFrame(s.mem, m', g)
    {
      assert SameFrame(s.mem, s1.mem, g) && SameFrame(s1.mem, m', g);
    }
  }

  // The frames taken into use are tables of the new address space n, its root among them.
  ghost predicate SpaceTaken(s: Machine, roles: seq<Role>, roles': seq<Role>, n: nat) {
    && |roles'| == |roles| && n < |roles| && roles[n].Unused? && IsRoot(roles', n)
    && (forall f :: 0 <= f < |roles| && roles'[f] != roles[f] ==>
          Frames.Free(s.pmm, f) && roles[f].Unused? && roles'[f].Node? && roles'[f].space == User(n))
    && (forall f: nat :: IsRoot(roles', f) ==> f == n || IsRoot(roles, f))
  }

  // n is a copy of address space r; nothing that existed before changes.
  ghost predicate SpaceCopied(s: Machine, s': Machine, roles: seq<Role>, roles': seq<Role>, r: nat, n: nat) {
    && Ok(s', roles') && SpaceTaken(s, roles, roles', n)
    && UsedKept(s, s'.mem, roles) && TranslationsKept(s.mem, s'.mem, roles)
    && (forall w: nat :: w < LOWER ==> Get(s'.mem, n, 4, w) == Get(s.mem, r, 4, w))
    && PmmSteps(s.pmm, s'.pmm, 1 + Tables(s.mem, r, 4))
    && s' == s.(mem := s'.mem, pmm := s'.pmm)
  }

  // paging_copy: the new address space translates every user page as the parent does, every
  // older one is unchanged, every frame in use is unchanged, and the cost is one frame for the
  // top level and one for each table of the parent's lower half.
  lemma CopySpaceEffect(s: Machine, roles: seq<Role>, r: nat)
    returns (n: nat, s': Machine, roles': seq<Role>)
    requires Ok(s, roles) && IsRoot(roles, r)
    requires Frames.Available(s.pmm) >= 1 + Tables(s.mem, r, 4)
    ensures CopySpace(s, r) == Some((n, s')) && SpaceCopied(s, s', roles, roles', r, n)
  {
    hide Get, Present, Writable, UserBit, Huge, Fr, SameFrame, CopyTable, SpaceCopied;
    var s1, roles1;
    n, s1, roles1 := CreateEmptyEffect(s, roles);
    assert NodeOk(roles, r);
    UserTablesKept(s, s1, roles, r);
    TablesLocal(s.mem, s1.mem, roles, s.kernel, r, r, 4, 0);
    s', roles' := CopyTableEffect(s1, roles1, n, r, n, r, 4, 0);
    SpaceCopiedCompose(s, s1, s', roles, roles1, roles', r, n);
  }

  lemma UserTablesKept(s: Machine, s1: Machine, roles: seq<Role>, r: nat)
    requires Ok(s, roles) && UsedKept(s, s1.mem, roles)
    ensures UserTablesSame(s.mem, s1.mem, roles, r, 4)
  {
  }

  lemma SpaceCopiedCompose(s: Machine, s1: Machine, s': Machine, roles: seq<Role>, roles1: seq<Role>, roles': seq<Role>,
                           r: nat, n: nat)
    requires Ok(s, roles) && IsRoot(roles, r) && n < |roles| && roles[n].Unused? && Frames.Free(s.pmm, n)
    requires roles1 == roles[n := Node(User(n), 4, 0)]
    requires s1 == s.(mem := s1.mem, pmm := s1.pmm) && PmmSteps(s.pmm, s1.pmm, 1) && UsedKept(s, s1.mem, roles)
    requires Tables(s1.mem, r, 4) == Tables(s.mem, r, 4)
    requires Copied(s1, s', roles1, roles', n, r, n, 4, 0, 0)
    ensures SpaceCopied(s, s', roles, roles', r, n)
  {
    hide Present, Writable, UserBit, Huge, Fr, SameFrame;
    UsedStaysKept(s, s1, s'.mem, roles, roles1, n);
    UsedKeepsTranslations(s, s'.mem, roles);
    UsedKeepsTranslations(s, s1.mem, roles);
    CopiedTranslates(s, s1, s', r, n, roles);
    CopiedTaken(s, s1, roles, roles1, roles', n);
  }

  lemma CopiedTranslates(s: Machine, s1: Machine, s': Machine, r: nat, n: nat, roles: seq<Role>)
    requires TranslationsKept(s.mem, s1.mem, roles) && IsRoot(roles, r)
    requires TranslatesAs(s'.mem, n, s1.mem, r, 4, 0, 0)
    ensures forall w: nat :: w < LOWER ==> Get(s'.mem, n, 4, w) == Get(s.mem, r, 4, w)
  {
    hide Get;
    forall w: nat | w < LOWER
      ensures Get(s'.mem, n, 4, w) == Get(s.mem, r, 4, w)
    {
      ShiftBounds(w);
    }
  }

  lemma CopiedTaken(s: Machine, s1: Machine, roles: seq<Role>, roles1: seq<Role>, roles': seq<Role>, n: nat)
    requires n < |roles| && roles[n].Unused? && Frames.Free(s.pmm, n)
    requires roles1 == roles[n := Node(User(n), 4, 0)]
    requires PmmSteps(s.pmm, s1.pmm, 1) && TakenFor(s1, roles1, roles', n, 4)
    ensures SpaceTaken(s, roles, roles', n)
  {
  }
}
