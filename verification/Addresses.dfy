/** Address arithmetic of `kernel/src/memory/addrutil.c`, and the virtual addresses at which the
    kernel sees physical memory. */
module Addresses {
  import opened Bits

  function OffsetHigher(p: Word): Word {
    (p + 0xffff_8000_0000_0000) % 0x1_0000_0000_0000_0000
  }

  function OffsetLower(p: Word): Word {
    (p - 0xffff_8000_0000_0000) % 0x1_0000_0000_0000_0000
  }

  function EnsureHigher(p: Word): nat {
    Or(p, 0xffff_8000_0000_0000)
  }

  // (p + a - 1) & ~(a - 1) for the page size
  function PageAlignUp(p: Word): nat {
    And((p + 0xfff) % 0x1_0000_0000_0000_0000, Not(0xfff))
  }

  // A table pointer: the address of frame f in the kernel's direct map of physical memory.
  function FramePtr(f: nat): nat {
    0xffff_8000_0000_0000 + 0x1000 * f
  }

  lemma EnsureHigherAdds(p: Word)
    requires p < 0x8000_0000_0000
    ensures EnsureHigher(p) == p + 0xffff_8000_0000_0000
  {
    hide Or, Left, Ones;
    HigherHalf();
    Ones47();
    OrAbove(p, 0x1_ffff, 47);
  }

  /** The pointer to frame f is the address of a page that the kernel's direct map of physical memory
      maps to frame f: page 0x8_0000_0000 + f, from its first byte. */
  lemma PointersUseTheDirectMap(f: nat)
    requires f < 0x8_0000_0000
    ensures FramePtr(f) < 0x1_0000_0000_0000_0000 && FramePtr(f) % 0x1000 == 0
    ensures PageOf(FramePtr(f)) == 0x8_0000_0000 + f
    ensures Canonical(FramePtr(f)) && EnsureHigher(0x1000 * f) == FramePtr(f) == OffsetHigher(0x1000 * f)
  {
    hide Or;
    EnsureHigherAdds(0x1000 * f);
    assert FramePtr(f) / 0x1000 == 0xf_fff8_0000_0000 + f;
  }

  predicate IsFramePtr(p: Word) {
    0xffff_8000_0000_0000 <= p && (p - 0xffff_8000_0000_0000) % 0x1000 == 0
  }

  function FrameOf(p: Word): nat {
    if 0xffff_8000_0000_0000 <= p then (p - 0xffff_8000_0000_0000) / 0x1000 else 0
  }

  // Going to a direct-map address and back.
  lemma OffsetRoundTrip(p: Word)
    requires p < 0x8000_0000_0000
    ensures OffsetHigher(p) == p + 0xffff_8000_0000_0000 && OffsetLower(OffsetHigher(p)) == p
    ensures p % 0x1000 == 0 ==> IsFramePtr(OffsetHigher(p)) && FrameOf(OffsetHigher(p)) == p / 0x1000
  {
  }

  // An address in the higher half is left alone.
  lemma EnsureHigherKeeps(x: Word)
    requires x < 0x8000_0000_0000
    ensures EnsureHigher(x + 0xffff_8000_0000_0000) == x + 0xffff_8000_0000_0000
  {
    hide Or, Left, Ones, Low, High;
    HigherHalf();
    Ones47();
    OrAboveBoth(x, 0x1_ffff, 47);
  }

  // The table that an entry leads to, as the walks compute it: child & ~0xfff, made a pointer.
  function TablePtr(e: Word): nat {
    Or(And(e, Not(0xfff)), 0xffff_8000_0000_0000)
  }

  lemma TablePtrIs(e: Word)
    requires e < 0x8000_0000_0000
    ensures TablePtr(e) == FramePtr(e / 0x1000) < 0x1_0000_0000_0000_0000
    ensures IsFramePtr(TablePtr(e)) && FrameOf(TablePtr(e)) == e / 0x1000
  {
    hide And, Or;
    PageMask(e);
    EnsureHigherAdds(e - e % 0x1000);
  }

  lemma TablePtrOfPtr(f: nat)
    requires f < 0x8_0000_0000
    ensures FramePtr(f) < WORD_LIMIT && TablePtr(FramePtr(f)) == FramePtr(f)
  {
    hide And, Or;
    PageMask(FramePtr(f));
    EnsureHigherKeeps(0x1000 * f);
  }

  // ----- virtual page numbers

  // The page number that the four indices of an address make up.
  function PageOf(vaddr: Word): nat {
    vaddr / 0x1000 % 0x10_0000_0000
  }

  predicate Canonical(vaddr: Word) {
    vaddr < 0x8000_0000_0000 || vaddr >= 0xffff_8000_0000_0000
  }

  lemma CanonicalHalf(vaddr: Word)
    requires Canonical(vaddr)
    ensures vaddr < 0xffff_8000_0000_0000 <==> PageOf(vaddr) < 0x8_0000_0000
  {
    if vaddr >= 0xffff_8000_0000_0000 {
      var x := vaddr - 0xffff_8000_0000_0000;
      assert vaddr / 0x1000 == 0xf_fff8_0000_0000 + x / 0x1000;
    }
  }
}
