/** The code of `kernel/src/memory/pmm.c` over a byte bitmap, proved against the functions of
    `FrameAllocator.dfy`. */
module FrameManagement {
  import opened Bits
  import opened Bitmaps
  import opened Options
  import Frames

  // An entry of the boot loader's memory map.
  datatype Region = Region(base: Word, length: Word, usable: bool)

  function TotalLength(mmap: seq<Region>): nat {
    if mmap == [] then 0 else TotalLength(mmap[..|mmap| - 1]) + mmap[|mmap| - 1].length
  }

  // Every region counts, usable or not.
  lemma {:induction false} TotalCountsEach(mmap: seq<Region>, i: nat)
    requires i < |mmap|
    ensures TotalLength([]) == 0
    ensures TotalLength(mmap) == TotalLength(mmap[..i] + mmap[i + 1..]) + mmap[i].length
    decreases |mmap|
  {
    var n := |mmap| - 1;
    var rest := mmap[..i] + mmap[i + 1..];
    if i < n {
      TotalCountsEach(mmap[..n], i);
      assert mmap[..n][..i] + mmap[..n][i + 1..] == rest[..|rest| - 1];
      assert mmap[n] == rest[|rest| - 1];
    } else {
      assert rest == mmap[..n];
    }
  }

  // Frame n is in a usable region.
  ghost predicate Usable(mmap: seq<Region>, n: nat) {
    exists j :: 0 <= j < |mmap| && InRegion(mmap[j], n)
  }

  ghost predicate InRegion(r: Region, n: nat) {
    r.usable && r.base / 0x1000 <= n < r.base / 0x1000 + r.length / 0x1000
  }

  // Region k is the first of the longest usable regions among the first i.
  ghost predicate LargestBefore(mmap: seq<Region>, i: nat, k: nat)
    requires i <= |mmap|
  {
    && k < i && mmap[k].usable
    && (forall j :: 0 <= j < i && mmap[j].usable ==> mmap[j].length <= mmap[k].length)
    && (forall j :: 0 <= j < k && mmap[j].usable ==> mmap[j].length < mmap[k].length)
  }

  // The region that holds the bitmap.
  ghost predicate Largest(mmap: seq<Region>, k: nat) {
    LargestBefore(mmap, |mmap|, k)
  }

  // The length of the bitmap in bytes.
  function BitmapLength(mmap: seq<Region>): nat {
    TotalLength(mmap) / 0x8000 + 1
  }

  ghost predicate RegionOk(r: Region) {
    r.usable ==> r.base % 0x1000 == 0 && r.base + r.length < WORD_LIMIT
  }

  // There is usable memory, in page-aligned regions; and the bitmap fits into the largest of them.
  ghost predicate MapOk(mmap: seq<Region>) {
    && (exists i :: 0 <= i < |mmap| && mmap[i].usable)
    && TotalLength(mmap) + 0x10000 < WORD_LIMIT
    && (forall i :: 0 <= i < |mmap| ==> RegionOk(mmap[i]))
    && (forall k: nat :: Largest(mmap, k) ==> BitmapLength(mmap) <= mmap[k].length)
  }

  // The pages of a usable region lie below frame `bound`.
  predicate RegionBelow(r: Region, bound: nat) {
    r.usable && r.length / 0x1000 > 0 ==> r.base / 0x1000 + r.length / 0x1000 <= bound
  }

  // All of them have their bit in the bitmap.
  ghost predicate MapInside(mmap: seq<Region>) {
    forall i :: 0 <= i < |mmap| ==> RegionBelow(mmap[i], 8 * (TotalLength(mmap) / 0x8000 + 1))
  }

  // All of them lie below the sum of all lengths, which the kernel takes for the end of memory.
  ghost predicate MapBelow(mmap: seq<Region>) {
    forall i :: 0 <= i < |mmap| ==> RegionBelow(mmap[i], TotalLength(mmap) / 0x1000)
  }

  // The free frames are exactly the usable ones, less the whole pages of the bitmap.
  ghost predicate InitiallyFree(mmap: seq<Region>, k: nat, st: Frames.State)
    requires k < |mmap|
  {
    var first := mmap[k].base / 0x1000;
    var count := (TotalLength(mmap) / 0x8000 + 1) / 0x1000;
    forall n: nat :: Frames.Free(st, n) <==> Usable(mmap, n) && !(first <= n < first + count)
  }

  // Frame f holds bytes of the bitmap, which starts at the base of region k.
  predicate HoldsBitmap(mmap: seq<Region>, k: nat, f: nat)
    requires k < |mmap|
  {
    mmap[k].base / 0x1000 <= f && 0x1000 * f < mmap[k].base + TotalLength(mmap) / 0x8000 + 1
  }

  /** Where regions are whole pages, a frame that holds bytes of the bitmap is free after
      initialization if and only if it is the last and the bitmap does not end with it: there is such
      a frame exactly if the length of the bitmap is no multiple of the page size. */
  lemma BitmapTailIsFree(mmap: seq<Region>, k: nat, st: Frames.State, f: nat)
    requires MapOk(mmap) && Largest(mmap, k) && InitiallyFree(mmap, k, st)
    requires forall i :: 0 <= i < |mmap| ==> mmap[i].length % 0x1000 == 0
    requires HoldsBitmap(mmap, k, f)
    ensures var len := TotalLength(mmap) / 0x8000 + 1;
      && (Frames.Free(st, f) <==> f == mmap[k].base / 0x1000 + len / 0x1000)
      && (HoldsBitmap(mmap, k, mmap[k].base / 0x1000 + len / 0x1000) <==> len % 0x1000 != 0)
  {
    hide TotalLength, Largest, LargestBefore;
    var len := BitmapLength(mmap);
    LargestIsUsable(mmap, k);
    TailFrame(mmap[k].base, mmap[k].length, len, f);
    assert InRegion(mmap[k], f);
    assert Usable(mmap, f);
  }

  lemma LargestIsUsable(mmap: seq<Region>, k: nat)
    requires MapOk(mmap) && Largest(mmap, k)
    ensures k < |mmap| && mmap[k].usable && mmap[k].base % 0x1000 == 0
    ensures mmap[k].base + mmap[k].length < WORD_LIMIT && BitmapLength(mmap) <= mmap[k].length
  {
    hide TotalLength, BitmapLength;
    assert RegionOk(mmap[k]);
  }

  // Of the frames that hold len bytes from an aligned base, all but a partial last one lie before
  // the first len / 0x1000 are over.
  lemma TailFrame(base: nat, length: nat, len: nat, f: nat)
    requires base % 0x1000 == 0 && length % 0x1000 == 0 && 0 < len <= length
    requires base / 0x1000 <= f && 0x1000 * f < base + len
    ensures f < base / 0x1000 + length / 0x1000
    ensures !(base / 0x1000 <= f < base / 0x1000 + len / 0x1000) <==> f == base / 0x1000 + len / 0x1000
    ensures 0x1000 * (base / 0x1000 + len / 0x1000) < base + len <==> len % 0x1000 != 0
  {
    var q, p := len / 0x1000, base / 0x1000;
    assert base == 0x1000 * p && len == 0x1000 * q + len % 0x1000;
  }

  // ----- what the initialization does

  // unlock_pages and lock_pages; the model stops where they would leave the bitmap.
  function UnlockChecked(st: Frames.State, n: nat, count: nat): Option<Frames.State> {
    if count == 0 then Some(st)
    else
      var st1 :- UnlockChecked(st, n, count - 1);
      if n + count - 1 < |st1.bits| then Some(Frames.UnlockPage(st1, n + count - 1)) else None
  }

  function LockChecked(st: Frames.State, n: nat, count: nat): Option<Frames.State> {
    if count == 0 then Some(st)
    else
      var st1 :- LockChecked(st, n, count - 1);
      if n + count - 1 < |st1.bits| then Some(Frames.LockPage(st1, n + count - 1)) else None
  }

  function UnlockRegion(st: Frames.State, r: Region): Option<Frames.State> {
    if r.usable then UnlockChecked(st, r.base / 0x1000, r.length / 0x1000) else Some(st)
  }

  function UnlockRegions(st: Frames.State, mmap: seq<Region>): Option<Frames.State>
    decreases |mmap|
  {
    if mmap == [] then Some(st)
    else
      var st1 :- UnlockRegion(st, mmap[0]);
      UnlockRegions(st1, mmap[1..])
  }

  // A bitmap of `len` bytes, all frames locked.
  function AllLocked(len: nat, total: Word): Frames.State {
    Frames.State(seq(8 * len, n => true), 0, 0, total)
  }

  /** pmm_initialize, with the bitmap in region k */
  function Initialize(mmap: seq<Region>, k: nat): Option<Frames.State>
    requires k < |mmap| && TotalLength(mmap) < WORD_LIMIT
  {
    var st :- UnlockRegions(AllLocked(BitmapLength(mmap), TotalLength(mmap)), mmap);
    LockChecked(st, mmap[k].base / 0x1000, BitmapLength(mmap) / 0x1000)
  }

  lemma {:induction false} UnlockCheckedIff(st: Frames.State, n: nat, count: nat)
    ensures UnlockChecked(st, n, count).Some? <==> count == 0 || n + count <= |st.bits|
    ensures UnlockChecked(st, n, count).Some? ==> UnlockChecked(st, n, count).value == Frames.UnlockPages(st, n, count)
    ensures |Frames.UnlockPages(st, n, count).bits| == |st.bits|
  {
    if count > 0 {
      UnlockCheckedIff(st, n, count - 1);
    }
  }

  lemma {:induction false} LockCheckedIff(st: Frames.State, n: nat, count: nat)
    ensures LockChecked(st, n, count).Some? <==> count == 0 || n + count <= |st.bits|
    ensures LockChecked(st, n, count).Some? ==> LockChecked(st, n, count).value == Frames.LockPages(st, n, count)
    ensures |Frames.LockPages(st, n, count).bits| == |st.bits|
  {
    if count > 0 {
      LockCheckedIff(st, n, count - 1);
    }
  }

  lemma {:induction false} UnlockRegionsIff(st: Frames.State, mmap: seq<Region>)
    ensures UnlockRegions(st, mmap).Some? <==> forall i :: 0 <= i < |mmap| ==> RegionBelow(mmap[i], |st.bits|)
    ensures UnlockRegions(st, mmap).Some? ==> |UnlockRegions(st, mmap).value.bits| == |st.bits|
    decreases |mmap|
  {
    hide UnlockChecked, Frames.UnlockPages;
    if mmap != [] {
      UnlockCheckedIff(st, mmap[0].base / 0x1000, mmap[0].length / 0x1000);
      assert UnlockRegion(st, mmap[0]).Some? <==> RegionBelow(mmap[0], |st.bits|);
      if UnlockRegion(st, mmap[0]).Some? {
        UnlockRegionsIff(UnlockRegion(st, mmap[0]).value, mmap[1..]);
        forall i | 0 < i < |mmap|
          ensures mmap[i] == mmap[1..][i - 1]
        {
        }
      }
    }
  }

  /** The initialization stays inside the bitmap if and only if every usable region ends at or below the
      frame of its last bit. */
  lemma InitializeStaysInsideIff(mmap: seq<Region>, k: nat)
    requires MapOk(mmap) && Largest(mmap, k)
    ensures k < |mmap| && (Initialize(mmap, k).Some? <==> MapInside(mmap))
  {
    hide TotalLength, Largest, UnlockRegions, LockChecked, Frames.LockPages;
    LargestIsUsable(mmap, k);
    var st := AllLocked(BitmapLength(mmap), TotalLength(mmap));
    UnlockRegionsIff(st, mmap);
    if MapInside(mmap) {
      assert RegionBelow(mmap[k], 8 * BitmapLength(mmap));
      LockCheckedIff(UnlockRegions(st, mmap).value, mmap[k].base / 0x1000, BitmapLength(mmap) / 0x1000);
    }
  }

  lemma {:induction false} UnlockRegionsEffect(st: Frames.State, mmap: seq<Region>)
    requires Frames.Valid(st) && forall i :: 0 <= i < |mmap| ==> RegionBelow(mmap[i], Frames.Total(st))
    ensures UnlockRegions(st, mmap).Some?
    ensures var st' := UnlockRegions(st, mmap).value;
      && Frames.Valid(st') && st'.totalMemory == st.totalMemory && st'.lastFree == st.lastFree
      && |st'.bits| == |st.bits|
      && forall n: nat :: Frames.Free(st', n) <==> Frames.Free(st, n) || Usable(mmap, n)
    decreases |mmap|
  {
    hide UnlockRegion, Frames.Valid, InRegion, RegionBelow;
    if mmap != [] {
      var rest := mmap[1..];
      UnlockRegionEffect(st, mmap[0]);
      var st1 := UnlockRegion(st, mmap[0]).value;
      forall i | 0 < i < |mmap|
        ensures mmap[i] == rest[i - 1]
      {
      }
      UnlockRegionsEffect(st1, rest);
      forall n: nat
        ensures Usable(mmap, n) <==> InRegion(mmap[0], n) || Usable(rest, n)
      {
        UsableRest(mmap, n);
      }
    }
  }

  lemma UsableRest(mmap: seq<Region>, n: nat)
    requires mmap != []
    ensures Usable(mmap, n) <==> InRegion(mmap[0], n) || Usable(mmap[1..], n)
  {
    hide InRegion;
    var rest := mmap[1..];
    if j :| 0 <= j < |mmap| && InRegion(mmap[j], n) {
      assert j > 0 ==> rest[j - 1] == mmap[j];
    }
    if j :| 0 <= j < |rest| && InRegion(rest[j], n) {
      assert mmap[j + 1] == rest[j];
    }
  }

  lemma UnlockRegionEffect(st: Frames.State, r: Region)
    requires Frames.Valid(st) && RegionBelow(r, Frames.Total(st))
    ensures UnlockRegion(st, r).Some?
    ensures var st' := UnlockRegion(st, r).value;
      && Frames.Valid(st') && st'.totalMemory == st.totalMemory && st'.lastFree == st.lastFree
      && |st'.bits| == |st.bits|
      && forall n: nat :: Frames.Free(st', n) <==> Frames.Free(st, n) || InRegion(r, n)
  {
    hide Frames.CountFree, UnlockChecked;
    var n, count := r.base / 0x1000, r.length / 0x1000;
    if r.usable {
      UnlockCheckedIff(st, n, count);
      if count == 0 {
        assert Frames.UnlockPages(st, n, 0) == st;
      } else {
        Frames.UnlockPagesEffect(st, n, count);
      }
    }
  }

  /** With all usable memory below the sum of all lengths, the initialization leaves the allocator in a
      valid state, in which exactly the usable frames are free, less the whole pages of the bitmap. */
  lemma InitializeEffect(mmap: seq<Region>, k: nat)
    requires MapOk(mmap) && MapBelow(mmap) && Largest(mmap, k)
    ensures k < |mmap| && Initialize(mmap, k).Some?
    ensures var st := Initialize(mmap, k).value;
      && Frames.Valid(st) && st.totalMemory == TotalLength(mmap) && st.lastFree == 0 && InitiallyFree(mmap, k, st)
      && |st.bits| == 8 * (TotalLength(mmap) / 0x8000 + 1)
  {
    hide TotalLength, Largest, UnlockRegions, LockChecked, Usable, Frames.CountFree, Frames.LockPages;
    LargestIsUsable(mmap, k);
    var st := AllLocked(BitmapLength(mmap), TotalLength(mmap));
    Frames.CountZero(st, 0, |st.bits|);
    UnlockRegionsEffect(st, mmap);
    var st1 := UnlockRegions(st, mmap).value;
    var n, count := mmap[k].base / 0x1000, BitmapLength(mmap) / 0x1000;
    assert RegionBelow(mmap[k], TotalLength(mmap) / 0x1000);
    LockCheckedIff(st1, n, count);
    if count == 0 {
      NoneLocked(st1, n);
    } else {
      Frames.LockPagesEffect(st1, n, count);
    }
  }

  lemma NoneLocked(st: Frames.State, n: nat)
    ensures Frames.LockPages(st, n, 0) == st
  {
  }

  lemma BelowIsInside(mmap: seq<Region>)
    requires MapBelow(mmap)
    ensures MapInside(mmap)
  {
    hide TotalLength;
  }

  /** A machine with 4 GiB, of which the last GiB lies above a hole that the memory map does not list:
      the initialization leaves the bitmap. */
  function HoleMap(): seq<Region> {
    [Region(0, 0xc000_0000, true), Region(0x1_0000_0000, 0x4000_0000, true)]
  }

  lemma HoleLeavesTheBitmap()
    ensures MapOk(HoleMap()) && Largest(HoleMap(), 0) && !MapInside(HoleMap()) && Initialize(HoleMap(), 0).None?
  {
    var m := HoleMap();
    assert m[..1] == [m[0]] && m[..1][..0] == [];
    assert TotalLength(m) == 0x1_0000_0000;
    hide Initialize;
    assert !RegionBelow(m[1], 8 * BitmapLength(m));
    InitializeStaysInsideIff(m, 0);
  }

  lemma TotalOfNone(mmap: seq<Region>)
    ensures TotalLength(mmap[..0]) == 0 && BestBefore(mmap, 0, false, 0)
    ensures mmap[..|mmap|] == mmap
  {
  }

  // What the first pass knows after i regions.
  ghost predicate BestBefore(mmap: seq<Region>, i: nat, found: bool, k: nat)
    requires i <= |mmap|
  {
    if found then LargestBefore(mmap, i, k) else forall j :: 0 <= j < i ==> !mmap[j].usable
  }

  lemma BestStep(mmap: seq<Region>, i: nat, found: bool, k: nat)
    requires i < |mmap| && BestBefore(mmap, i, found, k)
    ensures found ==> k < |mmap|
    ensures if mmap[i].usable && (!found || mmap[i].length > mmap[k].length)
      then BestBefore(mmap, i + 1, true, i) else BestBefore(mmap, i + 1, found, k)
  {
  }

  lemma BestOfAll(mmap: seq<Region>, found: bool, k: nat)
    requires BestBefore(mmap, |mmap|, found, k) && exists i :: 0 <= i < |mmap| && mmap[i].usable
    ensures Largest(mmap, k)
  {
  }

  lemma TotalStep(mmap: seq<Region>, i: nat)
    requires i < |mmap|
    ensures TotalLength(mmap[..i + 1]) == TotalLength(mmap[..i]) + mmap[i].length
    ensures mmap[..|mmap|] == mmap
  {
    assert mmap[..i + 1][..i] == mmap[..i];
  }

  lemma BitmapEnds(mmap: seq<Region>, k: nat)
    requires k < |mmap| && mmap[k].base + mmap[k].length < WORD_LIMIT && BitmapLength(mmap) <= mmap[k].length
    ensures mmap[k].base + 0x1000 * (BitmapLength(mmap) / 0x1000) < WORD_LIMIT
  {
    hide BitmapLength;
  }

  lemma RegionEnds(r: Region)
    requires r.base + r.length < WORD_LIMIT
    ensures r.base + 0x1000 * (r.length / 0x1000) < WORD_LIMIT
  {
  }

  lemma UnfoldRegions(st: Frames.State, mmap: seq<Region>, i: nat)
    requires i < |mmap| && UnlockRegions(st, mmap[i..]).Some?
    ensures UnlockRegion(st, mmap[i]).Some?
    ensures UnlockRegions(st, mmap[i..]) == UnlockRegions(UnlockRegion(st, mmap[i]).value, mmap[i + 1..])
  {
    hide UnlockRegion;
    assert mmap[i..][1..] == mmap[i + 1..];
  }

  lemma UnusableRegion(st: Frames.State, r: Region)
    requires !r.usable
    ensures UnlockRegion(st, r) == Some(st)
  {
  }

  lemma NoRegions(st: Frames.State, mmap: seq<Region>)
    ensures UnlockRegions(st, mmap[|mmap|..]) == Some(st)
  {
  }

  class FrameManager {
    var bitmap: Bitmap
    var lastFree: Word
    var freeMemory: Word
    var totalMemory: Word

    ghost function View(): Frames.State
      reads this, bitmap.buf
    {
      Frames.State(bitmap.Contents(), lastFree, freeMemory, totalMemory)
    }

    // pmm_initialize.  The bitmap itself is kept apart from the frames it describes.
    constructor (mmap: seq<Region>)
      requires MapOk(mmap) && MapInside(mmap)
      ensures fresh(bitmap.buf) && bitmap.buf.Length == TotalLength(mmap) / 0x8000 + 1
      ensures exists k: nat :: Largest(mmap, k) && k < |mmap| && Initialize(mmap, k) == Some(View())
      ensures MapBelow(mmap) ==>
        && Frames.Valid(View()) && totalMemory == TotalLength(mmap) && lastFree == 0
        && exists k: nat :: Largest(mmap, k) && InitiallyFree(mmap, k, View())
    {
      hide Largest, LargestBefore, UnlockRegions, LockChecked, InitiallyFree, Frames.Valid;
      var total, largest := Measure(mmap);
      bitmap := new Bitmap(total / 0x8000 + 1);
      lastFree, freeMemory, totalMemory := 0, 0, total;
      new;
      InitializeStaysInsideIff(mmap, largest);
      assert View() == AllLocked(BitmapLength(mmap), TotalLength(mmap));
      UnlockUsable(mmap);
      LockBitmap(mmap, largest);
      if MapBelow(mmap) {
        InitializeEffect(mmap, largest);
      }
    }

    // The whole pages of the bitmap are locked.
    method LockBitmap(mmap: seq<Region>, k: nat)
      requires MapOk(mmap) && totalMemory == TotalLength(mmap) && Largest(mmap, k) && k < |mmap|
      requires LockChecked(View(), mmap[k].base / 0x1000, BitmapLength(mmap) / 0x1000).Some?
      modifies this`freeMemory, bitmap.buf
      ensures LockChecked(old(View()), mmap[k].base / 0x1000, BitmapLength(mmap) / 0x1000) == Some(View())
    {
      hide Frames.LockPages, TotalLength, MapOk, Largest, LargestBefore, LockChecked;
      LargestIsUsable(mmap, k);
      LockCheckedIff(View(), mmap[k].base / 0x1000, BitmapLength(mmap) / 0x1000);
      BitmapEnds(mmap, k);
      var _ := LockPages(mmap[k].base, (totalMemory / 0x8000 + 1) / 0x1000);
    }

    // The first pass over the memory map.
    static method Measure(mmap: seq<Region>) returns (total: nat, largest: nat)
      requires MapOk(mmap)
      ensures total == TotalLength(mmap) && Largest(mmap, largest)
    {
      hide TotalLength, RegionOk, BestBefore;
      total, largest := 0, 0;
      var found := false;
      TotalOfNone(mmap);
      for i := 0 to |mmap|
        invariant total == TotalLength(mmap[..i])
        invariant BestBefore(mmap, i, found, largest)
        invariant found ==> largest < |mmap|
      {
        TotalStep(mmap, i);
        BestStep(mmap, i, found, largest);
        total := total + mmap[i].length;
        if mmap[i].usable && (!found || mmap[i].length > mmap[largest].length) {
          largest, found := i, true;
        }
      }
      TotalOfNone(mmap);
      BestOfAll(mmap, found, largest);
    }

    // The second pass: every usable region is unlocked.
    method UnlockUsable(mmap: seq<Region>)
      requires MapOk(mmap) && UnlockRegions(View(), mmap).Some?
      modifies this`freeMemory, bitmap.buf
      ensures UnlockRegions(old(View()), mmap) == Some(View())
    {
      hide UnlockRegions, UnlockRegion, RegionOk;
      assert mmap[0..] == mmap;
      for i := 0 to |mmap|
        invariant UnlockRegions(View(), mmap[i..]) == old(UnlockRegions(View(), mmap))
        invariant totalMemory == old(totalMemory) && lastFree == old(lastFree)
      {
        assert RegionOk(mmap[i]);
        UnfoldRegions(View(), mmap, i);
        if mmap[i].usable {
          UnlockUsableRegion(mmap[i]);
        } else {
          UnusableRegion(View(), mmap[i]);
        }
      }
      NoRegions(View(), mmap);
    }

    method UnlockUsableRegion(r: Region)
      requires r.usable && RegionOk(r) && UnlockRegion(View(), r).Some?
      modifies this`freeMemory, bitmap.buf
      ensures UnlockRegion(old(View()), r) == Some(View())
    {
      hide UnlockChecked, Frames.UnlockPages;
      UnlockCheckedIff(View(), r.base / 0x1000, r.length / 0x1000);
      RegionEnds(r);
      var _ := UnlockPages(r.base, r.length / 0x1000);
    }

    method LockPage(paddr: Word) returns (changed: nat)
      requires paddr / 0x1000 < 8 * bitmap.buf.Length
      modifies this`freeMemory, bitmap.buf
      ensures View() == Frames.LockPage(old(View()), paddr / 0x1000)
      ensures changed == if old(Frames.Free(View(), paddr / 0x1000)) then 1 else 0
    {
      var pi := paddr / 0x1000;
      changed := 0;
      if !bitmap.IsSet(pi) {
        bitmap.Set(pi);
        freeMemory := (freeMemory - 0x1000) % 0x1_0000_0000_0000_0000;
        changed := 1;
      }
    }

    method LockPages(paddr: Word, n: nat) returns (locked: nat)
      requires paddr % 0x1000 == 0 && (n > 0 ==> paddr / 0x1000 + n <= 8 * bitmap.buf.Length)
      requires paddr + 0x1000 * n < WORD_LIMIT
      modifies this`freeMemory, bitmap.buf
      ensures View() == Frames.LockPages(old(View()), paddr / 0x1000, n)
      ensures locked == old(Frames.CountFree(View(), paddr / 0x1000, paddr / 0x1000 + n))
    {
      hide Frames.LockPage, Frames.Free;
      locked := 0;
      var p: nat := paddr;
      ghost var k: nat := 0;
      while p < paddr + 0x1000 * n
        invariant k <= n && p == paddr + 0x1000 * k
        invariant View() == Frames.LockPages(old(View()), paddr / 0x1000, k)
        invariant locked == Frames.CountFree(old(View()), paddr / 0x1000, paddr / 0x1000 + k)
      {
        assert p / 0x1000 == paddr / 0x1000 + k;
        Frames.LockPagesLocal(old(View()), paddr / 0x1000, k, paddr / 0x1000 + k);
        var changed := LockPage(p);
        locked := locked + changed;
        p := p + 0x1000;
        k := k + 1;
      }
    }

    method UnlockPage(paddr: Word) returns (changed: nat)
      requires paddr / 0x1000 < 8 * bitmap.buf.Length
      modifies this`freeMemory, bitmap.buf
      ensures View() == Frames.UnlockPage(old(View()), paddr / 0x1000)
      ensures changed == if old(Frames.Free(View(), paddr / 0x1000)) then 0 else 1
    {
      var pi := paddr / 0x1000;
      changed := 0;
      if bitmap.IsSet(pi) {
        bitmap.Unset(pi);
        freeMemory := (freeMemory + 0x1000) % 0x1_0000_0000_0000_0000;
        changed := 1;
      }
    }

    method UnlockPages(paddr: Word, n: nat) returns (unlocked: nat)
      requires paddr % 0x1000 == 0 && (n > 0 ==> paddr / 0x1000 + n <= 8 * bitmap.buf.Length)
      requires paddr + 0x1000 * n < WORD_LIMIT
      modifies this`freeMemory, bitmap.buf
      ensures View() == Frames.UnlockPages(old(View()), paddr / 0x1000, n)
      ensures unlocked == n - old(Frames.CountFree(View(), paddr / 0x1000, paddr / 0x1000 + n))
    {
      hide Frames.UnlockPage, Frames.Free;
      unlocked := 0;
      var p: nat := paddr;
      ghost var k: nat := 0;
      while p < paddr + 0x1000 * n
        invariant k <= n && p == paddr + 0x1000 * k
        invariant View() == Frames.UnlockPages(old(View()), paddr / 0x1000, k)
        invariant unlocked == k - Frames.CountFree(old(View()), paddr / 0x1000, paddr / 0x1000 + k)
      {
        assert p / 0x1000 == paddr / 0x1000 + k;
        Frames.UnlockPagesLocal(old(View()), paddr / 0x1000, k, paddr / 0x1000 + k);
        var changed := UnlockPage(p);
        unlocked := unlocked + changed;
        p := p + 0x1000;
        k := k + 1;
      }
    }

    // pmm_request_pages.  The inner loop has no bound of its own; that it never reads past the
    // bitmap rests on the locked bit that `Valid` keeps at the frame count.
    method RequestPages(count: nat) returns (addr: Word)
      requires Frames.Valid(View())
      modifies this`freeMemory, this`lastFree, bitmap.buf
      ensures match Frames.Request(old(View()), count)
        case None => addr == 0 && View() == old(View())
        case Some((n, st)) => addr == 0x1000 * n && View() == st
    {
      hide Frames.LockPages, Frames.CountFree, Frames.RunFree;
      ghost var st := View();
      var pi: nat := lastFree;
      while pi < totalMemory / 0x1000
        invariant lastFree <= pi
        invariant View() == st
        invariant Frames.Scan(st, pi, count) == Frames.Scan(st, st.lastFree, count)
      {
        var isFree := RunIsFree(pi, count);
        if isFree {
          addr := Grant(pi, count);
          return;
        }
        pi := pi + 1;
      }
      addr := 0;
    }

    method Grant(pi: nat, count: nat) returns (addr: Word)
      requires Frames.Valid(View()) && pi + count <= Frames.Total(View())
      modifies this`freeMemory, this`lastFree, bitmap.buf
      ensures addr == 0x1000 * pi
      ensures View() == Frames.LockPages(old(View()), pi, count).(lastFree := pi + count)
    {
      hide Frames.LockPages, Frames.CountFree;
      lastFree := pi + count;
      addr := pi * 0x1000;
      LockIgnoresHint(old(View()), pi + count, pi, count);
      var _ := LockPages(addr, count);
    }

    method RunIsFree(pi: nat, count: nat) returns (isFree: bool)
      requires Frames.Valid(View()) && pi < totalMemory / 0x1000
      ensures isFree <==> Frames.RunFree(View(), pi, count)
      ensures isFree ==> pi + count <= totalMemory / 0x1000
    {
      isFree := true;
      var i := 0;
      while i < count
        invariant i <= count && pi + i <= totalMemory / 0x1000
        invariant forall k :: pi <= k < pi + i ==> Frames.Free(View(), k)
      {
        assert View().bits[pi + i] == bitmap.IsSet(pi + i);
        if bitmap.IsSet(pi + i) {
          assert !Frames.Free(View(), pi + i);
          return false;
        }
        i := i + 1;
      }
    }

    // pmm_release_pages
    method ReleasePages(page: Word, count: nat)
      requires Frames.Valid(View()) && page % 0x1000 == 0 && page / 0x1000 + count <= Frames.Total(View())
      modifies this`freeMemory, this`lastFree, bitmap.buf
      ensures View() == Frames.Release(old(View()), page / 0x1000, count)
    {
      var _ := UnlockPages(page, count);
      assert lastFree == old(lastFree) by {
        Frames.UnlockPagesEffect(old(View()), page / 0x1000, count);
      }
      if page < lastFree {
        lastFree := page;
      }
    }
  }

  // The hint plays no part in locking.
  lemma {:induction false} LockIgnoresHint(st: Frames.State, hint: nat, n: nat, count: nat)
    ensures Frames.LockPages(st.(lastFree := hint), n, count) == Frames.LockPages(st, n, count).(lastFree := hint)
  {
    if count > 0 {
      LockIgnoresHint(st, hint, n, count - 1);
    }
  }
}
