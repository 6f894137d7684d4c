/** The code of `kernel/src/memory/paging.c`, `vmm.c` and `cow.c` on a memory of 64-bit words,
    proved against the functions of `PageTables.dfy`, `PageTableCopy.dfy`,
    `PageTableProtect.dfy` and `CopyOnWrite.dfy`.  Tables are reached by pointers into the
    kernel's direct map of physical memory. */
module PagingCode {
  import opened Bits
  import opened Options
  import opened Addresses
  import opened PageTables
  import opened PageTableCopy
  import opened PageTableProtect
  import opened CopyOnWrite
  import opened Forking
  import opened Systems
  import opened FrameManagement
  import Frames

  // ----- indices

  // vaddr_to_index
  method VaddrToIndex(vaddr: Word) returns (indices: seq<nat>)
    ensures |indices| == 4
    ensures forall k :: 0 <= k < 4 ==> indices[k] == Idx(PageOf(vaddr), k + 1)
    ensures indices[0] == vaddr / 0x1000 % 512 && indices[1] == vaddr / 0x1000 / 512 % 512
    ensures indices[2] == vaddr / 0x1000 / 512 / 512 % 512 && indices[3] == vaddr / 0x1000 / 512 / 512 / 512 % 512
  {
    hide And;
    var v := vaddr / 0x1000;
    IndexMask(v);
    IndexMask(v / 0x200);
    IndexMask(v / 0x200 / 0x200);
    IndexMask(v / 0x200 / 0x200 / 0x200);
    indices := [And(v, 0x1ff), And(v / 0x200, 0x1ff), And(v / 0x200 / 0x200, 0x1ff),
      And(v / 0x200 / 0x200 / 0x200, 0x1ff)];
    IndicesOfPage(v);
  }

  // The indices depend only on the low 36 bits of the page number.
  lemma IndicesOfPage(v: nat)
    ensures var p := v % 0x10_0000_0000;
      && Idx(p, 1) == v % 512 && Idx(p, 2) == v / 512 % 512
      && Idx(p, 3) == v / 512 / 512 % 512 && Idx(p, 4) == v / 512 / 512 / 512 % 512
  {
    hide Shift;
    ThreeShifts(v % 0x10_0000_0000);
    Drop36(v);
    Drop27(v / 512);
    Drop18(v / 512 / 512);
  }

  lemma ThreeShifts(p: nat)
    ensures Shift(p, 0) == p && Shift(p, 1) == p / 512
    ensures Shift(p, 2) == p / 512 / 512 && Shift(p, 3) == p / 512 / 512 / 512
  {
  }

  // Cutting off high bits changes neither the low nine bits nor, up to the cut, those above.
  lemma Drop36(v: nat)
    ensures v % 0x10_0000_0000 % 512 == v % 512 && v % 0x10_0000_0000 / 512 == v / 512 % 0x800_0000
  {
  }

  lemma Drop27(v: nat)
    ensures v % 0x800_0000 % 512 == v % 512 && v % 0x800_0000 / 512 == v / 512 % 0x4_0000
  {
  }

  lemma Drop18(v: nat)
    ensures v % 0x4_0000 % 512 == v % 512 && v % 0x4_0000 / 512 == v / 512 % 512
  {
  }

  /** Physical memory, the frame allocator, the translation cache, and the two table registers:
      the kernel's pointer to its own top-level table, and CR3. */
  class Paging {
    const words: array<Word>
    const frames: FrameManager
    var tlb: map<nat, Word>
    var kernelTable: Word
    var cr3: Word

    ghost function View(): Machine
      reads this, words, frames, frames.bitmap.buf
    {
      Machine(words[..], frames.View(), tlb, FrameOf(kernelTable), cr3 / 0x1000)
    }

    ghost predicate Valid()
      reads this, words, frames, frames.bitmap.buf
    {
      && words.Length <= 0x1000_0000_0000 && words as object != frames.bitmap.buf
      && Frames.Valid(frames.View())
      && IsFramePtr(kernelTable)
    }

    // The state after initialization, with the kernel's own tables active.
    constructor (words: array<Word>, frames: FrameManager, kernelTable: Word)
      requires words.Length <= 0x1000_0000_0000 && words as object != frames.bitmap.buf
      requires Frames.Valid(frames.View()) && IsFramePtr(kernelTable)
      ensures Valid() && this.words == words && this.frames == frames
      ensures View() == Machine(words[..], frames.View(), map[], FrameOf(kernelTable), FrameOf(kernelTable))
    {
      this.words, this.frames, this.kernelTable := words, frames, kernelTable;
      tlb := map[];
      cr3 := OffsetLower(kernelTable);
    }

    // ----- access to words through pointers

    predicate Readable(table: Word) {
      IsFramePtr(table) && 512 * FrameOf(table) + 512 <= words.Length
    }

    function WordAt(table: Word, i: nat): Word
      requires Readable(table) && i < 512
      reads words
    {
      words[512 * FrameOf(table) + i]
    }

    method SetWord(table: Word, i: nat, x: Word)
      requires Readable(table) && i < 512
      modifies words
      ensures words[..] == Put(old(words[..]), FrameOf(table), i, x)
    {
      words[512 * FrameOf(table) + i] := x;
    }

    // memset(table, 0, 0x1000)
    method Clear(table: Word)
      requires Readable(table)
      modifies words
      ensures words[..] == PutFrame(old(words[..]), FrameOf(table), Zeros())
    {
      var base := 512 * FrameOf(table);
      for i := 0 to 512
        invariant forall k :: 0 <= k < words.Length ==>
          words[k] == if base <= k < base + i then 0 else old(words[k])
      {
        words[base + i] := 0;
      }
      assert words[..] == PutFrame(old(words[..]), FrameOf(table), Zeros());
    }

    // memcpy of a whole frame
    method CopyFrame(dst: Word, src: Word)
      requires Readable(dst) && Readable(src)
      modifies words
      ensures words[..] == PutFrame(old(words[..]), FrameOf(dst), Frame(old(words[..]), FrameOf(src)))
    {
      hide Rd, PutFrame, Frame, FrameOf;
      var to, from := 512 * FrameOf(dst), 512 * FrameOf(src);
      for i := 0 to 512
        invariant forall k :: 0 <= k < words.Length ==>
          words[k] == if to <= k < to + i then old(words[from + (k - to)]) else old(words[k])
      {
        words[to + i] := words[from + i];
      }
      FrameCopied(old(words[..]), words[..], FrameOf(dst), FrameOf(src));
    }

    // palloc(1)
    method Palloc() returns (table: Word)
      requires Valid() && Alloc(View()).Some?
      modifies frames`freeMemory, frames`lastFree, frames.bitmap.buf
      ensures Valid() && Readable(table)
      ensures Alloc(old(View())) == Some((FrameOf(table), View()))
    {
      hide Frames.Valid, Frames.Request, Frames.Free, Frames.Available, OffsetHigher;
      ghost var n := Alloc(View()).value.0;
      ghost var s1 := Alloc(View()).value.1;
      Frames.RequestOneEffect(frames.View());
      var addr := frames.RequestPages(1);
      assert addr == 0x1000 * n && frames.View() == s1.pmm;
      OffsetRoundTrip(addr);
      table := OffsetHigher(addr);
      assert View() == s1;
    }

    // invlpg
    method FlushTlb(vaddr: Word)
      modifies this`tlb
      ensures tlb == old(tlb) - {PageOf(vaddr)}
    {
      tlb := tlb - {PageOf(vaddr)};
    }

    // mov to cr3: the active tables change, and every cached translation is dropped.
    method WriteCr3(table: Word)
      requires IsFramePtr(table)
      modifies this`cr3, this`tlb
      ensures cr3 == 0x1000 * FrameOf(table) && tlb == map[]
    {
      cr3 := OffsetLower(table);
      tlb := map[];
    }

    // ----- paging_map

    method Map(table: Word, vaddr: Word, paddr: Word, flags: Word)
      requires Valid() && IsFramePtr(table) && Canonical(vaddr)
      requires paddr % 0x1000 == 0 && flags < 0x100
      requires MapAt(View(), FrameOf(table), 4, PageOf(vaddr), LeafEntry(paddr / 0x1000, flags)).Some?
      modifies this`tlb, words, frames`freeMemory, frames`lastFree, frames.bitmap.buf
      ensures Valid()
      ensures MapAt(old(View()), FrameOf(table), 4, PageOf(vaddr), LeafEntry(paddr / 0x1000, flags)) == Some(View())
    {
      hide Present, Fr, LeafEntry, Canonical, Or, MapAt, FrameOf, PageOf, Idx;
      ghost var v, leaf := PageOf(vaddr), LeafEntry(paddr / 0x1000, flags);
      var indices := VaddrToIndex(vaddr);
      var t: Word := table;
      var level := 3;
      while level > 0
        invariant 0 <= level <= 3 && Valid() && IsFramePtr(t)
        invariant MapAt(View(), FrameOf(t), level + 1, v, leaf)
          == old(MapAt(View(), FrameOf(table), 4, PageOf(vaddr), LeafEntry(paddr / 0x1000, flags)))
      {
        t := MapLevel(t, indices[level], vaddr, level, leaf);
        level := level - 1;
      }
      SetLeaf(t, indices[0], vaddr, paddr, flags);
    }

    // The end of the walk: the leaf entry is stored, and then its translation is flushed.
    method SetLeaf(t: Word, i: nat, vaddr: Word, paddr: Word, flags: Word)
      requires Valid() && IsFramePtr(t) && i == Idx(PageOf(vaddr), 1)
      requires paddr % 0x1000 == 0 && flags < 0x100
      requires MapAt(View(), FrameOf(t), 1, PageOf(vaddr), LeafEntry(paddr / 0x1000, flags)).Some?
      modifies this`tlb, words
      ensures Valid()
      ensures MapAt(old(View()), FrameOf(t), 1, PageOf(vaddr), LeafEntry(paddr / 0x1000, flags)) == Some(View())
    {
      hide Present, Fr, LeafEntry, Canonical, Or, Idx;
      LeafWord(paddr, flags);
      SetWord(t, i, Or(Or(paddr, flags), 1));
      FlushTlb(vaddr);
    }

    // One turn of the walk: the table that slot i of t leads to, created if it is missing.
    method MapLevel(t: Word, i: nat, vaddr: Word, ghost level: nat, ghost leaf: nat) returns (next: Word)
      requires Valid() && IsFramePtr(t) && Canonical(vaddr) && 1 <= level <= 3 && i == Idx(PageOf(vaddr), level + 1)
      requires MapAt(View(), FrameOf(t), level + 1, PageOf(vaddr), leaf).Some?
      modifies words, frames`freeMemory, frames`lastFree, frames.bitmap.buf
      ensures Valid() && IsFramePtr(next)
      ensures MapAt(View(), FrameOf(next), level, PageOf(vaddr), leaf)
        == MapAt(old(View()), FrameOf(t), level + 1, PageOf(vaddr), leaf)
    {
      hide And, Or, Idx, LeafEntry, NewTable, TableEntry, Alloc, Put, MapAt, Present, Fr;
      UnfoldMap(View(), FrameOf(t), level, PageOf(vaddr), leaf);
      var child := WordAt(t, i);
      BitMask(child);
      PresentBit(child);
      if And(child, 1) == 0 {
        child := CreateChild(t, i, vaddr);
        TablePtrOfPtr(FrameOf(child));
      } else {
        TablePtrIs(child);
      }
      next := TablePtr(child);
    }

    // A cleared table, linked at slot i of t; table is the pointer that palloc gave.
    method CreateChild(t: Word, i: nat, vaddr: Word) returns (table: Word)
      requires Valid() && Readable(t) && i < 512 && Canonical(vaddr) && Alloc(View()).Some?
      modifies words, frames`freeMemory, frames`lastFree, frames.bitmap.buf
      ensures Valid() && Readable(table)
      ensures Alloc(old(View())).value.0 == FrameOf(table)
      ensures View() == Alloc(old(View())).value.1.(
        mem := NewTable(Alloc(old(View())).value.1.mem, FrameOf(t), i, FrameOf(table),
          TableEntry(FrameOf(table), PageOf(vaddr))))
    {
      hide Or, TableEntry;
      table := Palloc();
      Clear(table);
      LinkWords(table, vaddr);
      SetWord(t, i, Or(OffsetLower(table), 1));
      if vaddr < 0xffff_8000_0000_0000 {
        SetWord(t, i, Or(WordAt(t, i), Or(2, 4)));
      }
      SetTwice(old(words[..]), FrameOf(t), i, FrameOf(table),
        Or(OffsetLower(table), 1), TableEntry(FrameOf(table), PageOf(vaddr)));
    }

    // ----- paging_unmap

    method Unmap(table: Word, vaddr: Word)
      requires Valid() && IsFramePtr(table)
      requires UnmapAt(View(), FrameOf(table), 4, PageOf(vaddr)).Some?
      modifies this`tlb, words
      ensures Valid() && UnmapAt(old(View()), FrameOf(table), 4, PageOf(vaddr)) == Some(View())
    {
      hide And, Or, Present, Fr, UnmapAt, PageOf;
      ghost var v := PageOf(vaddr);
      var indices := VaddrToIndex(vaddr);
      var t: Word := table;
      var level := 3;
      while level > 0
        invariant 0 <= level <= 3 && IsFramePtr(t) && View() == old(View())
        invariant UnmapAt(View(), FrameOf(t), level + 1, v) == UnmapAt(View(), FrameOf(table), 4, v)
      {
        UnmapEntry(View(), FrameOf(t), level, v);
        var child := WordAt(t, indices[level]);
        BitMask(child);
        PresentBit(child);
        if And(child, 1) == 0 {
          return;
        }
        TablePtrIs(child);
        t := TablePtr(child);
        level := level - 1;
      }
      UnmapLeaf(View(), FrameOf(t), v);
      SetWord(t, indices[0], 0);
      FlushTlb(vaddr);
    }

    // ----- paging_get

    method Lookup(table: Word, vaddr: Word) returns (entry: Word)
      requires Valid() && IsFramePtr(table) && Walkable(words[..], FrameOf(table), 4, PageOf(vaddr))
      ensures entry == Get(words[..], FrameOf(table), 4, PageOf(vaddr))
    {
      hide And, Or, Present, Huge, Fr, Get, Walkable, Idx, PageOf, FrameOf, IsFramePtr, TablePtr, FramePtr,
        Frames.Valid;
      ghost var v := PageOf(vaddr);
      var indices := VaddrToIndex(vaddr);
      var t: Word := table;
      var level := 3;
      while level > 0
        invariant 0 <= level <= 3 && IsFramePtr(t)
        invariant Walkable(words[..], FrameOf(t), level + 1, v)
        invariant Get(words[..], FrameOf(t), level + 1, v) == Get(words[..], FrameOf(table), 4, v)
      {
        WalkEntry(words[..], FrameOf(t), level, v);
        var child := WordAt(t, indices[level]);
        BitMask(child);
        HugeMask(child);
        PresentBit(child);
        if And(child, 1) == 0 {
          return 0;
        }
        if And(child, 0x80) != 0 {
          return child;
        }
        TablePtrIs(child);
        t := TablePtr(child);
        level := level - 1;
      }
      WalkLeaf(words[..], FrameOf(t), v);
      entry := WordAt(t, indices[0]);
    }

    // ----- paging_create_empty and paging_copy

    method CreateEmptyTable() returns (table: Word)
      requires Valid() && CreateEmpty(View()).Some?
      modifies words, frames`freeMemory, frames`lastFree, frames.bitmap.buf
      ensures Valid() && Readable(table)
      ensures CreateEmpty(old(View())) == Some((FrameOf(table), View()))
    {
      hide Alloc;
      table := Palloc();
      Clear(table);
      CopyUpperHalf(table, kernelTable);
    }

    // memcpy of the second half of a top-level table
    method CopyUpperHalf(dst: Word, src: Word)
      requires Readable(dst) && Readable(src)
      requires forall i: nat :: i < 256 ==> Rd(words[..], FrameOf(dst), i) == 0
      modifies words
      ensures words[..] == PutFrame(old(words[..]), FrameOf(dst), TopWords(old(words[..]), FrameOf(src)))
    {
      hide Rd;
      var to, from := 512 * FrameOf(dst), 512 * FrameOf(src);
      for i := 256 to 512
        invariant forall k :: 0 <= k < words.Length ==>
          words[k] == if to + 256 <= k < to + i then old(words[from + (k - to)]) else old(words[k])
      {
        words[to + i] := words[from + i];
      }
      UpperHalfCopied(old(words[..]), words[..], FrameOf(dst), FrameOf(src));
    }

    method CopyTableSpace(parent: Word) returns (table: Word)
      requires Valid() && IsFramePtr(parent) && CopySpace(View(), FrameOf(parent)).Some?
      modifies words, frames`freeMemory, frames`lastFree, frames.bitmap.buf
      ensures Valid() && Readable(table)
      ensures CopySpace(old(View()), FrameOf(parent)) == Some((FrameOf(table), View()))
    {
      hide CreateEmpty, CopyTable;
      table := CreateEmptyTable();
      CopyRecursive(table, parent, 4);
    }

    // paging_copy_recursive
    method CopyRecursive(dst: Word, src: Word, level: nat)
      requires Valid() && IsFramePtr(dst) && IsFramePtr(src) && 1 <= level <= 4
      requires CopyTable(View(), FrameOf(dst), FrameOf(src), level).Some?
      modifies words, frames`freeMemory, frames`lastFree, frames.bitmap.buf
      ensures Valid()
      ensures CopyTable(old(View()), FrameOf(dst), FrameOf(src), level) == Some(View())
      decreases level, 1
    {
      hide CopySlots, Alloc;
      if level == 1 {
        CopyFrame(dst, src);
        return;
      }
      for i := 0 to Slots(level)
        invariant Valid()
        invariant CopySlots(View(), FrameOf(dst), FrameOf(src), level, i)
          == old(CopyTable(View(), FrameOf(dst), FrameOf(src), level))
      {
        CopySlot(dst, src, level, i);
      }
      CopySlotsEnd(View(), FrameOf(dst), FrameOf(src), level);
    }

    // One turn of the loop of paging_copy_recursive.
    method CopySlot(dst: Word, src: Word, level: nat, i: nat)
      requires Valid() && IsFramePtr(dst) && IsFramePtr(src) && 1 < level <= 4 && i < Slots(level)
      requires CopySlots(View(), FrameOf(dst), FrameOf(src), level, i).Some?
      modifies words, frames`freeMemory, frames`lastFree, frames.bitmap.buf
      ensures Valid()
      ensures CopySlots(View(), FrameOf(dst), FrameOf(src), level, i + 1)
        == CopySlots(old(View()), FrameOf(dst), FrameOf(src), level, i)
      decreases level, 0
    {
      hide And, Or, CopySlots, Alloc, CopyTable, Present, Fr, FrameOf, IsFramePtr, TablePtr, FramePtr, Frames.Valid;
      UnfoldCopy(View(), FrameOf(dst), FrameOf(src), level, i);
      var e := WordAt(src, i);
      BitMask(e);
      PresentBit(e);
      if And(e, 1) == 0 {
        return;
      }
      TablePtrIs(e);
      var newDst := Palloc();
      CopyRecursive(newDst, TablePtr(e), level - 1);
      CopiedLink(newDst, WordAt(src, i));
      SetWord(dst, i, Or(OffsetLower(newDst), And(WordAt(src, i), 0xfff)));
    }

    // ----- paging_make_readonly

    method MakeReadonly(table: Word)
      requires Valid() && IsFramePtr(table) && ReadonlyTable(View(), FrameOf(table), 4, 0).Some?
      modifies this`tlb, words
      ensures Valid() && ReadonlyTable(old(View()), FrameOf(table), 4, 0) == Some(View())
    {
      ReadonlyRecursive(table, 4, 0);
    }

    // paging_make_readonly_recursive; vaddr holds the indices chosen so far.
    method ReadonlyRecursive(table: Word, level: nat, vaddr: Word)
      requires Valid() && IsFramePtr(table) && 1 <= level <= 4 && vaddr < PrefixLimit(level)
      requires ReadonlyTable(View(), FrameOf(table), level, vaddr).Some?
      modifies this`tlb, words
      ensures Valid() && ReadonlyTable(old(View()), FrameOf(table), level, vaddr) == Some(View())
      decreases level, 1
    {
      hide ReadonlySlots, ReadonlyLeaves;
      if level == 1 {
        for i := 0 to 512
          invariant Valid()
          invariant ReadonlyLeaves(View(), FrameOf(table), vaddr, i)
            == old(ReadonlyTable(View(), FrameOf(table), level, vaddr))
        {
          ReadonlyLeaf(table, vaddr, i);
        }
        ReadonlyLeavesEnd(View(), FrameOf(table), vaddr);
        return;
      }
      for i := 0 to Slots(level)
        invariant Valid()
        invariant ReadonlySlots(View(), FrameOf(table), level, vaddr, i)
          == old(ReadonlyTable(View(), FrameOf(table), level, vaddr))
      {
        ReadonlySlot(table, level, vaddr, i);
      }
      ReadonlySlotsEnd(View(), FrameOf(table), level, vaddr);
    }

    // One turn of the innermost loop: invlpg of the page, then its entry without write access.
    method ReadonlyLeaf(table: Word, vaddr: Word, i: nat)
      requires Valid() && IsFramePtr(table) && vaddr < PrefixLimit(1) && i < 512
      requires ReadonlyLeaves(View(), FrameOf(table), vaddr, i).Some?
      modifies this`tlb, words
      ensures Valid()
      ensures ReadonlyLeaves(View(), FrameOf(table), vaddr, i + 1)
        == ReadonlyLeaves(old(View()), FrameOf(table), vaddr, i)
    {
      hide And, Or, ClearWritable, ReadonlyLeaves, PageOf, Put, Idx;
      UnfoldLeaves(View(), FrameOf(table), vaddr, i);
      FinalVaddr(vaddr, i);
      var finalVaddr := Or(vaddr * 0x200 % 0x1_0000_0000_0000_0000, i) * 0x1000 % 0x1_0000_0000_0000_0000;
      FlushTlb(finalVaddr);
      ClearBitIs(WordAt(table, i));
      SetWord(table, i, And(WordAt(table, i), Not(2)));
    }

    method ReadonlySlot(table: Word, level: nat, vaddr: Word, i: nat)
      requires Valid() && IsFramePtr(table) && 1 < level <= 4 && vaddr < PrefixLimit(level) && i < Slots(level)
      requires ReadonlySlots(View(), FrameOf(table), level, vaddr, i).Some?
      modifies this`tlb, words
      ensures Valid()
      ensures ReadonlySlots(View(), FrameOf(table), level, vaddr, i + 1)
        == ReadonlySlots(old(View()), FrameOf(table), level, vaddr, i)
      decreases level, 0
    {
      hide And, Or, ReadonlySlots, ReadonlyTable, Present, Fr, FrameOf, IsFramePtr, TablePtr, FramePtr, Frames.Valid;
      UnfoldReadonly(View(), FrameOf(table), level, vaddr, i);
      var e := WordAt(table, i);
      BitMask(e);
      PresentBit(e);
      if And(e, 1) == 0 {
        return;
      }
      OrIndex(vaddr, i);
      TablePtrIs(e);
      ReadonlyRecursive(TablePtr(e), level - 1, Or(vaddr * 0x200 % 0x1_0000_0000_0000_0000, i));
    }

    // ----- vmm_request_at

    method RequestAt(table: Word, vaddr: Word, n: nat, flags: Word)
      requires Valid() && IsFramePtr(table) && flags < 0x100 && vaddr + 0x1000 * n < WORD_LIMIT
      requires forall k: nat :: k < n ==> Canonical(vaddr + 0x1000 * k)
      requires RequestRange(View(), FrameOf(table), PageOf(vaddr), n, flags).Some?
      requires PageOf(vaddr) + n <= PAGES
      modifies this`tlb, words, frames`freeMemory, frames`lastFree, frames.bitmap.buf
      ensures Valid()
      ensures RequestRange(old(View()), FrameOf(table), PageOf(vaddr), n, flags) == Some(View())
    {
      hide RequestPage, RequestRange, Canonical;
      for i := 0 to n
        invariant Valid()
        invariant RequestRange(View(), FrameOf(table), PageOf(vaddr) + i, n - i, flags)
          == old(RequestRange(View(), FrameOf(table), PageOf(vaddr), n, flags))
      {
        UnfoldRange(View(), FrameOf(table), PageOf(vaddr) + i, n - i, flags);
        NextPage(vaddr, i);
        RequestOne(table, vaddr + 0x1000 * i, flags);
      }
      RangeEnd(View(), FrameOf(table), PageOf(vaddr) + n, flags);
    }

    method RequestOne(table: Word, vaddr: Word, flags: Word)
      requires Valid() && IsFramePtr(table) && flags < 0x100 && Canonical(vaddr)
      requires RequestPage(View(), FrameOf(table), PageOf(vaddr), flags).Some?
      modifies this`tlb, words, frames`freeMemory, frames`lastFree, frames.bitmap.buf
      ensures Valid()
      ensures RequestPage(old(View()), FrameOf(table), PageOf(vaddr), flags) == Some(View())
    {
      hide And, Get, MapAt, Walkable, Canonical;
      var entry := Lookup(table, vaddr);
      BitMask(entry);
      PresentBit(entry);
      if And(entry, 1) != 0 {
        return;
      }
      var memory := RequestFrame();
      Map(table, vaddr, memory, flags);
    }

    // pmm_request_pages(1)
    method RequestFrame() returns (paddr: Word)
      requires Valid() && Alloc(View()).Some?
      modifies frames`freeMemory, frames`lastFree, frames.bitmap.buf
      ensures Valid() && paddr % 0x1000 == 0 && paddr < 0x8000_0000_0000
      ensures Alloc(old(View())) == Some((paddr / 0x1000, View()))
    {
      hide Frames.Valid, Frames.Request, Frames.Free, Frames.Available, FrameOf, IsFramePtr;
      ghost var s1 := Alloc(View()).value.1;
      Frames.RequestOneEffect(frames.View());
      FrameAddress(Alloc(View()).value.0);
      paddr := frames.RequestPages(1);
      assert frames.View() == s1.pmm;
      assert View() == s1;
    }

    // ----- accesses by virtual address, as the processor makes them

    // A word of physical memory; what lies beyond reads as zero.
    function Physical(f: nat, i: nat): Word
      reads words
    {
      if 512 * f + i < words.Length then words[512 * f + i] else 0
    }

    // The walk that the processor makes from CR3.
    method Walk(page: nat) returns (entry: Word)
      ensures entry == Get(words[..], cr3 / 0x1000, 4, page)
    {
      hide Present, Huge, Fr, Idx;
      var t: nat := cr3 / 0x1000;
      var level := 4;
      while level > 1
        invariant 1 <= level <= 4
        invariant Get(words[..], t, level, page) == Get(words[..], cr3 / 0x1000, 4, page)
      {
        var e := Physical(t, Idx(page, level));
        if !Present(e) {
          return 0;
        }
        if Huge(e) {
          return e;
        }
        t := Fr(e);
        level := level - 1;
      }
      entry := Physical(t, Idx(page, 1));
    }

    method TranslatePage(page: nat) returns (entry: Word)
      ensures entry == Translate(View(), page)
    {
      if page in tlb {
        entry := tlb[page];
      } else {
        entry := Walk(page);
      }
    }

    // memcpy((void*)dst, (void*)src, 0x1000) on two virtual pages
    method CopyPage(dst: nat, src: nat)
      requires Valid() && CopyWords(View(), dst, src, 0).Some?
      modifies words
      ensures Valid() && CopyWords(old(View()), dst, src, 0) == Some(View())
    {
      hide CopyWords, Translate, Put, Present, Fr, Frames.Valid, IsFramePtr, FrameOf;
      for i := 0 to 512
        invariant Valid()
        invariant CopyWords(View(), dst, src, i) == old(CopyWords(View(), dst, src, 0))
      {
        UnfoldWords(View(), dst, src, i);
        var from := TranslatePage(src);
        var to := TranslatePage(dst);
        StoreWord(Fr(to), i, Physical(Fr(from), i));
      }
      WordsEnd(View(), dst, src);
    }

    method StoreWord(f: nat, i: nat, x: Word)
      requires InMemory(words[..], f) && i < 512
      modifies words
      ensures words[..] == Put(old(words[..]), f, i, x)
    {
      words[512 * f + i] := x;
    }

    // ----- cow_copy_on_write

    method HandleCow(vmap: Word, vaddr: Word) returns (ok: bool)
      requires Valid() && IsFramePtr(vmap) && vaddr < 0x8000_0000_0000
      requires Cow(View(), FrameOf(vmap), PageOf(vaddr)).Some?
      modifies this`tlb, words, frames`freeMemory, frames`lastFree, frames.bitmap.buf
      ensures Valid()
      ensures Cow(old(View()), FrameOf(vmap), PageOf(vaddr)) == Some((ok, View()))
    {
      hide And, Or, Get, MapAt, UnmapAt, RequestPage, CopyWords, Walkable, Cow, PageOf, Present, Fr, LeafEntry,
        CowFlags, Frames.Valid, IsFramePtr, FrameOf;
      UnfoldCow(View(), FrameOf(vmap), PageOf(vaddr));
      PageStart(vaddr);
      var offending := And(vaddr, Not(0xfff));
      var entry := Lookup(vmap, offending);
      BitMask(entry);
      PresentBit(entry);
      if And(entry, 1) == 0 {
        return false;
      }
      PageMask(entry);
      CowFlagsAre(entry);
      Map(kernelTable, 0xffff_8102_0000_0000, And(entry, Not(0xfff)), 0);
      Unmap(vmap, offending);
      RequestOne(vmap, offending, Or(And(entry, 0xfff), 2) % 0x100);
      CopyPage(PageOf(offending), PageOf(0xffff_8102_0000_0000));
      Unmap(kernelTable, 0xffff_8102_0000_0000);
      ok := true;
    }

    // ----- user accesses, as the processor checks them

    // Rights are checked on every level of a walk.
    method WalkAllows(page: nat, write: bool) returns (ok: bool)
      ensures ok == UserMay(words[..], cr3 / 0x1000, 4, page, write)
    {
      hide Present, UserBit, Writable, Huge, Fr, Idx;
      var t: nat := cr3 / 0x1000;
      var level := 4;
      while level > 0
        invariant 0 <= level <= 4
        invariant level > 0 ==>
          UserMay(words[..], t, level, page, write) == UserMay(words[..], cr3 / 0x1000, 4, page, write)
        invariant level == 0 ==> UserMay(words[..], cr3 / 0x1000, 4, page, write)
      {
        var e := Physical(t, Idx(page, level));
        if !Present(e) || !UserBit(e) || (write && !Writable(e)) {
          return false;
        }
        if level > 1 && Huge(e) {
          return true;
        }
        t := Fr(e);
        level := level - 1;
      }
      ok := true;
    }

    method UserAllowed(page: nat, write: bool) returns (ok: bool)
      ensures ok == Allowed(View(), page, write)
    {
      if page in tlb {
        ok := page < LOWER && UserBit(tlb[page]) && (write ==> Writable(tlb[page]));
      } else {
        ok := WalkAllows(page, write);
      }
    }

    // The processor caches the translation of a present page, or drops a cached one.
    method Fill(page: nat)
      modifies this`tlb
      ensures View() == (if Present(Get(old(words[..]), old(cr3) / 0x1000, 4, page))
        then old(View()).(tlb := old(View()).tlb[page := Get(old(words[..]), old(cr3) / 0x1000, 4, page)])
        else old(View()))
    {
      var entry := Walk(page);
      if Present(entry) {
        tlb := tlb[page := entry];
      }
    }

    method Evict(page: nat)
      modifies this`tlb
      ensures View() == old(View()).(tlb := old(View()).tlb - {page})
    {
      tlb := tlb - {page};
    }

    // ----- the address spaces of a fork

    // paging_copy of the parent, then paging_make_readonly of both.
    method ForkTables(parent: Word) returns (table: Word)
      requires Valid() && IsFramePtr(parent) && ForkSpace(View(), FrameOf(parent)).Some?
      modifies this`tlb, words, frames`freeMemory, frames`lastFree, frames.bitmap.buf
      ensures Valid() && Readable(table)
      ensures ForkSpace(old(View()), FrameOf(parent)) == Some((FrameOf(table), View()))
    {
      hide CopySpace, ReadonlyTable;
      table := CopyTableSpace(parent);
      MakeReadonly(parent);
      MakeReadonly(table);
    }
  }

  lemma FrameCopied(m: seq<nat>, m': seq<nat>, dst: nat, src: nat)
    requires InMemory(m, dst) && InMemory(m, src) && |m'| == |m|
    requires forall k {:trigger m'[k]} :: 0 <= k < |m| ==>
      m'[k] == if 512 * dst <= k < 512 * dst + 512 then m[512 * src + (k - 512 * dst)] else m[k]
    ensures m' == PutFrame(m, dst, Frame(m, src))
  {
    var words := Frame(m, src);
    var r := PutFrame(m, dst, words);
    forall k | 0 <= k < |m|
      ensures m'[k] == r[k]
    {
      var j := k - 512 * dst;
      if 0 <= j < 512 {
        assert r[k] == words[j];
      }
    }
  }

  lemma UpperHalfCopied(m: seq<nat>, m': seq<nat>, dst: nat, src: nat)
    requires InMemory(m, dst) && InMemory(m, src) && |m'| == |m|
    requires forall i: nat :: i < 256 ==> Rd(m, dst, i) == 0
    requires forall k {:trigger m'[k]} :: 0 <= k < |m| ==>
      m'[k] == if 512 * dst + 256 <= k < 512 * dst + 512 then m[512 * src + (k - 512 * dst)] else m[k]
    ensures m' == PutFrame(m, dst, TopWords(m, src))
  {
    var words := TopWords(m, src);
    var r := PutFrame(m, dst, words);
    forall k | 0 <= k < |m|
      ensures m'[k] == r[k]
    {
      var j := k - 512 * dst;
      if 0 <= j < 512 {
        assert r[k] == words[j];
        assert j < 256 ==> Rd(m, dst, j) == 0;
      }
    }
  }

  lemma CopySlotsEnd(s: Machine, dst: nat, src: nat, level: nat)
    requires level > 1
    ensures CopySlots(s, dst, src, level, Slots(level)) == Some(s)
  {
  }

  // lower(new_dst) | (src[i] & 0xfff)
  lemma CopiedLink(table: Word, e: Word)
    requires IsFramePtr(table) && FrameOf(table) < 0x8_0000_0000
    ensures Or(OffsetLower(table), And(e, 0xfff)) == 0x1000 * FrameOf(table) + e % 0x1000 < WORD_LIMIT
  {
    hide And, Or;
    PageOffsetMask(e);
    OrBelowPage(OffsetLower(table), e % 0x1000);
  }

  lemma UnfoldCopy(s: Machine, dst: nat, src: nat, level: nat, i: nat)
    requires level > 1 && i < Slots(level) && |s.mem| <= 0x1000_0000_0000
    requires CopySlots(s, dst, src, level, i).Some?
    ensures InMemory(s.mem, dst) && InMemory(s.mem, src)
    ensures var e := Rd(s.mem, src, i);
      if !Present(e) then CopySlots(s, dst, src, level, i) == CopySlots(s, dst, src, level, i + 1)
      else
        && e < 0x8000_0000_0000 && Alloc(s).Some?
        && (var (f, s1) := Alloc(s).value;
            && Rd(s1.mem, src, i) == e
            && CopyTable(s1, f, Fr(e), level - 1).Some?
            && (var s2 := CopyTable(s1, f, Fr(e), level - 1).value;
                && InMemory(s2.mem, dst)
                && CopySlots(s, dst, src, level, i) ==
                    CopySlots(s2.(mem := Put(s2.mem, dst, i, 0x1000 * f + Rd(s2.mem, src, i) % 0x1000)),
                              dst, src, level, i + 1)))
  {
  }

  // The indices that lead to a table of the given level make up a number below this.
  function PrefixLimit(level: nat): nat {
    if level == 4 then 1 else if level == 3 then 0x200 else if level == 2 then 0x4_0000 else 0x800_0000
  }

  // The address ((vaddr << 9) | i) << 12 built down the recursion has the indices of the walk.
  lemma FinalVaddr(vaddr: Word, i: nat)
    requires vaddr < PrefixLimit(1) && i < 512
    ensures Or(vaddr * 0x200 % 0x1_0000_0000_0000_0000, i) * 0x1000 < WORD_LIMIT
    ensures PageOf(Or(vaddr * 0x200 % 0x1_0000_0000_0000_0000, i) * 0x1000) == 512 * vaddr + i
    ensures Idx(512 * vaddr + i, 1) == i && Shift(512 * vaddr + i, 1) == vaddr
  {
    hide Or;
    OrIndex(vaddr, i);
  }

  lemma ClearBitIs(e: Word)
    ensures And(e, Not(2)) == ClearWritable(e) <= e
  {
    hide And;
    ClearBit1(e);
  }

  lemma UnfoldLeaves(s: Machine, t: nat, prefix: nat, i: nat)
    requires i < 512 && ReadonlyLeaves(s, t, prefix, i).Some?
    ensures InMemory(s.mem, t)
    ensures ReadonlyLeaves(s, t, prefix, i) == ReadonlyLeaves(
      s.(mem := Put(s.mem, t, i, ClearWritable(Rd(s.mem, t, i))), tlb := s.tlb - {512 * prefix + i}), t, prefix, i + 1)
  {
  }

  lemma ReadonlyLeavesEnd(s: Machine, t: nat, prefix: nat)
    ensures ReadonlyLeaves(s, t, prefix, 512) == Some(s)
  {
  }

  lemma ReadonlySlotsEnd(s: Machine, t: nat, level: nat, prefix: nat)
    requires level > 1
    ensures ReadonlySlots(s, t, level, prefix, Slots(level)) == Some(s)
  {
  }

  lemma UnfoldReadonly(s: Machine, t: nat, level: nat, prefix: nat, i: nat)
    requires 1 < level <= 4 && i < Slots(level) && |s.mem| <= 0x1000_0000_0000 && prefix < PrefixLimit(level)
    requires ReadonlySlots(s, t, level, prefix, i).Some?
    ensures InMemory(s.mem, t) && 512 * prefix + i < PrefixLimit(level - 1)
    ensures var e := Rd(s.mem, t, i);
      if !Present(e) then ReadonlySlots(s, t, level, prefix, i) == ReadonlySlots(s, t, level, prefix, i + 1)
      else
        && e < 0x8000_0000_0000
        && ReadonlyTable(s, Fr(e), level - 1, 512 * prefix + i).Some?
        && ReadonlySlots(s, t, level, prefix, i) ==
            ReadonlySlots(ReadonlyTable(s, Fr(e), level - 1, 512 * prefix + i).value, t, level, prefix, i + 1)
  {
  }

  lemma PageStart(vaddr: Word)
    requires vaddr < 0x8000_0000_0000
    ensures var p := And(vaddr, Not(0xfff)); p < 0x8000_0000_0000 && PageOf(p) == PageOf(vaddr)
    ensures PageOf(0xffff_8102_0000_0000) == SCRATCH
  {
    hide And;
    PageMask(vaddr);
  }

  lemma UnfoldCow(s: Machine, r: nat, v: nat)
    requires Cow(s, r, v).Some?
    ensures Walkable(s.mem, r, 4, v)
    ensures var e := Get(s.mem, r, 4, v);
      if !Present(e) then Cow(s, r, v) == Some((false, s))
      else
        var a := MapAt(s, s.kernel, 4, SCRATCH, LeafEntry(Fr(e), 0));
        a.Some? &&
        var b := UnmapAt(a.value, r, 4, v);
        b.Some? &&
        var c := RequestPage(b.value, r, v, CowFlags(e));
        c.Some? &&
        var d := CopyWords(c.value, v, SCRATCH, 0);
        d.Some? &&
        var u := UnmapAt(d.value, d.value.kernel, 4, SCRATCH);
        u.Some? && Cow(s, r, v) == Some((true, u.value))
  {
    hide MapAt, UnmapAt, RequestPage, CopyWords, LeafEntry, CowFlags, Get, Walkable;
  }

  // (entry & 0xfff) | PAGING_WRITABLE, cut to eight bits
  lemma CowFlagsAre(e: Word)
    ensures Or(And(e, 0xfff), 2) % 0x100 == CowFlags(e)
  {
    hide And, Or, Writable, UserBit, Present;
    PageOffsetMask(e);
    SetWritable(e % 0x1000);
    CutToByte(e % 0x1000);
    LowByteOfLow(e);
  }

  lemma LowByteOfLow(e: nat)
    ensures e % 0x1000 % 0x100 == e % 0x100
  {
  }

  lemma CutToByte(x: nat)
    ensures (x + 2 * (1 - x / 2 % 2)) % 0x100 == (var low := x % 0x100; if low / 2 % 2 == 1 then low else low + 2)
  {
    var a, low := x / 0x100, x % 0x100;
    assert x / 2 == 0x80 * a + low / 2;
    assert x / 2 % 2 == low / 2 % 2;
    assert low / 2 % 2 == 0 ==> low + 2 < 0x100;
  }

  lemma UnfoldRange(s: Machine, table: nat, v: nat, n: nat, flags: nat)
    requires flags < 0x100 && n > 0 && RequestRange(s, table, v, n, flags).Some?
    ensures RequestPage(s, table, v, flags).Some?
    ensures RequestRange(s, table, v, n, flags) ==
      RequestRange(RequestPage(s, table, v, flags).value, table, v + 1, n - 1, flags)
  {
  }

  lemma UnfoldWords(s: Machine, dst: nat, src: nat, i: nat)
    requires i < 512 && CopyWords(s, dst, src, i).Some?
    ensures var from, to := Translate(s, src), Translate(s, dst);
      && InMemory(s.mem, Fr(to))
      && CopyWords(s, dst, src, i) ==
          CopyWords(s.(mem := Put(s.mem, Fr(to), i, Rd(s.mem, Fr(from), i))), dst, src, i + 1)
  {
  }

  lemma WordsEnd(s: Machine, dst: nat, src: nat)
    ensures CopyWords(s, dst, src, 512) == Some(s)
  {
  }

  lemma RangeEnd(s: Machine, table: nat, v: nat, flags: nat)
    requires flags < 0x100
    ensures RequestRange(s, table, v, 0, flags) == Some(s)
  {
  }

  lemma NextPage(vaddr: Word, i: nat)
    requires vaddr + 0x1000 * i < WORD_LIMIT && PageOf(vaddr) + i < PAGES
    ensures PageOf(vaddr + 0x1000 * i) == PageOf(vaddr) + i
  {
  }

  lemma PresentBit(e: nat)
    ensures Present(e) <==> e % 2 == 1
    ensures Huge(e) <==> e / 0x80 % 2 == 1
    ensures Fr(e) == e / 0x1000
  {
  }

  lemma UnmapEntry(s: Machine, t: nat, level: nat, v: nat)
    requires level > 0 && |s.mem| <= 0x1000_0000_0000
    requires UnmapAt(s, t, level + 1, v).Some?
    ensures InMemory(s.mem, t)
    ensures var e := Rd(s.mem, t, Idx(v, level + 1));
      if Present(e) then e < 0x8000_0000_0000 && UnmapAt(s, t, level + 1, v) == UnmapAt(s, Fr(e), level, v)
      else UnmapAt(s, t, level + 1, v) == Some(s)
  {
    hide Idx;
  }

  lemma UnmapLeaf(s: Machine, t: nat, v: nat)
    requires UnmapAt(s, t, 1, v).Some?
    ensures InMemory(s.mem, t)
    ensures UnmapAt(s, t, 1, v) == Some(s.(mem := Put(s.mem, t, Idx(v, 1), 0), tlb := s.tlb - {v}))
  {
  }

  lemma FrameAddress(f: nat)
    ensures 0x1000 * f % 0x1000 == 0 && 0x1000 * f / 0x1000 == f
  {
  }

  // One step of a walk.
  lemma WalkEntry(m: seq<nat>, t: nat, level: nat, v: nat)
    requires level > 0 && |m| <= 0x1000_0000_0000 && Walkable(m, t, level + 1, v)
    ensures InMemory(m, t)
    ensures var e := Rd(m, t, Idx(v, level + 1));
      && (!Present(e) ==> Get(m, t, level + 1, v) == 0)
      && (Present(e) && Huge(e) ==> Get(m, t, level + 1, v) == e)
      && (Present(e) && !Huge(e) ==>
            && e < 0x8000_0000_0000 && Walkable(m, Fr(e), level, v)
            && Get(m, t, level + 1, v) == Get(m, Fr(e), level, v))
  {
    hide Idx;
  }

  lemma WalkLeaf(m: seq<nat>, t: nat, v: nat)
    requires Walkable(m, t, 1, v)
    ensures InMemory(m, t) && Get(m, t, 1, v) == Rd(m, t, Idx(v, 1))
  {
    hide Idx;
  }

  // Storing a link and then storing it again with more bits is storing it once.
  lemma SetTwice(m: seq<nat>, t: nat, i: nat, f: nat, x: nat, y: nat)
    requires InMemory(m, t) && InMemory(m, f) && i < 512
    ensures Put(Put(PutFrame(m, f, Zeros()), t, i, x), t, i, y) == NewTable(m, t, i, f, y)
  {
  }

  // One level of paging_map; an entry that it follows is a physical address in memory.
  lemma UnfoldMap(s: Machine, t: nat, level: nat, v: nat, leaf: nat)
    requires level > 0 && |s.mem| <= 0x1000_0000_0000 && MapAt(s, t, level + 1, v, leaf).Some?
    ensures InMemory(s.mem, t)
    ensures var e, i := Rd(s.mem, t, Idx(v, level + 1)), Idx(v, level + 1);
      if Present(e) then
        e < 0x8000_0000_0000 && MapAt(s, t, level + 1, v, leaf) == MapAt(s, Fr(e), level, v, leaf)
      else
        Alloc(s).Some? &&
        var (f, s1) := Alloc(s).value;
        MapAt(s, t, level + 1, v, leaf) ==
          MapAt(s1.(mem := NewTable(s1.mem, t, i, f, TableEntry(f, v))), f, level, v, leaf)
  {
    hide Idx, TableEntry;
  }

  // The words that paging_map stores are the entries of the specification.
  lemma LeafWord(paddr: Word, flags: Word)
    requires paddr % 0x1000 == 0 && flags < 0x100
    ensures Or(Or(paddr, flags), 1) == LeafEntry(paddr / 0x1000, flags) < WORD_LIMIT
  {
    hide Or, Present, Writable, UserBit, Huge;
    OrBelowPage(paddr, flags);
    SetPresent(paddr + flags);
    assert (paddr + flags) % 2 == flags % 2;
  }

  lemma LinkWords(child: Word, vaddr: Word)
    requires IsFramePtr(child) && FrameOf(child) < 0x8_0000_0000 && Canonical(vaddr)
    ensures var f, x := FrameOf(child), Or(OffsetLower(child), 1);
      && OffsetLower(child) == 0x1000 * f && x == 0x1000 * f + 1
      && Or(x, Or(2, 4)) == 0x1000 * f + 7
      && TableEntry(f, PageOf(vaddr)) == (if vaddr < 0xffff_8000_0000_0000 then Or(x, Or(2, 4)) else x)
  {
    hide Or, Present, Writable, UserBit, Huge, Canonical, PageOf, FrameOf, IsFramePtr, OffsetLower;
    var f := FrameOf(child);
    PtrLower(child);
    LinkBits(f);
    CanonicalHalf(vaddr);
    TwoOrFour();
  }

  lemma PtrLower(child: Word)
    requires IsFramePtr(child)
    ensures OffsetLower(child) == 0x1000 * FrameOf(child)
  {
  }

  lemma LinkBits(f: nat)
    ensures Or(0x1000 * f, 1) == 0x1000 * f + 1
    ensures Or(0x1000 * f + 1, 6) == 0x1000 * f + 7
  {
    hide Or;
    FrameAddress(f);
    OrBelowPage(0x1000 * f, 1);
    SetUserWritable(0x200 * f);
  }

  lemma TwoOrFour()
    ensures Or(2, 4) == 6
  {
    OrStep(2, 4);
    OrStep(1, 2);
    OrStep(0, 1);
  }
}
