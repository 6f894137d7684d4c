/** The code that brings the kernel up: the tables that `paging_initialize` sets up, `task_create`
    of `kernel/src/task/task.c`, and the end of `kernel/src/start.c`, where the first task is created
    from the program headers of its executable and the scheduler is started with it. */
module Startup {
  import opened Bits
  import opened Options
  import opened Addresses
  import opened PageTables
  import opened PageTableCopy
  import opened CopyOnWrite
  import opened PagingCode
  import opened KernelCode
  import opened FrameManagement
  import opened DirectMapping
  import opened Forking
  import opened Systems
  import opened Boot
  import S = Scheduling
  import Frames
  import HeapPages
  import Heaps

  // ----- paging_initialize

  // The entry that links a table for the kernel only.
  lemma KernelLink(child: Word)
    requires IsFramePtr(child) && FrameOf(child) < 0x8_0000_0000
    ensures Or(1, OffsetLower(child)) == 0x1000 * FrameOf(child) + 1
  {
    hide Or;
    OrCommutes(1, OffsetLower(child));
    SetPresent(OffsetLower(child));
  }

  lemma UnfoldKernelTables(s: Machine, k: nat, i: nat)
    requires i < 512 && AddKernelTables(s, k, i).Some?
    ensures Alloc(s).Some? && var (c, s1) := Alloc(s).value;
      && InMemory(s1.mem, k) && InMemory(s1.mem, c)
      && AddKernelTables(s, k, i) ==
          AddKernelTables(s1.(mem := NewTable(s1.mem, k, i, c, 0x1000 * c + 1)), k, i + 1)
  {
    hide Alloc;
  }

  // One turn of the loop over the upper half.
  method AddKernelChild(p: Paging, i: nat)
    requires p.Valid() && i < 512 && AddKernelTables(p.View(), FrameOf(p.kernelTable), i).Some?
    modifies p.words, p.frames`freeMemory, p.frames`lastFree, p.frames.bitmap.buf
    ensures p.Valid()
    ensures AddKernelTables(p.View(), FrameOf(p.kernelTable), i + 1)
      == old(AddKernelTables(p.View(), FrameOf(p.kernelTable), i))
  {
    hide Alloc, Or, AddKernelTables;
    UnfoldKernelTables(p.View(), FrameOf(p.kernelTable), i);
    var child := p.Palloc();
    p.Clear(child);
    KernelLink(child);
    p.SetWord(p.kernelTable, i, Or(1, OffsetLower(child)));
  }

  // i * 0x40000000 | PAGING_PRESENT | PAGING_WRITABLE | PAGING_HUGE
  lemma HugeWord(i: nat)
    requires i < 4
    ensures Or(Or(Or(0x4000_0000 * i, 1), 2), 0x80) == 0x4000_0000 * i + 0x83
  {
    hide Or;
    var p := 0x4000_0000 * i;
    OrBelowPage(p, 1);
    OrWithinPage(p, 1, 2);
    OrWithinPage(p, 3, 0x80);
    HugeFlags();
  }

  lemma HugeFlags()
    ensures Or(1, 2) == 3 && Or(3, 0x80) == 0x83
  {
    OrStep(1, 2);
    OrStep(3, 0x80);
    OrStep(1, 0x40);
  }

  // The 1 GiB pages of a direct map.
  method PutHugePages(p: Paging, parent: Word, first: nat, n: nat)
    requires p.Valid() && p.Readable(parent) && first + n <= 512 && n <= 4
    modifies p.words
    ensures p.Valid() && p.View() == old(p.View()).(mem := HugePages(old(p.words[..]), FrameOf(parent), first, n))
  {
    for i := 0 to n
      invariant p.words[..] == HugePages(old(p.words[..]), FrameOf(parent), first, i)
    {
      HugeWord(i);
      p.SetWord(parent, first + i, Or(Or(Or(0x4000_0000 * i, 1), 2), 0x80));
    }
  }

  // The loop over the upper half.
  method FillUpperHalf(p: Paging)
    requires p.Valid() && AddKernelTables(p.View(), FrameOf(p.kernelTable), 256).Some?
    modifies p.words, p.frames`freeMemory, p.frames`lastFree, p.frames.bitmap.buf
    ensures p.Valid() && AddKernelTables(old(p.View()), FrameOf(p.kernelTable), 256) == Some(p.View())
  {
    hide AddKernelTables;
    ghost var filled := AddKernelTables(p.View(), FrameOf(p.kernelTable), 256);
    for i := 256 to 512
      invariant p.Valid() && AddKernelTables(p.View(), FrameOf(p.kernelTable), i) == filled
    {
      AddKernelChild(p, i);
    }
    AllFilled(p.View(), FrameOf(p.kernelTable));
  }

  method PutDirectMaps(p: Paging)
    requires p.Valid() && p.Readable(p.kernelTable) && DirectMaps(p.View().mem, FrameOf(p.kernelTable)).Some?
    modifies p.words
    ensures p.Valid()
    ensures p.View() == old(p.View()).(mem := DirectMaps(old(p.View().mem), FrameOf(p.kernelTable)).value)
  {
    hide HugePages, Rd, Fr, TablePtr;
    EntryInMemory(p, p.kernelTable, 256);
    PutHugePages(p, TablePtr(p.WordAt(p.kernelTable, 256)), 0, 4);
    EntryInMemory(p, p.kernelTable, 511);
    PutHugePages(p, TablePtr(p.WordAt(p.kernelTable, 511)), 510, 2);
  }

  // One entry of the memory map: its pages from 4 GiB on.
  method MapEntry(p: Paging, entry: Region)
    requires p.Valid() && IsFramePtr(p.kernelTable) && ExtentOk(entry)
    requires MapExtent(p.View(), FrameOf(p.kernelTable), FirstPage(entry), EndPage(entry)).Some?
    modifies p`tlb, p.words, p.frames`freeMemory, p.frames`lastFree, p.frames.bitmap.buf
    ensures p.Valid()
    ensures MapExtent(old(p.View()), FrameOf(p.kernelTable), FirstPage(entry), EndPage(entry)) == Some(p.View())
  {
    hide MapExtent, MapAt, LeafEntry, FirstPage, EndPage, IsFramePtr, FrameOf, Frames.Valid, Canonical, PageOf;
    var paddr := entry.base;
    ghost var q := FirstPage(entry);
    EntryPage(entry, 0);
    while paddr < entry.base + entry.length
      invariant p.Valid() && q >= FirstPage(entry) && paddr == entry.base + 0x1000 * (q - FirstPage(entry))
      invariant q <= EndPage(entry) && (paddr >= entry.base + entry.length ==> q == EndPage(entry))
      invariant MapExtent(p.View(), FrameOf(p.kernelTable), q, EndPage(entry))
        == old(MapExtent(p.View(), FrameOf(p.kernelTable), FirstPage(entry), EndPage(entry)))
    {
      EntryPage(entry, q - FirstPage(entry));
      EntryPage(entry, q - FirstPage(entry) + 1);
      UnfoldExtent(p.View(), FrameOf(p.kernelTable), q, EndPage(entry));
      if paddr >= 0x1_0000_0000 {
        p.Map(p.kernelTable, 0xffff_8000_0000_0000 + paddr, paddr, 2);
      }
      paddr := paddr + 0x1000;
      q := q + 1;
    }
    UnfoldExtent(p.View(), FrameOf(p.kernelTable), q, EndPage(entry));
  }

  // The page that the loop is at after i turns.
  lemma EntryPage(entry: Region, i: nat)
    requires ExtentOk(entry)
    ensures FirstPage(entry) <= EndPage(entry)
    ensures var paddr, q := entry.base + 0x1000 * i, FirstPage(entry) + i;
      && (paddr < entry.base + entry.length <==> q < EndPage(entry))
      && (paddr < 0x1_0000_0000 <==> q < FOUR_GIB)
      && (paddr < entry.base + entry.length ==>
            && paddr < 0x100_0000_0000 && Canonical(0xffff_8000_0000_0000 + paddr)
            && (paddr >= 0x1_0000_0000 ==>
                  paddr % 0x1000 == 0 && paddr / 0x1000 == q && PageOf(0xffff_8000_0000_0000 + paddr) == LOWER + q))
  {
  }

  lemma UnfoldExtent(s: Machine, k: nat, q: nat, end: nat)
    ensures q >= end ==> MapExtent(s, k, q, end) == Some(s)
    ensures q < end && q < FOUR_GIB ==> MapExtent(s, k, q, end) == MapExtent(s, k, q + 1, end)
    ensures q < end && q >= FOUR_GIB && MapExtent(s, k, q, end).Some? ==>
      var s1 := MapAt(s, k, 4, LOWER + q, LeafEntry(q, 2));
      s1.Some? && MapExtent(s, k, q, end) == MapExtent(s1.value, k, q + 1, end)
  {
    hide MapAt, LeafEntry;
  }

  // The loop over the memory map.
  method MapEntries(p: Paging, mmap: seq<Region>)
    requires p.Valid() && IsFramePtr(p.kernelTable) && ExtentsOk(mmap)
    requires MapMemory(p.View(), FrameOf(p.kernelTable), mmap).Some?
    modifies p`tlb, p.words, p.frames`freeMemory, p.frames`lastFree, p.frames.bitmap.buf
    ensures p.Valid() && MapMemory(old(p.View()), FrameOf(p.kernelTable), mmap) == Some(p.View())
  {
    hide MapMemory, MapExtent, FirstPage, EndPage, IsFramePtr, FrameOf, Frames.Valid;
    assert mmap[0..] == mmap;
    for i := 0 to |mmap|
      invariant p.Valid()
      invariant MapMemory(p.View(), FrameOf(p.kernelTable), mmap[i..])
        == old(MapMemory(p.View(), FrameOf(p.kernelTable), mmap))
    {
      UnfoldMemory(p.View(), FrameOf(p.kernelTable), mmap, i);
      MapEntry(p, mmap[i]);
    }
    NoEntries(p.View(), FrameOf(p.kernelTable), mmap);
  }

  lemma UnfoldMemory(s: Machine, k: nat, mmap: seq<Region>, i: nat)
    requires i < |mmap| && MapMemory(s, k, mmap[i..]).Some?
    ensures var s1 := MapExtent(s, k, FirstPage(mmap[i]), EndPage(mmap[i]));
      s1.Some? && MapMemory(s, k, mmap[i..]) == MapMemory(s1.value, k, mmap[i + 1..])
  {
    hide MapExtent, FirstPage, EndPage;
    assert mmap[i..][1..] == mmap[i + 1..];
  }

  lemma NoEntries(s: Machine, k: nat, mmap: seq<Region>)
    ensures MapMemory(s, k, mmap[|mmap|..]) == Some(s)
  {
  }

  // The kernel table with its upper half and the direct maps of 1 GiB pages.
  method SetUpTables(p: Paging)
    requires p.Valid() && LowTables(p.View()).Some?
    modifies p`kernelTable, p.words, p.frames`freeMemory, p.frames`lastFree, p.frames.bitmap.buf
    ensures p.Valid() && LowTables(old(p.View())) == Some(p.View()) && IsFramePtr(p.kernelTable)
  {
    hide Alloc, AddKernelTables, DirectMaps, PutFrame, Rd, Frames.Valid, FrameOf, IsFramePtr, LowTables;
    UnfoldLowTables(p.View());
    p.kernelTable := p.Palloc();
    p.Clear(p.kernelTable);
    FillUpperHalf(p);
    PutDirectMaps(p);
  }

  lemma UnfoldLowTables(s: Machine)
    requires LowTables(s).Some?
    ensures Alloc(s).Some? && var (k, s1) := Alloc(s).value;
      && InMemory(s1.mem, k)
      && var a := AddKernelTables(s1.(mem := PutFrame(s1.mem, k, Zeros()), kernel := k), k, 256);
      && a.Some? && InMemory(a.value.mem, k) && DirectMaps(a.value.mem, k).Some?
      && LowTables(s) == Some(a.value.(mem := DirectMaps(a.value.mem, k).value))
  {
    hide AddKernelTables, HugePages, PutFrame, Rd, Frames.Request;
  }

  /** The code of paging_initialize. */
  method PagingInitialize(p: Paging, mmap: seq<Region>)
    requires p.Valid() && ExtentsOk(mmap) && InitializeTables(p.View(), mmap).Some?
    modifies p`kernelTable, p`tlb, p`cr3, p.words, p.frames`freeMemory, p.frames`lastFree, p.frames.bitmap.buf
    ensures p.Valid() && InitializeTables(old(p.View()), mmap) == Some(p.View())
  {
    hide LowTables, MapMemory, Frames.Valid, FrameOf, IsFramePtr, UnmapAt, PageOf;
    PageZero();
    SetUpTables(p);
    MapEntries(p, mmap);
    p.Unmap(p.kernelTable, 0);
    p.WriteCr3(p.kernelTable);
  }

  lemma PageZero()
    ensures PageOf(0) == 0
  {
  }

  lemma EntryInMemory(p: Paging, table: Word, i: nat)
    requires p.Valid() && p.Readable(table) && i < 512 && InMemory(p.words[..], Fr(Rd(p.words[..], FrameOf(table), i)))
    ensures p.WordAt(table, i) == Rd(p.words[..], FrameOf(table), i)
    ensures TablePtr(p.WordAt(table, i)) < WORD_LIMIT
    ensures p.Readable(TablePtr(p.WordAt(table, i))) && FrameOf(TablePtr(p.WordAt(table, i))) == Fr(p.WordAt(table, i))
  {
    hide TablePtr;
    TablePtrIs(p.WordAt(table, i));
  }

  lemma AllFilled(s: Machine, k: nat)
    ensures AddKernelTables(s, k, 512) == Some(s)
  {
  }

  // ----- task_create

  // A program header of the executable.
  datatype ProgramHeader = ProgramHeader(kind: nat, vaddr: Word, memsz: Word)

  const PT_LOAD: nat := 1

  // The size that task_create allocates for a segment.
  function ToAlloc(h: ProgramHeader): nat {
    PageAlignUp((h.memsz + h.vaddr % 0x1000) % 0x1_0000_0000_0000_0000)
  }

  function SegmentOf(h: ProgramHeader): Segment {
    Segment(h.vaddr / 0x1000, ToAlloc(h) / 0x1000)
  }

  function SegmentsOf(headers: seq<ProgramHeader>): seq<Segment> {
    if headers == [] then []
    else (if headers[0].kind == PT_LOAD then [SegmentOf(headers[0])] else []) + SegmentsOf(headers[1..])
  }

  // A loadable segment lies in the user half.
  predicate InUserHalf(h: ProgramHeader) {
    h.kind == PT_LOAD ==> h.vaddr / 0x1000 + ToAlloc(h) / 0x1000 <= 0x8_0000_0000
  }

  // Page w is one of those that a header of type 1, PT_LOAD, gets: as many as its size takes from the
  // start of its first page, in 64-bit arithmetic.
  predicate SegmentPage(h: ProgramHeader, w: nat) {
    && h.kind == 1
    && h.vaddr / 0x1000 <= w < h.vaddr / 0x1000 +
         ((h.memsz + h.vaddr % 0x1000) % 0x1_0000_0000_0000_0000 + 0xfff) % 0x1_0000_0000_0000_0000 / 0x1000
  }

  // The user pages of the first task: those of its loadable segments and the stack page, for it to read
  // and write, and no other.
  ghost predicate PagesOfTask(m: seq<nat>, r: nat, headers: seq<ProgramHeader>) {
    forall w: nat :: w < 0x8_0000_0000 ==>
      if w == 0x7_ffff_ffff || exists i :: 0 <= i < |headers| && SegmentPage(headers[i], w)
      then UserData(Get(m, r, 4, w))
      else !Present(Get(m, r, 4, w))
  }

  /** Every byte of a loadable segment in the user half lies on such a page, and every such page holds
      bytes from the start of the segment's first page up to its last byte. */
  lemma SegmentPageIff(h: ProgramHeader, w: nat)
    requires h.kind == 1 && h.vaddr + h.memsz <= 0x8000_0000_0000
    ensures SegmentPage(h, w) <==> h.vaddr / 0x1000 <= w && 0x1000 * w < h.vaddr + h.memsz
    ensures forall a: nat :: h.vaddr <= a < h.vaddr + h.memsz ==> SegmentPage(h, a / 0x1000)
  {
  }

  lemma SegmentPageIs(h: ProgramHeader, w: nat)
    requires h.kind == PT_LOAD
    ensures SegmentPage(h, w) <==> SegmentOf(h).page <= w < SegmentOf(h).page + SegmentOf(h).count
  {
    hide And;
    PageMask(((h.memsz + h.vaddr % 0x1000) % 0x1_0000_0000_0000_0000 + 0xfff) % 0x1_0000_0000_0000_0000);
  }

  lemma {:induction false} SegmentPagesCovered(headers: seq<ProgramHeader>, w: nat)
    ensures Covers(SegmentsOf(headers), w) <==> exists i :: 0 <= i < |headers| && SegmentPage(headers[i], w)
  {
    hide SegmentPage, SegmentOf;
    if headers == [] {
      assert SegmentsOf(headers) == [];
    } else {
      var rest := headers[1..];
      SegmentPagesCovered(rest, w);
      SegmentsSplit(headers, w);
      if headers[0].kind == PT_LOAD {
        SegmentPageIs(headers[0], w);
      } else {
        NoSegmentPage(headers[0], w);
      }
      if i :| 0 <= i < |headers| && SegmentPage(headers[i], w) {
        assert i > 0 ==> rest[i - 1] == headers[i];
      }
      if i :| 0 <= i < |rest| && SegmentPage(rest[i], w) {
        assert headers[i + 1] == rest[i];
      }
    }
  }

  lemma NoSegmentPage(h: ProgramHeader, w: nat)
    requires h.kind != PT_LOAD
    ensures !SegmentPage(h, w)
  {
  }

  lemma SegmentsSplit(headers: seq<ProgramHeader>, w: nat)
    requires headers != []
    ensures Covers(SegmentsOf(headers), w) <==>
      || (headers[0].kind == PT_LOAD && SegmentOf(headers[0]).page <= w
          < SegmentOf(headers[0]).page + SegmentOf(headers[0]).count)
      || Covers(SegmentsOf(headers[1..]), w)
  {
    hide SegmentOf;
    var rest := SegmentsOf(headers[1..]);
    var all := SegmentsOf(headers);
    if headers[0].kind == PT_LOAD {
      var s := SegmentOf(headers[0]);
      assert all == [s] + rest;
      if i :| 0 <= i < |all| && all[i].page <= w < all[i].page + all[i].count {
        assert i > 0 ==> rest[i - 1] == all[i];
      }
      if i :| 0 <= i < |rest| && rest[i].page <= w < rest[i].page + rest[i].count {
        assert all[i + 1] == rest[i];
      }
      assert all[0] == s;
    } else {
      assert all == [] + rest == rest;
    }
  }

  /** The pages of a segment are exactly those that hold its bytes, up to the last page. */
  lemma SegmentHoldsItsBytes(h: ProgramHeader, a: nat)
    requires h.vaddr <= a < h.vaddr + h.memsz && h.vaddr + h.memsz <= 0x8000_0000_0000
    ensures var s := SegmentOf(h);
      && s.page <= a / 0x1000 < s.page + s.count
      && (s.page + s.count - 1) * 0x1000 < h.vaddr + h.memsz
  {
    hide And;
    var x := h.memsz + h.vaddr % 0x1000;
    PageMask(x + 0xfff);
    SegmentPages(h.vaddr, h.memsz, a);
    assert (x + 0xfff - (x + 0xfff) % 0x1000) / 0x1000 == (x + 0xfff) / 0x1000;
  }

  lemma UnfoldSegments(s: Machine, r: nat, headers: seq<ProgramHeader>, i: nat)
    requires i < |headers|
    ensures headers[i..][1..] == headers[i + 1..]
    ensures headers[i].kind != PT_LOAD ==>
      MapSegments(s, r, SegmentsOf(headers[i..])) == MapSegments(s, r, SegmentsOf(headers[i + 1..]))
    ensures headers[i].kind == PT_LOAD && MapSegments(s, r, SegmentsOf(headers[i..])).Some? ==>
      var seg := SegmentOf(headers[i]);
      var s1 := RequestRange(s, r, seg.page, seg.count, USER_FLAGS);
      s1.Some? && MapSegments(s, r, SegmentsOf(headers[i..])) == MapSegments(s1.value, r, SegmentsOf(headers[i + 1..]))
  {
    hide RequestRange, SegmentOf;
    assert headers[i..][1..] == headers[i + 1..];
    var rest := SegmentsOf(headers[i + 1..]);
    if headers[i].kind == PT_LOAD {
      var segments := [SegmentOf(headers[i])] + rest;
      assert segments[1..] == rest && SegmentsOf(headers[i..]) == segments;
    } else {
      assert SegmentsOf(headers[i..]) == [] + rest == rest;
    }
  }

  lemma ConstantsAre()
    ensures Or(4, 2) == USER_FLAGS
    ensures And(0x7fff_ffff_fff0, Not(0xfff)) == 0x7fff_ffff_f000
  {
    hide Or, And;
    OrCommutes(4, 2);
    TwoOrFour();
    PageMask(0x7fff_ffff_fff0);
  }

  // The loop of task_create over the program headers.
  method LoadSegments(p: Paging, vmap: Word, headers: seq<ProgramHeader>)
    requires p.Valid() && IsFramePtr(vmap) && forall i :: 0 <= i < |headers| ==> InUserHalf(headers[i])
    requires MapSegments(p.View(), FrameOf(vmap), SegmentsOf(headers)).Some?
    modifies p`tlb, p.words, p.frames`freeMemory, p.frames`lastFree, p.frames.bitmap.buf
    ensures p.Valid()
    ensures MapSegments(old(p.View()), FrameOf(vmap), SegmentsOf(headers)) == Some(p.View())
  {
    hide MapSegments, SegmentsOf, RequestRange, And, Or, Canonical, PageAlignUp, PageOf, InUserHalf, IsFramePtr,
      FrameOf, Frames.Valid;
    ConstantsAre();
    ghost var r := FrameOf(vmap);
    assert headers[0..] == headers;
    for i := 0 to |headers|
      invariant p.Valid()
      invariant MapSegments(p.View(), r, SegmentsOf(headers[i..]))
        == old(MapSegments(p.View(), FrameOf(vmap), SegmentsOf(headers)))
    {
      UnfoldSegments(p.View(), r, headers, i);
      var h := headers[i];
      if h.kind == PT_LOAD {
        SegmentAddresses(h);
        var toAlloc := PageAlignUp((h.memsz + h.vaddr % 0x1000) % 0x1_0000_0000_0000_0000);
        p.RequestAt(vmap, h.vaddr, toAlloc / 0x1000, Or(4, 2));
      }
    }
    NoSegments(p.View(), r, headers);
  }

  // The addresses that vmm_request_at is called with.
  lemma SegmentAddresses(h: ProgramHeader)
    requires InUserHalf(h) && h.kind == PT_LOAD
    ensures var n := ToAlloc(h) / 0x1000;
      && h.vaddr + 0x1000 * n < WORD_LIMIT && PageOf(h.vaddr) == h.vaddr / 0x1000 && PageOf(h.vaddr) + n <= PAGES
      && forall k: nat :: k < n ==> Canonical(h.vaddr + 0x1000 * k)
    ensures PageAlignUp((h.memsz + h.vaddr % 0x1000) % 0x1_0000_0000_0000_0000) == ToAlloc(h)
  {
    hide PageAlignUp;
  }

  lemma NoSegments(s: Machine, r: nat, headers: seq<ProgramHeader>)
    ensures MapSegments(s, r, SegmentsOf(headers[|headers|..])) == Some(s)
  {
  }

  method TaskCreate(p: Paging, parent: Word, headers: seq<ProgramHeader>, entry: Word) returns (task: Task)
    requires p.Valid() && IsFramePtr(parent) && forall i :: 0 <= i < |headers| ==> InUserHalf(headers[i])
    requires CreateTaskSpace(p.View(), FrameOf(parent), SegmentsOf(headers)).Some?
    modifies p`tlb, p`cr3, p.words, p.frames`freeMemory, p.frames`lastFree, p.frames.bitmap.buf
    ensures p.Valid() && fresh(task) && IsFramePtr(task.vmap) && task.next == task
    ensures task.Snapshot() == S.Task(NO_REGISTERS, 0x7fff_ffff_fff0, 0, entry, FrameOf(task.vmap), 0, 0)
    ensures CreateTaskSpace(old(p.View()), FrameOf(parent), SegmentsOf(headers)) == Some((FrameOf(task.vmap), p.View()))
  {
    hide CopySpace, MapSegments, RequestRange, SegmentsOf, And, Or, IsFramePtr, FrameOf, Frames.Valid, InUserHalf;
    ConstantsAre();
    var vmap := p.CopyTableSpace(parent);
    p.WriteCr3(vmap);
    LoadSegments(p, vmap, headers);
    p.RequestAt(vmap, And(0x7fff_ffff_fff0, Not(0xfff)), 1, Or(4, 2));
    task := new Task(NO_REGISTERS, 0x7fff_ffff_fff0, 0, entry, vmap, 0, 0);
  }

  // The first task: cleared registers, the entry point, the stack pointer, the quantum from now on, and
  // the identifier 0.
  predicate StartsAt(t: S.Task<nat>, entry: Word, now: Word) {
    && t.regs == S.Registers(0, 0, 0, 0, 0, 0, 0, 0, 0, 0, 0, 0, 0, 0, 0)
    && t.rip == entry && t.rsp == 0x7fff_ffff_fff0 && t.rflags == 0 && t.id == 0
    && t.deadline == (now + 1_000_000) % 0x1_0000_0000_0000_0000
  }

  const NO_REGISTERS: S.Registers := S.Registers(0, 0, 0, 0, 0, 0, 0, 0, 0, 0, 0, 0, 0, 0, 0)

  /** From an initialized kernel without user pages, the first task is created and the scheduler
      started in a state that satisfies the invariant of all runs; the pages of its segments and of its
      stack are mapped, and it will start at the entry point. */
  method Start(p: Paging, headers: seq<ProgramHeader>, entry: Word, now: Word, ghost roles: seq<Role>)
    returns (kernel: Kernel, ghost roles': seq<Role>)
    requires p.Valid() && Ok(p.View(), roles) && LowerHalfEmpty(p.View().mem, p.View().kernel)
    requires forall r: nat :: IsRoot(roles, r) <==> r == p.View().kernel
    requires forall i :: 0 <= i < |headers| ==> InUserHalf(headers[i])
    requires Frames.Available(p.View().pmm) >= TaskCost(p.View(), p.View().kernel, SegmentsOf(headers))
    modifies p`tlb, p`cr3, p.words, p.frames`freeMemory, p.frames`lastFree, p.frames.bitmap.buf
    ensures fresh(kernel) && kernel.Valid() && Inv(kernel.View(), roles') && !kernel.halted
    ensures |kernel.View().ring| == 1 && StartsAt(kernel.View().ring[0], entry, now) && kernel.View().tid == 1
    ensures PagesOfTask(kernel.View().mach.mem, kernel.View().ring[0].vmap, headers)
    ensures kernel.View().mach.kernel == old(p.View().kernel)
    ensures SameKernelHalf(old(p.View().mem), kernel.View().mach.mem, old(p.View().kernel))
  {
    hide CreateTaskSpace, Get, Present, TaskCost, SegmentsOf, Ok, Covers, LowerHalfEmpty, PagesOfTask, SameKernelHalf;
    SegmentsFit(headers);
    ghost var n, s1;
    ghost var start := S.Task(NO_REGISTERS, 0x7fff_ffff_fff0, 0, entry, 0, S.Deadline(now), 0);
    n, s1, roles' := FirstTaskStarts(p.View(), roles, SegmentsOf(headers), start, 1);
    var task := TaskCreate(p, p.kernelTable, headers, entry);
    kernel := new Kernel(p, task, now);
    assert kernel.View().ring == [start.(vmap := n)];
    FlushKeepsInv(System(s1, kernel.View().ring, 1, false), roles');
    TaskPages(s1.mem, n, headers);
  }

  lemma TaskPages(m: seq<nat>, n: nat, headers: seq<ProgramHeader>)
    requires forall w: nat :: w < LOWER ==>
      if Covers(SegmentsOf(headers), w) || w == 0x7_ffff_ffff then UserData(Get(m, n, 4, w))
      else !Present(Get(m, n, 4, w))
    ensures PagesOfTask(m, n, headers)
  {
    hide Get, Covers, SegmentsOf, SegmentPage, UserData, Present;
    forall w: nat | w < LOWER
      ensures Covers(SegmentsOf(headers), w) <==> exists i :: 0 <= i < |headers| && SegmentPage(headers[i], w)
    {
      SegmentPagesCovered(headers, w);
    }
  }

  // Emptying the translation cache does no harm.
  lemma FlushKeepsInv(sys: System, roles: seq<Role>)
    requires Inv(sys, roles)
    ensures Inv(sys.(mach := sys.mach.(tlb := map[])), roles)
  {
    hide Get, Present, Layout;
  }

  lemma {:induction false} SegmentsFit(headers: seq<ProgramHeader>)
    requires forall i :: 0 <= i < |headers| ==> InUserHalf(headers[i])
    ensures SegmentsOk(SegmentsOf(headers))
  {
    if headers != [] {
      SegmentsFit(headers[1..]);
      var first, rest := SegmentOf(headers[0]), SegmentsOf(headers[1..]);
      assert InUserHalf(headers[0]);
    }
  }

  // ----- from the memory map

  // A state of the frame allocator as initialization leaves it.
  ghost predicate FreshFrames(mmap: seq<Region>, st: Frames.State) {
    && Frames.Valid(st) && st.totalMemory == TotalLength(mmap) && st.lastFree == 0
    && exists k: nat :: Largest(mmap, k) && InitiallyFree(mmap, k, st)
  }

  // Memory of n frames, of which the free ones are cleared.
  ghost predicate Cleared(s: Machine, n: nat) {
    |s.mem| == 512 * n && forall f: nat :: Frames.Free(s.pmm, f) ==> ZeroFrame(s.mem, f)
  }

  // There are free frames for the kernel's tables, for the first page of the heap, for the tables and
  // pages of the first task, and for its stack.
  ghost predicate EnoughMemory(mmap: seq<Region>, headers: seq<ProgramHeader>) {
    forall s: Machine :: FreshFrames(mmap, s.pmm) && Cleared(s, TotalLength(mmap) / 0x1000) ==>
      Frames.Available(s.pmm) >= InitialCost(s, mmap) + 4 + 1 + 4 * PageCount(SegmentsOf(headers)) + 4
  }

  // libk_init: the first page of the heap is mapped, and the heap set up in it.
  method LibkInit(p: Paging) returns (heap: Heaps.KernelHeap)
    requires p.Valid() && IsFramePtr(p.kernelTable)
    requires RequestRange(p.View(), FrameOf(p.kernelTable), HeapPages.FIRST, 1, 2).Some?
    modifies p`tlb, p.words, p.frames`freeMemory, p.frames`lastFree, p.frames.bitmap.buf
    ensures p.Valid() && fresh(heap) && heap.View() == Heaps.Init()
    ensures RequestRange(old(p.View()), FrameOf(p.kernelTable), HeapPages.FIRST, 1, 2) == Some(p.View())
  {
    hide RequestRange, IsFramePtr, FrameOf, Frames.Valid, Heaps.HeapOk, Heaps.Live;
    FirstAddress();
    p.RequestAt(p.kernelTable, Heaps.START, 1, 2);
    heap := new Heaps.KernelHeap();
  }

  // The heap with the structure of the first task, which lies in the first page.
  method FirstStructure(p: Paging) returns (heap: Heaps.KernelHeap)
    requires p.Valid() && IsFramePtr(p.kernelTable)
    requires RequestRange(p.View(), FrameOf(p.kernelTable), HeapPages.FIRST, 1, 2).Some?
    modifies p`tlb, p.words, p.frames`freeMemory, p.frames`lastFree, p.frames.bitmap.buf
    ensures p.Valid() && fresh(heap)
    ensures RequestRange(old(p.View()), FrameOf(p.kernelTable), HeapPages.FIRST, 1, 2) == Some(p.View())
    ensures heap.View().end == Heaps.Init().end && Heaps.HeapOk(heap.View())
    ensures Heaps.Live(heap.View(), Heaps.START) == {Heaps.Block(0xffff_8100_0000_0018, 169)}
  {
    hide RequestRange, IsFramePtr, FrameOf, Frames.Valid, Heaps.HeapOk, Heaps.Live, Heaps.Init, Heaps.AfterMalloc,
      Heaps.Mappable, Heaps.FirstFit, Heaps.Served, Heaps.NothingSuits, Heaps.Roomy;
    heap := LibkInit(p);
    HeapPages.FirstStructure();
    var structure := heap.Malloc(HeapPages.TASK_SIZE);
  }

  lemma FirstAddress()
    ensures PageOf(Heaps.START) == HeapPages.FIRST && Canonical(Heaps.START) && Heaps.START + 0x1000 < WORD_LIMIT
  {
  }

  /** The kernel from the boot loader's memory map to the first task: with usable memory that is cleared,
      and enough of it, the frame allocator, the kernel tables, the heap and the first task are set up,
      and the scheduler starts in a state that satisfies the invariant of all runs, with a heap that is
      mapped and holds the structure of the first task. */
  method BootKernel(mmap: seq<Region>, words: array<Word>, headers: seq<ProgramHeader>, entry: Word, now: Word)
    returns (kernel: Kernel, heap: Heaps.KernelHeap, ghost roles: seq<Role>)
    requires MapOk(mmap) && MapBelow(mmap) && ExtentsOk(mmap)
    requires words.Length == 512 * (TotalLength(mmap) / 0x1000) <= 0x1000_0000_0000
    requires forall f: nat :: Usable(mmap, f) ==> ZeroFrame(words[..], f)
    requires forall i :: 0 <= i < |headers| ==> InUserHalf(headers[i])
    requires EnoughMemory(mmap, headers)
    modifies words
    ensures fresh(kernel) && kernel.Valid() && Inv(kernel.View(), roles) && !kernel.halted
    ensures |kernel.View().ring| == 1 && StartsAt(kernel.View().ring[0], entry, now) && kernel.View().tid == 1
    ensures PagesOfTask(kernel.View().mach.mem, kernel.View().ring[0].vmap, headers)
    ensures KernelHalfIs(kernel.View().mach.mem, kernel.View().mach.kernel, mmap, {0x8_1000_0000})
    ensures fresh(heap) && Heaps.HeapOk(heap.View()) && HeapPages.HeapMapped(kernel.View().mach, heap.View())
    ensures Heaps.Live(heap.View(), Heaps.START) == {Heaps.Block(0xffff_8100_0000_0018, 169)}
  {
    hide Inv, Get, Present, Covers, SegmentsOf, InitializeTables, InitialCost, TaskCost, Frames.Valid, MapOk, Ok,
      KernelHalfIs, SameKernelHalf, PagesOfTask, Heaps.HeapOk, Heaps.Live, Heaps.AfterMalloc, Heaps.Mappable, Cleared,
      RequestRange, HeapPages.HeapMapped, LowerHalfEmpty, Coherent, Exclusive, MemoryOf, PageCost, IsFramePtr, FrameOf,
      Usable, Initialize, Tables, Heaps.Init, ZeroFrame, InitiallyFree, PageCount, InUserHalf, MapInside, ExtentsOk;
    BelowIsInside(mmap);
    var frames := new FrameManager(mmap);
    var p := new Paging(words, frames, 0xffff_8000_0000_0000);
    ghost var s := p.View();
    ClearedMemory(s, mmap);
    ghost var s1, s2;
    s1, roles := InitializeTablesEffect(s, TotalLength(mmap) / 0x1000, mmap);
    PagingInitialize(p, mmap);
    EmptyIsOk(s1, roles);
    RoomForTheHeap(s1.mem, s1.kernel, mmap);
    s2, roles := HeapPages.HeapStarts(s1, roles);
    heap := FirstStructure(p);
    kernel, roles := Start(p, headers, entry, now, roles);
    KeptSince(s1, s2, kernel.View().mach, mmap, heap.View());
  }

  // A machine without user pages.
  lemma EmptyIsOk(s: Machine, roles: seq<Role>)
    requires Ok(s, roles) && LowerHalfEmpty(s.mem, s.kernel) && s.cr3 == s.kernel && s.tlb == map[]
    requires forall r: nat :: IsRoot(roles, r) <==> r == s.kernel
    ensures MemoryOk(s, roles)
  {
    hide Get, Layout, Present, AloneOn, FreeOk;
    ZeroAbsent();
    forall q: nat, w: nat, q': nat, w': nat
      | IsRoot(roles, q) && IsRoot(roles, q') && w < LOWER && w' < LOWER
      ensures AloneOn(s.mem, q, w, q', w')
    {
      NoneAlone(s.mem, q, w, q', w');
    }
  }

  // What the later steps keep.
  lemma KeptSince(s1: Machine, s2: Machine, s': Machine, mmap: seq<Region>, h: Heaps.Heap)
    requires s2.kernel == s1.kernel && s'.kernel == s1.kernel && KernelHalfIs(s1.mem, s1.kernel, mmap, {})
    requires forall w: nat :: LOWER <= w < PAGES && w != HeapPages.FIRST ==>
      Get(s2.mem, s1.kernel, 4, w) == Get(s1.mem, s1.kernel, 4, w)
    requires SameKernelHalf(s2.mem, s'.mem, s1.kernel) && HeapPages.HeapMapped(s2, Heaps.Init())
    ensures KernelHalfIs(s'.mem, s1.kernel, mmap, {0x8_1000_0000})
    ensures h.end == Heaps.Init().end ==> HeapPages.HeapMapped(s', h)
  {
    hide Get, Listed, KernelEntry, Present, Writable, UserBit;
    FirstIsNoScratch();
  }

  // The pages from the heap up to the image are free at first.
  lemma RoomForTheHeap(m: seq<nat>, k: nat, mmap: seq<Region>)
    requires KernelHalfIs(m, k, mmap, {})
    ensures forall w: nat :: 0x8_1000_0000 <= w < 0xf_f800_0000 ==> Get(m, k, 4, w) == 0
  {
    hide Get, Listed;
  }

  lemma FirstIsNoScratch()
    ensures LOWER <= HeapPages.FIRST < PAGES && HeapPages.FIRST != SCRATCH
    ensures HeapPages.PageCountOf(Heaps.Init()) == 1
  {
  }

  // Before anything is set up, no frame has a role, and free frames are clean.
  lemma ClearedMemory(s: Machine, mmap: seq<Region>)
    requires FreshFrames(mmap, s.pmm) && |s.mem| == 512 * (TotalLength(mmap) / 0x1000)
    requires forall f: nat :: Usable(mmap, f) ==> ZeroFrame(s.mem, f)
    ensures Cleared(s, TotalLength(mmap) / 0x1000)
    ensures FreeOk(s, seq(TotalLength(mmap) / 0x1000, i => Unused))
  {
    hide ZeroFrame, Usable, Frames.Valid;
  }
}
