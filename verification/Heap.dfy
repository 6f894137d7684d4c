/** The kernel heap of `kernel/src/libk/alloc.c`: chunks with headers, split on allocation,
    extended by whole pages at the end, merged when freed.

    Memory is seen as the chunk headers stored in it.  A store of a header makes every other
    header that it overlaps unreadable, and so does handing its bytes to a block.  Bytes of the heap
    that hold no header may read as anything; the model stops (None) where the code would write
    them, or read below the heap, where nothing is mapped. */
module Heaps {
  import opened Bits
  import opened Addresses
  import opened Options

  const START: nat := 0xffff_8100_0000_0000
  const LIMIT: nat := 0xffff_8102_0000_0000

  // A header takes 24 bytes.
  datatype Header = Header(inUse: bool, size: nat, sizePrev: nat)

  /** The readable headers by address, and the end of the mapped heap. */
  datatype Heap = Heap(hdrs: map<nat, Header>, end: nat)

  // ----- the code, on values

  function Write(h: Heap, a: nat, hdr: Header): Heap {
    Heap((map x | x in h.hdrs && (x + 24 <= a || a + 24 <= x) :: h.hdrs[x])[a := hdr], h.end)
  }

  // The address of the header after the chunk at a: NEXT_HDR.
  function Next(h: Heap, a: nat): nat
    requires a in h.hdrs
  {
    a + h.hdrs[a].size + 24
  }

  /** The chunk at which the search of malloc stops: the first free one of the wanted size, or the
      tail. */
  function Find(h: Heap, a: nat, want: nat): (c: nat)
    requires Tiles(h, a)
    ensures c in Chain(h, a) && c in h.hdrs && Suits(h.hdrs[c], want)
    ensures forall x: nat :: x in Chain(h, a) && x < c ==> x in h.hdrs && !Suits(h.hdrs[x], want)
    decreases h.end - a
  {
    ChainBounds(h, a);
    if Suits(h.hdrs[a], want) then a else Find(h, Next(h, a), want)
  }

  predicate Suits(hdr: Header, want: nat) {
    hdr.size == 0 || (!hdr.inUse && want <= hdr.size)
  }

  // The bytes of the pages that are appended for a request.
  function Appended(want: Word): nat {
    PageAlignUp(want) / 0x1000 * 0x1000
  }

  // The tail at c becomes a chunk of newly mapped pages, followed by a new tail.
  function Extend(h: Heap, c: nat, bytes: nat): Heap
    requires c in h.hdrs
  {
    var size := (bytes - 24) % 0x1_0000_0000_0000_0000;
    var h1 := Write(Heap(h.hdrs, h.end + bytes), c, h.hdrs[c].(size := size));
    Write(h1, (c + size + 24) % 0x1_0000_0000_0000_0000, Header(true, 0, size))
  }

  // The chunk at c becomes a block of n bytes and a free rest.
  function Split(h: Heap, c: nat, n: nat): Heap
    requires c in h.hdrs
  {
    var sizeOld := h.hdrs[c].size;
    var h1 := Write(h, c, Header(true, n, h.hdrs[c].sizePrev));
    Write(h1, (c + n + 24) % 0x1_0000_0000_0000_0000, Header(false, (sizeOld - n - 24) % 0x1_0000_0000_0000_0000, n))
  }

  // The size that malloc looks for: the block and one more header.
  function Want(n: Word): Word {
    (n + 24) % 0x1_0000_0000_0000_0000
  }

  /** malloc: the heap afterwards and the header of the block, if there is one. */
  function AfterMalloc(h: Heap, n: Word): (Heap, Option<nat>)
    requires Tiles(h, START)
  {
    if n == 0 then (h, None)
    else
      var c := Find(h, START, Want(n));
      if h.hdrs[c].size != 0 then (Split(h, c, n), Some(c))
      else if c + 24 > LIMIT then (h, None)
      else (var h1 := Extend(h, c, Appended(Want(n))); if c in h1.hdrs then Split(h1, c, n) else h1, Some(c))
  }

  // The chunk at a takes over the chunk at b.
  function Absorb(h: Heap, a: nat, b: nat): Heap
    requires a in h.hdrs && b in h.hdrs
  {
    var size := (h.hdrs[a].size + h.hdrs[b].size + 24) % 0x1_0000_0000_0000_0000;
    Heap((map x | x in h.hdrs && x != b :: h.hdrs[x])[a := h.hdrs[a].(size := size)], h.end)
  }

  function Replace(h: Heap, a: nat, hdr: Header): Heap {
    Heap(h.hdrs[a := hdr], h.end)
  }

  // PREV_HDR: it goes back by the size of the chunk itself, not of the one before.
  function Prev(h: Heap, c: nat): nat
    requires c in h.hdrs
  {
    (c - h.hdrs[c].size - 24) % 0x1_0000_0000_0000_0000
  }

  // What the code reads as the header at a, if the bytes of a heap address without one read as found.
  function Read(h: Heap, a: nat, found: Header): Header {
    if a in h.hdrs then h.hdrs[a] else found
  }

  // Merging with the previous chunk: the heap and the chunk that now holds the freed bytes.
  function MergeBack(h: Heap, c: nat, found: Header): (r: Option<(Heap, nat)>)
    requires c in h.hdrs
    ensures r.Some? ==> r.value.1 in r.value.0.hdrs
  {
    var p := Prev(h, c);
    if h.hdrs[c].sizePrev == 0 then Some((h, c))
    else if p < START then None
    else if Read(h, p, found).inUse then Some((h, c))
    else if p !in h.hdrs then None
    else Some((Absorb(h, p, c), p))
  }

  // Merging with the next chunk.
  function MergeForward(h: Heap, a: nat, found: Header): Option<Heap>
    requires a in h.hdrs
  {
    var next := Next(h, a);
    if Read(h, next, found).inUse || Read(h, next, found).size == 0 then Some(h)
    else if next !in h.hdrs then None
    else
      var h1 := Absorb(h, a, next);
      var nn := Next(h, next);
      if nn !in h1.hdrs then None
      else Some(Replace(h1, nn, h1.hdrs[nn].(sizePrev := h.hdrs[next].size)))
  }

  /** mfree of the block whose header is at c.  It reads at most one heap address that holds no header,
      and what it finds there is arbitrary; the model stops where it would merge or write such bytes,
      and where the step back leaves the heap and faults. */
  function AfterMfree(h: Heap, c: nat, found: Header): Option<Heap>
    requires c in h.hdrs
  {
    var h0 := Replace(h, c, h.hdrs[c].(inUse := false));
    match MergeBack(h0, c, found)
    case None => None
    case Some((h1, a)) => MergeForward(h1, a, found)
  }

  /** _malloc_init: one free chunk and the tail, on one page. */
  function Init(): Heap {
    Heap(map[START := Header(false, 0x1000 - 48, 0), START + 0x1000 - 24 := Header(true, 0, 0x1000 - 48)],
         START + 0x1000)
  }

  // ----- what the heap is

  /** The chunks from address a on tile the heap: each has positive size and is followed by the
      next, up to the tail, which has size zero, is marked in use and ends the mapped heap. */
  ghost predicate Tiles(h: Heap, a: nat)
    decreases h.end - a
  {
    && a + 24 <= h.end && a in h.hdrs
    && (if h.hdrs[a].size == 0 then h.hdrs[a].inUse && a + 24 == h.end else Tiles(h, Next(h, a)))
  }

  // The headers from a on.
  ghost function Chain(h: Heap, a: nat): set<nat>
    requires Tiles(h, a)
    decreases h.end - a
  {
    if h.hdrs[a].size == 0 then {a} else {a} + Chain(h, Next(h, a))
  }

  datatype Block = Block(addr: nat, size: nat)

  // The blocks in use from a on.
  ghost function Live(h: Heap, a: nat): set<Block>
    requires Tiles(h, a)
    decreases h.end - a
  {
    if h.hdrs[a].size == 0 then {}
    else Here(h.hdrs[a], a) + Live(h, Next(h, a))
  }

  // The block of the chunk at a, if it is in use.
  ghost function Here(hdr: Header, a: nat): set<Block> {
    if hdr.inUse && hdr.size != 0 then {Block(a + 24, hdr.size)} else {}
  }

  predicate Apart(x: Block, y: Block) {
    x.addr + x.size <= y.addr || y.addr + y.size <= x.addr
  }

  /** The heap is tiled from its start, no header lies off the chain, and it ends on a page
      boundary below the end of the address space. */
  ghost predicate HeapOk(h: Heap) {
    && Tiles(h, START)
    && h.hdrs.Keys == Chain(h, START)
    && h.end <= 0x1_0000_0000_0000_0000
    && h.end % 0x1000 == 0
  }

  // ----- the chain

  lemma {:induction false} ChainBounds(h: Heap, a: nat)
    requires Tiles(h, a)
    ensures forall c: nat :: c in Chain(h, a) ==>
      a <= c && c + 24 <= h.end && c in h.hdrs && Tiles(h, c) && c + h.hdrs[c].size + 24 <= h.end
    decreases h.end - a
  {
    if h.hdrs[a].size != 0 {
      ChainBounds(h, Next(h, a));
      assert Next(h, a) in Chain(h, Next(h, a));
    }
  }

  // Nothing on the chain lies within a chunk.
  lemma {:induction false} ChainOrder(h: Heap, a: nat, p: nat, x: nat)
    requires Tiles(h, a) && p in Chain(h, a) && x in Chain(h, a) && p < x
    ensures p in h.hdrs && Next(h, p) <= x
    decreases h.end - a
  {
    ChainBounds(h, a);
    if h.hdrs[a].size != 0 {
      ChainBounds(h, Next(h, a));
      if p != a {
        ChainOrder(h, Next(h, a), p, x);
      }
    }
  }

  // The chain continues after each of its chunks.
  lemma {:induction false} ChainNext(h: Heap, a: nat, c: nat)
    requires Tiles(h, a) && c in Chain(h, a) && c in h.hdrs && h.hdrs[c].size != 0
    ensures Next(h, c) in Chain(h, a) && Next(h, c) in h.hdrs
    decreases h.end - a
  {
    if a != c {
      ChainNext(h, Next(h, a), c);
    }
  }

  /** Live blocks of a tiled heap lie inside it and do not overlap. */
  lemma {:induction false} LiveApart(h: Heap, a: nat)
    requires Tiles(h, a)
    ensures forall x :: x in Live(h, a) ==> a + 24 <= x.addr && x.addr + x.size + 24 <= h.end && x.size > 0
    ensures forall x, y :: x in Live(h, a) && y in Live(h, a) && x != y ==> Apart(x, y)
    decreases h.end - a
  {
    if h.hdrs[a].size != 0 {
      LiveApart(h, Next(h, a));
      ChainBounds(h, a);
      assert a in Chain(h, a);
    }
  }

  // The live blocks are the chunks in use on the chain.
  lemma {:induction false} LiveIsInUse(h: Heap, a: nat, x: Block)
    requires Tiles(h, a)
    ensures x in Live(h, a) <==>
      24 <= x.addr && x.addr - 24 in Chain(h, a) && x.addr - 24 in h.hdrs && h.hdrs[x.addr - 24].size != 0 &&
      h.hdrs[x.addr - 24].inUse && h.hdrs[x.addr - 24].size == x.size
    decreases h.end - a
  {
    ChainBounds(h, a);
    if h.hdrs[a].size != 0 {
      LiveIsInUse(h, Next(h, a), x);
      ChainBounds(h, Next(h, a));
    }
  }

  // Headers from address a on decide about the chain from a.
  lemma {:induction false} TilesLocal(h: Heap, h': Heap, a: nat)
    requires Tiles(h, a) && h'.end == h.end
    requires forall x: nat :: a <= x && x in Chain(h, a) ==> x in h'.hdrs && x in h.hdrs && h'.hdrs[x] == h.hdrs[x]
    ensures Tiles(h', a) && Chain(h', a) == Chain(h, a)
    decreases h.end - a
  {
    assert a in Chain(h, a);
    if h.hdrs[a].size != 0 {
      ChainBounds(h, Next(h, a));
      TilesLocal(h, h', Next(h, a));
    }
  }

  // Changing what a header says beside the size.
  lemma {:induction false} ReplaceEffect(h: Heap, a: nat, c: nat, hdr: Header)
    requires Tiles(h, a) && c in Chain(h, a) && c in h.hdrs && hdr.size == h.hdrs[c].size
    requires hdr.size == 0 ==> hdr.inUse
    ensures Tiles(Replace(h, c, hdr), a) && Chain(Replace(h, c, hdr), a) == Chain(h, a)
    decreases h.end - a
  {
    var h' := Replace(h, c, hdr);
    if h.hdrs[a].size != 0 {
      var next := Next(h, a);
      ChainBounds(h, next);
      if a == c { TilesLocal(h, h', next); } else { ReplaceEffect(h, next, c, hdr); }
    }
  }

  lemma TailInUse(h: Heap, c: nat)
    requires HeapOk(h) && c in h.hdrs
    ensures h.hdrs[c].size == 0 ==> h.hdrs[c].inUse
  {
    hide Chain;
    ChainBounds(h, START);
    assert Tiles(h, c);
  }

  // ----- malloc

  // The headers after a split without wrap-around.
  lemma SplitHeaders(h: Heap, c: nat, n: nat)
    requires c in h.hdrs && n + 24 < h.hdrs[c].size && Next(h, c) <= 0x1_0000_0000_0000_0000
    ensures var h', rest := Split(h, c, n), c + n + 24;
      && h'.end == h.end
      && c in h'.hdrs && h'.hdrs[c] == Header(true, n, h.hdrs[c].sizePrev)
      && rest in h'.hdrs && h'.hdrs[rest] == Header(false, h.hdrs[c].size - n - 24, n)
      && (forall x: nat :: x in h.hdrs && (x + 24 <= c || Next(h, c) <= x) ==>
        x in h'.hdrs && h'.hdrs[x] == h.hdrs[x])
      && h'.hdrs.Keys <= h.hdrs.Keys + {rest}
  {
  }

  // When the chunk is larger than the block and one more header, splitting keeps the tiling and
  // adds exactly the new block to the live ones.
  lemma {:induction false} SplitEffect(h: Heap, a: nat, c: nat, n: nat)
    requires Tiles(h, a) && c in Chain(h, a) && c in h.hdrs && h.end <= 0x1_0000_0000_0000_0000
    requires 0 < n && n + 24 < h.hdrs[c].size
    ensures var h' := Split(h, c, n);
      Tiles(h', a) && Chain(h', a) == Chain(h, a) + {c + n + 24}
    decreases h.end - a
  {
    hide Split, Write, Suits;
    var h', rest := Split(h, c, n), c + n + 24;
    ChainBounds(h, a);
    SplitHeaders(h, c, n);
    var next := Next(h, a);
    ChainBounds(h, next);
    if a == c {
      TilesLocal(h, h', next);
      assert Next(h', rest) == next && Next(h', a) == rest;
      assert Tiles(h', rest) && Chain(h', rest) == {rest} + Chain(h, next);
    } else {
      SplitEffect(h, next, c, n);
    }
  }

  lemma SplitOk(h: Heap, c: nat, n: nat)
    requires HeapOk(h) && c in h.hdrs && 0 < n && n + 24 < h.hdrs[c].size
    ensures HeapOk(Split(h, c, n))
    ensures Live(Split(h, c, n), START) == Live(h, START) - Here(h.hdrs[c], c) + {Block(c + 24, n)}
  {
    hide Split, Write, Suits, Chain, Tiles, Live;
    SplitEffect(h, START, c, n);
    ChainBounds(h, START);
    SplitHeaders(h, c, n);
    var h', rest := Split(h, c, n), c + n + 24;
    forall x: nat | x in h.hdrs && x != c ensures x in h'.hdrs && h'.hdrs[x] == h.hdrs[x] {
      if x < c { ChainOrder(h, START, x, c); } else { ChainOrder(h, START, c, x); }
    }
    if rest in h.hdrs { ChainOrder(h, START, c, rest); }
    forall x ensures x in Live(h', START) <==> x in Live(h, START) - Here(h.hdrs[c], c) + {Block(c + 24, n)} {
      SplitLive(h, h', x, c, n);
    }
  }

  lemma SplitLive(h: Heap, h': Heap, x: Block, c: nat, n: nat)
    requires Tiles(h, START) && Tiles(h', START) && h.hdrs.Keys == Chain(h, START)
    requires c in h.hdrs && c in h'.hdrs && h.hdrs[c].size != 0 && 0 < n
    requires Chain(h', START) == h.hdrs.Keys + {c + n + 24}
    requires h'.hdrs[c].inUse && h'.hdrs[c].size == n
    requires c + n + 24 in h'.hdrs && !h'.hdrs[c + n + 24].inUse && c + n + 24 !in h.hdrs
    requires forall y: nat :: y in h.hdrs && y != c ==> y in h'.hdrs && h'.hdrs[y] == h.hdrs[y]
    ensures x in Live(h', START) <==> x in Live(h, START) - Here(h.hdrs[c], c) + {Block(c + 24, n)}
  {
    hide Tiles, Chain, Live;
    LiveIsInUse(h, START, x);
    LiveIsInUse(h', START, x);
  }

  // The headers after pages are appended without wrap-around.
  lemma ExtendHeaders(h: Heap, c: nat, bytes: nat)
    requires c in h.hdrs && 24 < bytes && c + bytes + 24 <= 0x1_0000_0000_0000_0000
    ensures var h' := Extend(h, c, bytes);
      && h'.end == h.end + bytes
      && c in h'.hdrs && h'.hdrs[c] == h.hdrs[c].(size := bytes - 24)
      && c + bytes in h'.hdrs && h'.hdrs[c + bytes] == Header(true, 0, bytes - 24)
      && (forall x: nat :: x in h.hdrs && x + 24 <= c ==> x in h'.hdrs && h'.hdrs[x] == h.hdrs[x])
      && h'.hdrs.Keys <= h.hdrs.Keys + {c + bytes}
  {
  }

  // Appending pages at the tail: one more chunk, which holds what the old tail was marked as.
  lemma {:induction false} ExtendEffect(h: Heap, a: nat, c: nat, bytes: nat)
    requires Tiles(h, a) && c in Chain(h, a) && c in h.hdrs && h.hdrs[c].size == 0
    requires 24 < bytes && h.end + bytes <= 0x1_0000_0000_0000_0000
    ensures c + 24 == h.end
    ensures var h' := Extend(h, c, bytes);
      Tiles(h', a) && Chain(h', a) == Chain(h, a) + {c + bytes}
    decreases h.end - a
  {
    hide Extend, Write, Suits;
    var h' := Extend(h, c, bytes);
    ChainBounds(h, a);
    ExtendHeaders(h, c, bytes);
    if a == c {
      assert c + 24 == h.end && h'.hdrs[c].inUse;
      assert Next(h', c) == c + bytes && Tiles(h', c + bytes);
      assert Chain(h', c) == {c} + Chain(h', c + bytes);
    } else {
      ExtendEffect(h, Next(h, a), c, bytes);
      ChainBounds(h, Next(h, a));
    }
  }

  lemma ExtendOk(h: Heap, c: nat, bytes: nat)
    requires HeapOk(h) && c in h.hdrs && h.hdrs[c].size == 0
    requires 24 < bytes && bytes % 0x1000 == 0 && h.end + bytes <= 0x1_0000_0000_0000_0000
    ensures HeapOk(Extend(h, c, bytes)) && c + 24 == h.end
    ensures Live(Extend(h, c, bytes), START) == Live(h, START) + {Block(c + 24, bytes - 24)}
  {
    hide Extend, Write, Suits, Chain, Tiles, Live;
    ExtendEffect(h, START, c, bytes);
    ChainBounds(h, START);
    ExtendHeaders(h, c, bytes);
    var h' := Extend(h, c, bytes);
    TailInUse(h, c);
    forall x: nat | x in h.hdrs && x != c ensures x in h'.hdrs && h'.hdrs[x] == h.hdrs[x] {
      if x < c { ChainOrder(h, START, x, c); } else { ChainOrder(h, START, c, x); }
    }
    ExtendLives(h, h', c, bytes);
  }

  lemma ExtendLives(h: Heap, h': Heap, c: nat, bytes: nat)
    requires Tiles(h, START) && Tiles(h', START) && h.hdrs.Keys == Chain(h, START) && 24 < bytes
    requires c in h.hdrs && h.hdrs[c].size == 0 && Chain(h', START) == h.hdrs.Keys + {c + bytes}
    requires c in h'.hdrs && h'.hdrs[c].inUse && h'.hdrs[c].size == bytes - 24
    requires c + bytes in h'.hdrs && h'.hdrs[c + bytes].size == 0
    requires forall y: nat :: y in h.hdrs && y != c ==> y in h'.hdrs && h'.hdrs[y] == h.hdrs[y]
    ensures Live(h', START) == Live(h, START) + {Block(c + 24, bytes - 24)}
  {
    hide Tiles, Chain, Live;
    forall x ensures x in Live(h', START) <==> x in Live(h, START) + {Block(c + 24, bytes - 24)} {
      ExtendLive(h, h', x, c, bytes);
    }
  }

  lemma ExtendLive(h: Heap, h': Heap, x: Block, c: nat, bytes: nat)
    requires Tiles(h, START) && Tiles(h', START) && h.hdrs.Keys == Chain(h, START) && 24 < bytes
    requires c in h.hdrs && h.hdrs[c].size == 0 && Chain(h', START) == h.hdrs.Keys + {c + bytes}
    requires c in h'.hdrs && h'.hdrs[c].inUse && h'.hdrs[c].size == bytes - 24
    requires c + bytes in h'.hdrs && h'.hdrs[c + bytes].size == 0
    requires forall y: nat :: y in h.hdrs && y != c ==> y in h'.hdrs && h'.hdrs[y] == h.hdrs[y]
    ensures x in Live(h', START) <==> x in Live(h, START) + {Block(c + 24, bytes - 24)}
  {
    hide Tiles, Chain, Live;
    LiveIsInUse(h, START, x);
    LiveIsInUse(h', START, x);
  }

  // The chunk found is larger than the block and one more header; or the appended pages are larger
  // than the block and two of them.
  ghost predicate Roomy(h: Heap, n: Word)
    requires Tiles(h, START)
  {
    var hdr := h.hdrs[Find(h, START, Want(n))];
    if hdr.size != 0 then n + 24 < hdr.size else n + 48 < Appended(Want(n))
  }

  ghost predicate NothingSuits(h: Heap, want: nat) {
    forall c: nat :: c in h.hdrs && h.hdrs[c].size != 0 ==> h.hdrs[c].inUse || h.hdrs[c].size < want
  }

  // The pages that the request appends lie in the address space.
  ghost predicate Mappable(h: Heap, n: Word)
    requires Tiles(h, START)
  {
    h.hdrs[Find(h, START, Want(n))].size == 0 ==> h.end + Appended(Want(n)) <= 0x1_0000_0000_0000_0000
  }

  // A heap with one more live block, of n bytes after the header at c.
  ghost predicate Gains(h: Heap, h': Heap, c: nat, n: nat)
    requires Tiles(h, START)
  {
    HeapOk(h') && Live(h', START) == Live(h, START) + {Block(c + 24, n)}
  }

  // A block of a well-formed heap is followed by a header.
  lemma AfterBlock(h: Heap, c: nat, n: nat)
    requires HeapOk(h) && Block(c + 24, n) in Live(h, START)
    ensures c in h.hdrs && h.hdrs[c].inUse && h.hdrs[c].size == n
    ensures var rest := c + n + 24;
      && rest + 24 <= h.end && rest in h.hdrs && rest + h.hdrs[rest].size + 24 <= h.end
      && (h.hdrs[rest].size == 0 ==> h.hdrs[rest].inUse)
  {
    LiveIsInUse(h, START, Block(c + 24, n));
    ChainNext(h, START, c);
    ChainBounds(h, START);
    assert Tiles(h, c + n + 24);
  }

  lemma RestHeader(h: Heap, c: nat, n: nat)
    requires c in h.hdrs && c + n + 24 < 0x1_0000_0000_0000_0000
    ensures var h', rest := Split(h, c, n), c + n + 24;
      rest in h'.hdrs && h'.hdrs[rest] == Header(false, (h.hdrs[c].size - n - 24) % 0x1_0000_0000_0000_0000, n)
  {
  }

  lemma AppendedIs(want: Word)
    ensures Appended(want) % 0x1000 == 0
    ensures want + 0xfff < 0x1_0000_0000_0000_0000 ==> want <= Appended(want) < want + 0x1000
    ensures want + 0xfff >= 0x1_0000_0000_0000_0000 ==> Appended(want) == 0
    ensures Appended(want) == (want + 0xfff) % 0x1_0000_0000_0000_0000 / 0x1000 * 0x1000
  {
    hide And;
    var x := (want + 0xfff) % 0x1_0000_0000_0000_0000;
    PageMask(x);
    WholePages(x);
  }

  lemma WholePages(x: nat)
    ensures (x - x % 0x1000) / 0x1000 * 0x1000 == x - x % 0x1000
  {
  }

  // Whatever the split writes, a well-formed result shows that the chunk was roomy.
  lemma SplitNeedsRoom(h: Heap, c: nat, n: nat)
    requires c in h.hdrs && c >= START
    requires HeapOk(Split(h, c, n)) && Block(c + 24, n) in Live(Split(h, c, n), START)
    ensures n + 24 < h.hdrs[c].size || h.hdrs[c].size >= 0x1_0000_0000_0000_0000
  {
    hide Split, Live, Chain;
    AfterBlock(Split(h, c, n), c, n);
    RestHeader(h, c, n);
  }

  lemma ExtendSize(h: Heap, c: nat, bytes: nat)
    requires c in h.hdrs && bytes % 0x1000 == 0 && c + bytes + 24 <= 0x1_0000_0000_0000_0000
    ensures var h' := Extend(h, c, bytes); c in h'.hdrs && h'.hdrs[c].size == if bytes == 0 then 0 else bytes - 24
  {
    if bytes != 0 { ExtendHeaders(h, c, bytes); }
  }

  lemma FitEffect(h: Heap, n: Word)
    requires HeapOk(h) && 0 < n && h.hdrs[Find(h, START, Want(n))].size != 0
    ensures var c := Find(h, START, Want(n));
      Gains(h, Split(h, c, n), c, n) <==> n + 24 < h.hdrs[c].size
  {
    hide Split, Live, Chain;
    var c := Find(h, START, Want(n));
    ChainBounds(h, START);
    if Gains(h, Split(h, c, n), c, n) {
      SplitNeedsRoom(h, c, n);
    }
    if n + 24 < h.hdrs[c].size {
      SplitOk(h, c, n);
    }
  }

  lemma AppendEffect(h: Heap, n: Word)
    requires HeapOk(h) && 0 < n && h.hdrs[Find(h, START, Want(n))].size == 0 && Mappable(h, n)
    ensures var c := Find(h, START, Want(n)); c + 24 == h.end
    ensures var c, bytes := Find(h, START, Want(n)), Appended(Want(n));
      c in Extend(h, c, bytes).hdrs && (Gains(h, Split(Extend(h, c, bytes), c, n), c, n) <==> n + 48 < bytes)
  {
    hide Split, Extend, Live, Chain, Appended;
    var c, bytes := Find(h, START, Want(n)), Appended(Want(n));
    var h1 := Extend(h, c, bytes);
    ChainBounds(h, START);
    assert Tiles(h, c);
    AppendedIs(Want(n));
    ExtendSize(h, c, bytes);
    if Gains(h, Split(h1, c, n), c, n) {
      SplitNeedsRoom(h1, c, n);
    }
    if n + 48 < bytes {
      ExtendOk(h, c, bytes);
      SplitOk(h1, c, n);
      ExtendHeaders(h, c, bytes);
      FreshBlock(h, c, bytes - 24);
      assert Here(h1.hdrs[c], c) == {Block(c + 24, bytes - 24)};
    }
  }

  // A chunk that is free, or the tail, holds no live block.
  lemma FreshBlock(h: Heap, c: nat, n: nat)
    requires HeapOk(h) && c in h.hdrs && (!h.hdrs[c].inUse || h.hdrs[c].size == 0)
    ensures Block(c + 24, n) !in Live(h, START)
  {
    LiveIsInUse(h, START, Block(c + 24, n));
  }

  lemma NewBlockApart(h: Heap, h': Heap, c: nat, n: nat)
    requires HeapOk(h) && Gains(h, h', c, n) && Block(c + 24, n) !in Live(h, START)
    ensures forall x :: x in Live(h, START) ==> Apart(x, Block(c + 24, n))
  {
    hide Chain, Live;
    LiveApart(h', START);
    assert Block(c + 24, n) in Live(h', START);
  }

  /** malloc keeps the heap tiled and adds exactly the block it returns, apart from all others, if
      and only if the chunk was roomy: an exact fit, a request that wraps around, and pages that
      leave no more than one header spare all break the chain.  It fails, changing nothing, only for
      an empty request or when no free chunk is large enough and the heap has passed its limit. */
  lemma MallocEffect(h: Heap, n: Word)
    requires HeapOk(h) && Mappable(h, n)
    ensures var (h', r) := AfterMalloc(h, n);
      && (r.None? <==>
          n == 0 || (h.end > 0xffff_8102_0000_0000 && NothingSuits(h, (n + 24) % 0x1_0000_0000_0000_0000)))
      && (r.None? ==> h' == h)
      && (r.Some? ==> (Gains(h, h', r.value, n) <==> Roomy(h, n)))
      && (r.Some? && Roomy(h, n) ==> forall x :: x in Live(h, START) ==> Apart(x, Block(r.value + 24, n)))
  {
    if n != 0 {
      hide Split, Extend, Live, Chain, Appended, Find, Tiles, Suits, Want, HeapOk, Gains;
      var c := Find(h, START, Want(n));
      SearchFails(h, Want(n));
      if h.hdrs[c].size != 0 { FitEffect(h, n); } else { AppendEffect(h, n); }
      FreshBlock(h, c, n);
      var (h', r) := AfterMalloc(h, n);
      if r.Some? && Roomy(h, n) {
        NewBlockApart(h, h', c, n);
      }
    }
  }

  /** Only the start of an append is checked against the limit: while the heap ends at or below it, a
      request that no chunk suits appends pages, and stays within the limit if and only if the wanted
      size does, or wraps around when it is aligned to pages. */
  lemma GrowthIff(h: Heap, n: Word)
    requires HeapOk(h) && Mappable(h, n) && 0 < n && h.end <= 0xffff_8102_0000_0000
    requires NothingSuits(h, (n + 24) % 0x1_0000_0000_0000_0000)
    ensures var (h', r), want := AfterMalloc(h, n), (n + 24) % 0x1_0000_0000_0000_0000;
      && r.Some? && h'.end == h.end + (want + 0xfff) % 0x1_0000_0000_0000_0000 / 0x1000 * 0x1000
      && (h'.end <= 0xffff_8102_0000_0000 <==>
          h.end + want <= 0xffff_8102_0000_0000 || want + 0xfff >= 0x1_0000_0000_0000_0000)
  {
    hide Chain, Live, Appended, Suits, Find, Split, NothingSuits, Tiles;
    SearchFails(h, Want(n));
    AppendEffect(h, n);
    AppendedIs(Want(n));
    SplitEnd(Extend(h, Find(h, START, Want(n)), Appended(Want(n))), Find(h, START, Want(n)), n);
    if Want(n) + 0xfff < 0x1_0000_0000_0000_0000 {
      LimitPages(h.end, Want(n), Appended(Want(n)));
    }
  }

  lemma SplitEnd(h: Heap, c: nat, n: nat)
    requires c in h.hdrs
    ensures Split(h, c, n).end == h.end
  {
  }

  lemma LimitPages(end: nat, want: nat, bytes: nat)
    requires end % 0x1000 == 0 && end <= LIMIT && bytes % 0x1000 == 0 && want <= bytes < want + 0x1000
    ensures end + bytes <= LIMIT <==> end + want <= LIMIT
  {
  }

  // The search ends at the tail exactly when no chunk will do.
  lemma SearchFails(h: Heap, want: Word)
    requires HeapOk(h)
    ensures var c := Find(h, START, want);
      h.hdrs[c].size == 0 <==> NothingSuits(h, want)
  {
    hide Live, Chain;
    var c := Find(h, START, want);
    ChainBounds(h, START);
    if h.hdrs[c].size == 0 {
      assert Tiles(h, c);
    }
  }

  // _malloc_init sets up a well-formed heap without blocks.
  lemma InitOk()
    ensures HeapOk(Init()) && Live(Init(), START) == {} && Init().end <= 0xffff_8102_0000_0000
    ensures Init() == OneFreeChunk(4048)
  {
    var h, tail := Init(), START + 0x1000 - 24;
    assert Next(h, START) == tail && Tiles(h, tail);
    assert Chain(h, tail) == {tail} && Live(h, tail) == {};
    assert h.hdrs.Keys == {START, tail};
  }

  // One page with a free chunk of 4048 bytes and the tail, which links back by the given size.
  function OneFreeChunk(link: nat): Heap {
    Heap(map[0xffff_8100_0000_0000 := Header(false, 4048, 0), 0xffff_8100_0000_0fe8 := Header(true, 0, link)],
         0xffff_8100_0000_1000)
  }

  // A request that fits the first chunk exactly breaks the heap.
  lemma ExactFitBreaksTheHeap()
    ensures HeapOk(Init()) && Mappable(Init(), 4024)
    ensures var (h', r) := AfterMalloc(Init(), 4024); r == Some(START) && !Gains(Init(), h', START, 4024)
  {
    InitOk();
    assert Find(Init(), START, Want(4024)) == START;
    MallocEffect(Init(), 4024);
  }

  // ----- mfree

  lemma AbsorbHere(h: Heap, x: nat)
    requires Tiles(h, x) && h.end <= 0x1_0000_0000_0000_0000 && h.hdrs[x].size != 0
    requires Next(h, x) in h.hdrs && h.hdrs[Next(h, x)].size != 0
    ensures var h', y := Absorb(h, x, Next(h, x)), Next(h, x);
      Tiles(h', x) && Chain(h', x) == Chain(h, x) - {y} && x in h'.hdrs && Next(h', x) == Next(h, y)
  {
    var y, h' := Next(h, x), Absorb(h, x, Next(h, x));
    var next := Next(h, y);
    ChainBounds(h, next);
    TilesLocal(h, h', next);
    assert Next(h', x) == next;
    assert Chain(h, y) == {y} + Chain(h, next);
  }

  // A chunk takes over the free one after it.
  lemma {:induction false} AbsorbEffect(h: Heap, a: nat, x: nat)
    requires Tiles(h, a) && h.end <= 0x1_0000_0000_0000_0000
    requires x in Chain(h, a) && x in h.hdrs && h.hdrs[x].size != 0 && !h.hdrs[x].inUse
    requires Next(h, x) in h.hdrs && h.hdrs[Next(h, x)].size != 0 && !h.hdrs[Next(h, x)].inUse
    ensures var h', y := Absorb(h, x, Next(h, x)), Next(h, x);
      && Tiles(h', a) && Chain(h', a) == Chain(h, a) - {y}
      && x in h'.hdrs && Next(h', x) == Next(h, y) && !h'.hdrs[x].inUse && h'.hdrs[x].size != 0
    decreases h.end - a
  {
    var y := Next(h, x);
    var h' := Absorb(h, x, y);
    ChainBounds(h, a);
    ChainNext(h, a, x);
    ChainNext(h, a, y);
    ChainBounds(h, Next(h, a));
    if a == x {
      AbsorbHere(h, x);
    } else {
      AbsorbEffect(h, Next(h, a), x);
    }
  }

  lemma AbsorbOk(h: Heap, x: nat)
    requires HeapOk(h) && x in h.hdrs && h.hdrs[x].size != 0 && !h.hdrs[x].inUse
    requires Next(h, x) in h.hdrs && h.hdrs[Next(h, x)].size != 0 && !h.hdrs[Next(h, x)].inUse
    ensures var h', y := Absorb(h, x, Next(h, x)), Next(h, x);
      && HeapOk(h') && Live(h', START) == Live(h, START)
      && x in h'.hdrs && Next(h', x) == Next(h, y) && Next(h, y) in h'.hdrs
      && !h'.hdrs[x].inUse && h'.hdrs[x].size != 0
  {
    hide Tiles, Chain, Live;
    AbsorbEffect(h, START, x);
    ChainNext(h, START, Next(h, x));
    forall b ensures b in Live(Absorb(h, x, Next(h, x)), START) <==> b in Live(h, START) {
      LiveIsInUse(h, START, b);
      LiveIsInUse(Absorb(h, x, Next(h, x)), START, b);
    }
  }

  lemma ReplaceOk(h: Heap, c: nat, hdr: Header)
    requires HeapOk(h) && c in h.hdrs && hdr.size == h.hdrs[c].size && (hdr.size == 0 ==> hdr.inUse)
    ensures HeapOk(Replace(h, c, hdr))
    ensures Live(Replace(h, c, hdr), START) == Live(h, START) - Here(h.hdrs[c], c) + Here(hdr, c)
    ensures Here(h.hdrs[c], c) <= Live(h, START)
  {
    hide Tiles, Chain, Live;
    ReplaceEffect(h, START, c, hdr);
    var h' := Replace(h, c, hdr);
    forall x ensures x in Live(h', START) <==> x in Live(h, START) - Here(h.hdrs[c], c) + Here(hdr, c) {
      LiveIsInUse(h, START, x);
      LiveIsInUse(h', START, x);
    }
    LiveIsInUse(h, START, Block(c + 24, hdr.size));
  }

  // Merging a free chunk with the next one never harms.
  lemma MergeForwardOk(h: Heap, a: nat, found: Header)
    requires HeapOk(h) && a in h.hdrs && h.hdrs[a].size != 0 && !h.hdrs[a].inUse
    ensures var r := MergeForward(h, a, found);
      r.Some? && HeapOk(r.value) && Live(r.value, START) == Live(h, START)
  {
    hide Tiles, Chain, Live, Absorb, Replace;
    ChainNext(h, START, a);
    var next := Next(h, a);
    if !h.hdrs[next].inUse && h.hdrs[next].size != 0 {
      AbsorbOk(h, a);
      var h1, nn := Absorb(h, a, next), Next(h, next);
      TailInUse(h1, nn);
      ReplaceOk(h1, nn, h1.hdrs[nn].(sizePrev := h.hdrs[next].size));
    }
  }

  // What mfree finds before the block, within the heap: nothing to merge with, or the free chunk
  // before it.
  predicate Reaches(h: Heap, c: nat, found: Header)
    requires c in h.hdrs
  {
    var p := Prev(h, c);
    || h.hdrs[c].sizePrev == 0
    || (START <= p && Read(h, p, found).inUse)
    || (p in h.hdrs && h.hdrs[p].size == h.hdrs[c].size)
  }

  // The step back does not wrap around.
  lemma PrevIs(h: Heap, c: nat)
    requires HeapOk(h) && c in h.hdrs
    ensures Prev(h, c) == c - h.hdrs[c].size - 24 < c
    ensures Prev(h, c) in h.hdrs ==> Next(h, Prev(h, c)) <= c
  {
    hide Tiles, Chain;
    ChainBounds(h, START);
    if Prev(h, c) in h.hdrs { ChainOrder(h, START, Prev(h, c), c); }
  }

  // Merging back with a chunk of the right size.
  lemma BackOk(h: Heap, c: nat, found: Header)
    requires HeapOk(h) && c in h.hdrs && h.hdrs[c].size != 0 && !h.hdrs[c].inUse && Reaches(h, c, found)
    ensures var r := MergeBack(h, c, found);
      && r.Some? && HeapOk(r.value.0) && Live(r.value.0, START) == Live(h, START)
      && !r.value.0.hdrs[r.value.1].inUse && r.value.0.hdrs[r.value.1].size != 0
  {
    hide Tiles, Chain, Live, Absorb, Prev;
    ChainBounds(h, START);
    if h.hdrs[c].sizePrev != 0 && !(START <= Prev(h, c) && Read(h, Prev(h, c), found).inUse) {
      PrevIs(h, c);
      AbsorbOk(h, Prev(h, c));
    }
  }

  // Merging back with a chunk of another size leads into the middle of the freed chunk: either the
  // bytes there are merged, or the chain ends there.
  lemma BackLost(h: Heap, c: nat, found: Header)
    requires HeapOk(h) && c in h.hdrs && h.hdrs[c].size != 0 && !Reaches(h, c, found)
    ensures var r := MergeBack(h, c, found);
      r.Some? ==> var r2 := MergeForward(r.value.0, r.value.1, found); r2.Some? ==> !HeapOk(r2.value)
  {
    hide Tiles, Chain, Live;
    PrevIs(h, c);
    ChainBounds(h, START);
    var p := Prev(h, c);
    if p in h.hdrs {
      var h1, inside := Absorb(h, p, c), c + h.hdrs[p].size + 24;
      if inside in h.hdrs { ChainOrder(h, START, c, inside); }
      assert Next(h1, p) == inside && inside !in h1.hdrs;
      if HeapOk(h1) { ChainNext(h1, START, p); }
    }
  }

  // After the step back the next header, or what is taken for it, lies in the heap.
  lemma BackBound(h: Heap, c: nat, found: Header)
    requires HeapOk(h) && c in h.hdrs && h.hdrs[c].inUse && h.hdrs[c].size != 0
    ensures START <= c < h.end && Prev(h, c) < h.end
    ensures var r := MergeBack(Replace(h, c, h.hdrs[c].(inUse := false)), c, found);
      r.Some? ==> START <= Next(r.value.0, r.value.1) < h.end == r.value.0.end
  {
    hide Tiles, Chain, Live;
    ChainBounds(h, START);
    ChainNext(h, START, c);
    assert Next(h, c) + 24 <= h.end;
    PrevIs(h, c);
  }

  // A heap without the live block whose header is at c.
  ghost predicate Loses(h: Heap, h': Heap, c: nat)
    requires Tiles(h, START) && c in h.hdrs
  {
    HeapOk(h') && Live(h', START) == Live(h, START) - {Block(c + 24, h.hdrs[c].size)}
  }

  /** mfree of a live block merges and writes real chunks only, keeps the heap tiled and takes exactly
      this block from the live ones, if and only if it does not step back, or the address one block
      size before the header lies in the heap and reads as in use, or it is the header of a free chunk
      of the same size. */
  lemma MfreeEffect(h: Heap, c: nat, found: Header)
    requires HeapOk(h) && c in h.hdrs && h.hdrs[c].inUse && h.hdrs[c].size != 0
    ensures var r := AfterMfree(h, c, found);
      Reaches(h, c, found) <==> r.Some? && Loses(h, r.value, c)
  {
    hide Tiles, Chain, Live, Absorb, MergeForward, MergeBack;
    var free := h.hdrs[c].(inUse := false);
    var h0 := Replace(h, c, free);
    ReplaceOk(h, c, free);
    ChainBounds(h0, START);
    PrevIs(h, c);
    if Reaches(h, c, found) {
      BackOk(h0, c, found);
      var back := MergeBack(h0, c, found).value;
      MergeForwardOk(back.0, back.1, found);
    } else {
      BackLost(h0, c, found);
    }
  }

  // ----- what mfree and malloc leave, in values

  // The chunk at c is freed: it joins the free chunk of its own size before it, if the code steps
  // back there, and the free chunk after it; the header behind that one gets the size of the
  // chunk that went as its link.  All other headers stay.
  ghost predicate Joined(h: Heap, h': Heap, c: nat)
    requires c in h.hdrs
  {
    var p, next := c - h.hdrs[c].size - 24, c + 24 + h.hdrs[c].size;
    var back := h.hdrs[c].sizePrev != 0 && 0 <= p && p in h.hdrs && !h.hdrs[p].inUse;
    && next in h.hdrs
    && var ahead := !h.hdrs[next].inUse && h.hdrs[next].size != 0;
    var a, behind := if back then p else c, next + 24 + h.hdrs[next].size;
    && h'.end == h.end
    && h'.hdrs.Keys == h.hdrs.Keys - (if back then {c} else {}) - (if ahead then {next} else {})
    && a in h'.hdrs
    && h'.hdrs[a] == Header(false, h.hdrs[c].size + (if back then h.hdrs[p].size + 24 else 0) +
                                   (if ahead then h.hdrs[next].size + 24 else 0), h.hdrs[a].sizePrev)
    && (ahead ==>
      behind in h.hdrs && behind in h'.hdrs &&
      h'.hdrs[behind] == Header(h.hdrs[behind].inUse, h.hdrs[behind].size, h.hdrs[next].size))
    && forall x: nat :: x in h'.hdrs && x != a && !(ahead && x == behind) ==> h'.hdrs[x] == h.hdrs[x]
  }

  lemma BackLeaves(h: Heap, c: nat, found: Header)
    requires HeapOk(h) && c in h.hdrs && h.hdrs[c].size != 0 && !h.hdrs[c].inUse && Reaches(h, c, found)
    ensures var r, p := MergeBack(h, c, found), c - h.hdrs[c].size - 24;
      && r.Some? && r.value.0.end == h.end
      && if h.hdrs[c].sizePrev != 0 && 0 <= p && p in h.hdrs && !h.hdrs[p].inUse then
           r.value.1 == p && Next(h, p) == c &&
           r.value.0.hdrs ==
             (h.hdrs - {c})[p := Header(false, h.hdrs[p].size + h.hdrs[c].size + 24, h.hdrs[p].sizePrev)]
         else r.value == (h, c)
  {
    hide Tiles, Chain;
    ChainBounds(h, START);
    PrevIs(h, c);
  }

  lemma ForwardLeaves(h: Heap, a: nat, found: Header)
    requires HeapOk(h) && a in h.hdrs && h.hdrs[a].size != 0 && !h.hdrs[a].inUse
    ensures var next := a + 24 + h.hdrs[a].size;
      && next in h.hdrs && MergeForward(h, a, found).Some? && MergeForward(h, a, found).value.end == h.end
      && var behind := next + 24 + h.hdrs[next].size;
      if h.hdrs[next].inUse || h.hdrs[next].size == 0 then MergeForward(h, a, found).value.hdrs == h.hdrs
      else
        && behind in h.hdrs && behind != a && behind != next
        && MergeForward(h, a, found).value.hdrs ==
           (h.hdrs - {next})[a := Header(false, h.hdrs[a].size + h.hdrs[next].size + 24, h.hdrs[a].sizePrev)]
             [behind := Header(h.hdrs[behind].inUse, h.hdrs[behind].size, h.hdrs[next].size)]
  {
    hide Tiles, Chain;
    ChainBounds(h, START);
    ChainNext(h, START, a);
    var next := Next(h, a);
    if h.hdrs[next].size != 0 { ChainNext(h, START, next); }
  }

  // Both merges together.
  lemma JoinLeaves(h: Heap, h1: Heap, h': Heap, c: nat, a: nat)
    requires c in h.hdrs && h'.end == h1.end == h.end
    requires var p := c - h.hdrs[c].size - 24;
      if h.hdrs[c].sizePrev != 0 && 0 <= p && p in h.hdrs && !h.hdrs[p].inUse then
        a == p && a + h.hdrs[a].size + 24 == c &&
        h1.hdrs == (h.hdrs - {c})[a := Header(false, h.hdrs[a].size + h.hdrs[c].size + 24, h.hdrs[a].sizePrev)]
      else a == c && h1.hdrs == h.hdrs[c := Header(false, h.hdrs[c].size, h.hdrs[c].sizePrev)]
    requires var next := c + 24 + h.hdrs[c].size;
      && next in h.hdrs && next in h1.hdrs
      && var behind := next + 24 + h.hdrs[next].size;
      if h.hdrs[next].inUse || h.hdrs[next].size == 0 then h'.hdrs == h1.hdrs
      else
        && behind in h1.hdrs
        && h'.hdrs ==
           (h1.hdrs - {next})[a := Header(false, h1.hdrs[a].size + h.hdrs[next].size + 24, h1.hdrs[a].sizePrev)]
             [behind := Header(h.hdrs[behind].inUse, h.hdrs[behind].size, h.hdrs[next].size)]
    ensures Joined(h, h', c)
  {
  }

  /** What mfree of a live block leaves under the condition of MfreeEffect, header by header. */
  lemma MfreeLeaves(h: Heap, c: nat, found: Header)
    requires HeapOk(h) && c in h.hdrs && h.hdrs[c].inUse && h.hdrs[c].size != 0 && Reaches(h, c, found)
    ensures AfterMfree(h, c, found).Some? && Joined(h, AfterMfree(h, c, found).value, c)
  {
    hide Tiles, Chain, Live, MergeForward, MergeBack, Reaches, Prev, Joined;
    var h0 := Replace(h, c, h.hdrs[c].(inUse := false));
    ReplaceOk(h, c, h.hdrs[c].(inUse := false));
    FreedReaches(h, c, found);
    ChainBounds(h, START);
    BackLeaves(h0, c, found);
    BackOk(h0, c, found);
    var (h1, a) := MergeBack(h0, c, found).value;
    ForwardLeaves(h1, a, found);
    assert a != c ==> h1.hdrs == (h.hdrs - {c})[a := h1.hdrs[a]];
    JoinLeaves(h, h1, AfterMfree(h, c, found).value, c, a);
  }

  // Clearing its mark does not change what the chunk finds before it.
  lemma FreedReaches(h: Heap, c: nat, found: Header)
    requires HeapOk(h) && c in h.hdrs && Reaches(h, c, found)
    ensures Reaches(Replace(h, c, h.hdrs[c].(inUse := false)), c, found)
  {
    PrevIs(h, c);
  }

  // The chunk that a request of n bytes goes to: the first free one with room for the block and a
  // header, or else the tail.
  ghost predicate FirstFit(h: Heap, n: Word, c: nat) {
    && c in h.hdrs && (h.hdrs[c].size == 0 || (!h.hdrs[c].inUse && n + 24 <= h.hdrs[c].size))
    && forall x: nat :: x in h.hdrs && x < c ==>
      h.hdrs[x].size != 0 && (h.hdrs[x].inUse || h.hdrs[x].size < n + 24)
  }

  // The chunk at c becomes a block of n bytes and a free rest that links to it.  A tail first becomes
  // a chunk of appended pages, as few as hold the block and a header, with a new tail behind it.  All
  // other headers stay.
  ghost predicate Served(h: Heap, h': Heap, c: nat, n: nat)
    requires c in h.hdrs
  {
    var bytes := (n + 24 + 0xfff) / 0x1000 * 0x1000;
    var size := if h.hdrs[c].size == 0 then bytes - 24 else h.hdrs[c].size;
    && n + 24 < size
    && h'.end == h.end + (if h.hdrs[c].size == 0 then bytes else 0)
    && h'.hdrs == (if h.hdrs[c].size == 0 then h.hdrs[c + bytes := Header(true, 0, bytes - 24)] else h.hdrs)
                    [c := Header(true, n, h.hdrs[c].sizePrev)][c + 24 + n := Header(false, size - n - 24, n)]
  }

  lemma SplitLeaves(h: Heap, c: nat, n: nat)
    requires HeapOk(h) && c in h.hdrs && 0 < n && n + 24 < h.hdrs[c].size
    ensures Split(h, c, n).end == h.end
    ensures Split(h, c, n).hdrs ==
            h.hdrs[c := Header(true, n, h.hdrs[c].sizePrev)][c + 24 + n := Header(false, h.hdrs[c].size - n - 24, n)]
  {
    hide Split, Tiles, Chain;
    ChainBounds(h, START);
    SplitHeaders(h, c, n);
    forall x: nat | x in h.hdrs && x != c ensures x + 24 <= c || Next(h, c) <= x {
      if x < c { ChainOrder(h, START, x, c); } else { ChainOrder(h, START, c, x); }
    }
    assert Split(h, c, n).hdrs.Keys == h.hdrs.Keys + {c + 24 + n};
  }

  lemma ExtendLeaves(h: Heap, c: nat, bytes: nat)
    requires HeapOk(h) && c in h.hdrs && h.hdrs[c].size == 0
    requires 24 < bytes && bytes % 0x1000 == 0 && h.end + bytes <= 0x1_0000_0000_0000_0000
    ensures Extend(h, c, bytes).end == h.end + bytes
    ensures Extend(h, c, bytes).hdrs ==
            h.hdrs[c := Header(true, bytes - 24, h.hdrs[c].sizePrev)][c + bytes := Header(true, 0, bytes - 24)]
  {
    hide Extend, Tiles, Chain;
    ChainBounds(h, START);
    ExtendOk(h, c, bytes);
    ExtendHeaders(h, c, bytes);
    forall x: nat | x in h.hdrs && x != c ensures x + 24 <= c {
      if x < c { ChainOrder(h, START, x, c); } else { ChainOrder(h, START, c, x); }
    }
    TailInUse(h, c);
    assert Extend(h, c, bytes).hdrs.Keys == h.hdrs.Keys + {c + bytes};
  }

  // A roomy request does not wrap around.
  lemma FindIsFirst(h: Heap, n: Word)
    requires HeapOk(h) && 0 < n && Roomy(h, n)
    ensures Want(n) == n + 24 && FirstFit(h, n, Find(h, START, Want(n)))
  {
    hide Appended, Tiles, Chain, Find;
    var c := Find(h, START, Want(n));
    ChainBounds(h, START);
    AppendedIs(Want(n));
  }

  lemma FitLeaves(h: Heap, c: nat, n: Word)
    requires HeapOk(h) && c in h.hdrs && 0 < n && n + 24 < h.hdrs[c].size
    ensures Served(h, Split(h, c, n), c, n)
  {
    hide Split, Tiles, Chain;
    SplitLeaves(h, c, n);
  }

  lemma AppendLeaves(h: Heap, c: nat, n: Word, bytes: nat)
    requires HeapOk(h) && c in h.hdrs && h.hdrs[c].size == 0 && 0 < n && n + 48 < bytes
    requires bytes == (n + 24 + 0xfff) / 0x1000 * 0x1000 && h.end + bytes <= 0x1_0000_0000_0000_0000
    ensures c in Extend(h, c, bytes).hdrs && Served(h, Split(Extend(h, c, bytes), c, n), c, n)
  {
    hide Split, Extend, Tiles, Chain, HeapOk;
    ExtendOk(h, c, bytes);
    ExtendLeaves(h, c, bytes);
    SplitLeaves(Extend(h, c, bytes), c, n);
    assert Split(Extend(h, c, bytes), c, n).hdrs ==
      h.hdrs[c + bytes := Header(true, 0, bytes - 24)][c := Header(true, n, h.hdrs[c].sizePrev)]
        [c + 24 + n := Header(false, bytes - 24 - n - 24, n)];
  }

  /** What malloc leaves when the chunk was roomy, header by header, and where it finds it. */
  lemma MallocLeaves(h: Heap, n: Word)
    requires HeapOk(h) && Mappable(h, n) && AfterMalloc(h, n).1.Some? && Roomy(h, n)
    ensures var (h', r) := AfterMalloc(h, n);
      && FirstFit(h, n, r.value) && Served(h, h', r.value, n)
      && (h.hdrs[r.value].size == 0 ==> h.end <= 0xffff_8102_0000_0000)
  {
    hide Split, Extend, Chain, Live, Appended, Find, Tiles, FirstFit, Served;
    var c := Find(h, START, Want(n));
    FindIsFirst(h, n);
    if h.hdrs[c].size != 0 {
      FitLeaves(h, c, n);
    } else {
      AppendedIs(Want(n));
      AppendEffect(h, n);
      AppendLeaves(h, c, n, Appended(Want(n)));
    }
  }

  // One page with a block of n bytes, the free rest and the tail.
  function OneBlock(n: nat): Heap
    requires n < 4024
  {
    Heap(map[0xffff_8100_0000_0000 := Header(true, n, 0),
             0xffff_8100_0000_0018 + n := Header(false, 4024 - n, n),
             0xffff_8100_0000_0fe8 := Header(true, 0, 4048)],
         0xffff_8100_0000_1000)
  }

  lemma FirstBlockIs(n: Word)
    requires 0 < n && n + 24 < 4048
    ensures HeapOk(Init()) && Mappable(Init(), n)
    ensures AfterMalloc(Init(), n) == (OneBlock(n), Some(0xffff_8100_0000_0000)) && HeapOk(OneBlock(n))
  {
    InitOk();
    assert Find(Init(), START, Want(n)) == START;
    hide Find, Tiles, Live, Chain, Split, AfterMalloc, Init;
    FirstFound(n);
    MallocEffect(Init(), n);
    MallocLeaves(Init(), n);
    assert AfterMalloc(Init(), n).0.hdrs == OneBlock(n).hdrs;
  }

  lemma FirstFound(n: Word)
    requires 0 < n && n + 24 < 4048 && HeapOk(Init()) && Find(Init(), START, Want(n)) == START
    ensures AfterMalloc(Init(), n).1 == Some(START) && Roomy(Init(), n)
  {
    hide Find, Tiles, Chain, Split;
  }

  // Joining the only block with the rest.
  lemma JoinedFirst(h': Heap, n: nat)
    requires 0 < n < 4024 && Joined(OneBlock(n), h', 0xffff_8100_0000_0000)
    ensures h' == OneFreeChunk(4024 - n)
  {
    assert h'.hdrs.Keys == {0xffff_8100_0000_0000, 0xffff_8100_0000_0fe8};
  }

  /** The first block of the initial heap can be freed, and leaves the whole free chunk again; only
      the tail now links to the rest that was joined. */
  lemma FirstBlockIsJoined(n: Word, found: Header)
    requires 0 < n && n + 24 < 4048
    ensures HeapOk(Init()) && Mappable(Init(), n)
    ensures var (h, r) := AfterMalloc(Init(), n);
      && r == Some(0xffff_8100_0000_0000) && 0xffff_8100_0000_0000 in h.hdrs
      && AfterMfree(h, 0xffff_8100_0000_0000, found) == Some(OneFreeChunk(4024 - n))
  {
    hide HeapOk, AfterMalloc, AfterMfree, Joined, OneFreeChunk, Init, Mappable;
    FirstBlockIs(n);
    MfreeLeaves(OneBlock(n), 0xffff_8100_0000_0000, found);
    JoinedFirst(AfterMfree(OneBlock(n), 0xffff_8100_0000_0000, found).value, n);
  }

  // ----- runs

  datatype Call = Ask(n: Word) | GiveBack(c: nat, found: Header)

  // The calls that malloc and mfree are good for: a roomy request, and a live block that leads
  // back to where mfree expects.
  ghost predicate Careful(h: Heap, call: Call)
    requires HeapOk(h)
  {
    match call
    case Ask(n) => Mappable(h, n) && (AfterMalloc(h, n).1.Some? ==> Roomy(h, n))
    case GiveBack(c, found) => c in h.hdrs && h.hdrs[c].inUse && h.hdrs[c].size != 0 && Reaches(h, c, found)
  }

  function After(h: Heap, call: Call): Heap
    requires HeapOk(h) && Careful(h, call)
  {
    match call
    case Ask(n) => AfterMalloc(h, n).0
    case GiveBack(c, found) => match AfterMfree(h, c, found) case Some(h') => h' case None => h
  }

  // The live blocks as the callers know them.
  ghost function Owned(h: Heap, call: Call, live: set<Block>): set<Block>
    requires HeapOk(h) && Careful(h, call)
  {
    match call
    case Ask(n) =>
      (match AfterMalloc(h, n).1 case Some(c) => live + {Block(c + 24, n)} case None => live)
    case GiveBack(c, _) => live - {Block(c + 24, h.hdrs[c].size)}
  }

  // Each call of the run is careful, as long as the heap is well-formed.
  ghost predicate CarefulRun(h: Heap, calls: seq<Call>)
    decreases |calls|
  {
    calls != [] && HeapOk(h) ==> Careful(h, calls[0]) && CarefulRun(After(h, calls[0]), calls[1..])
  }

  // The heap and the callers' blocks after a run.
  ghost function AfterRun(h: Heap, live: set<Block>, calls: seq<Call>): (Heap, set<Block>)
    requires CarefulRun(h, calls)
    decreases |calls|
  {
    if calls == [] || !HeapOk(h) then (h, live)
    else AfterRun(After(h, calls[0]), Owned(h, calls[0], live), calls[1..])
  }

  /** Over every run of careful calls the heap stays tiled, its live blocks are exactly those handed
      out and not given back, and no two of them overlap. */
  lemma {:induction false} CarefulRunsKeepTheHeap(h: Heap, calls: seq<Call>)
    requires HeapOk(h) && CarefulRun(h, calls)
    ensures var (h', live) := AfterRun(h, Live(h, START), calls);
      HeapOk(h') && live == Live(h', START) && forall x, y :: x in live && y in live && x != y ==> Apart(x, y)
    decreases |calls|
  {
    hide AfterMalloc, AfterMfree, Live, Chain, Tiles, Roomy, Mappable, Reaches;
    if calls == [] {
      LiveApart(h, START);
    } else {
      var h1 := After(h, calls[0]);
      match calls[0] {
        case Ask(n) => MallocEffect(h, n);
        case GiveBack(c, found) => MfreeEffect(h, c, found);
      }
      assert Owned(h, calls[0], Live(h, START)) == Live(h1, START);
      CarefulRunsKeepTheHeap(h1, calls[1..]);
    }
  }

  // A free chunk of 300 bytes, a block of 100, another free chunk, and the tail; all back links are
  // correct.
  function Linked(): Heap {
    Heap(map[START := Header(false, 300, 0), START + 324 := Header(true, 100, 300),
             START + 448 := Header(false, 3600, 100), START + 0x1000 - 24 := Header(true, 0, 3600)], START + 0x1000)
  }

  lemma LinkedOk()
    ensures HeapOk(Linked())
  {
    var h, b, c, tail := Linked(), START + 324, START + 448, START + 0x1000 - 24;
    assert Next(h, START) == b && Next(h, b) == c && Next(h, c) == tail;
    assert Tiles(h, tail) && Tiles(h, c) && Tiles(h, b) && Tiles(h, START);
    assert Chain(h, tail) == {tail} && Chain(h, c) == {c, tail} && Chain(h, b) == {b, c, tail};
    assert h.hdrs.Keys == {START, b, c, tail};
  }

  // A correct back link is not what the step back needs: here size_prev is the size of the chunk
  // before, and yet freeing the block depends on payload bytes, and merges and writes them unless
  // they happen to read as in use.
  lemma AccurateBackLinkIsNotEnough(found: Header)
    ensures var h, c := Linked(), START + 324;
      && HeapOk(h) && c in h.hdrs && h.hdrs[c].inUse && h.hdrs[c].size != 0
      && START in h.hdrs && Next(h, START) == c && h.hdrs[c].sizePrev == h.hdrs[START].size
      && START + 24 <= Prev(h, c) < c - 24 && (AfterMfree(h, c, found).None? <==> !found.inUse)
  {
    var h, c := Linked(), START + 324;
    LinkedOk();
    assert Prev(h, c) == START + 200;
    hide HeapOk, Prev;
    MfreeStops(h, c, found);
  }

  // A step back within the heap to bytes that hold no header.
  lemma MfreeStops(h: Heap, c: nat, found: Header)
    requires c in h.hdrs && h.hdrs[c].sizePrev != 0 && h.hdrs[c].size != 0 && HeapOk(h)
    requires START <= Prev(h, c) && Prev(h, c) !in h.hdrs && h.hdrs[c].inUse
    ensures AfterMfree(h, c, found).None? <==> !found.inUse
  {
    hide Tiles, Chain, Live, MergeForward;
    if found.inUse {
      MfreeEffect(h, c, found);
    }
  }

  /** A block that is larger than its distance from the start of the heap can not be freed: after
      malloc(100) and malloc(3800) on the initial heap, mfree of the second block steps back to
      START - 3700, below the heap, and faults. */
  lemma LargeSecondBlockCannotBeFreed(found: Header)
    ensures HeapOk(Init()) && Mappable(Init(), 100)
    ensures var (h1, r1) := AfterMalloc(Init(), 100);
      && HeapOk(h1) && r1 == Some(START) && Mappable(h1, 3800)
      && var (h2, r2) := AfterMalloc(h1, 3800);
      && HeapOk(h2) && r2 == Some(START + 124) && Block(START + 148, 3800) in Live(h2, START)
      && START + 124 in h2.hdrs && Prev(h2, START + 124) == START - 3700
      && AfterMfree(h2, START + 124, found).None?
  {
    hide Init, Find, Tiles, Chain, Live, AfterMalloc, AfterMfree, Prev, Suits, Want, Mappable;
    FirstBlock();
    var h1 := AfterMalloc(Init(), 100).0;
    SecondChunk(h1);
    SecondBlock(h1);
    StepBelowFaults(AfterMalloc(h1, 3800).0, found);
  }

  lemma StepBelowFaults(h: Heap, found: Header)
    requires START + 124 in h.hdrs && h.hdrs[START + 124] == Header(true, 3800, 100)
    ensures Prev(h, START + 124) == START - 3700 && AfterMfree(h, START + 124, found).None?
  {
    hide MergeForward;
  }

  lemma FirstBlock()
    ensures HeapOk(Init()) && Mappable(Init(), 100)
    ensures var (h1, r1) := AfterMalloc(Init(), 100);
      && HeapOk(h1) && r1 == Some(START) && START in h1.hdrs && START + 124 in h1.hdrs
      && h1.hdrs[START].inUse && h1.hdrs[START].size == 100
      && h1.hdrs[START + 124] == Header(false, 3924, 100)
  {
    hide AfterMalloc, HeapOk, Mappable, Init;
    FirstBlockIs(100);
  }

  lemma SecondBlock(h: Heap)
    requires HeapOk(h) && START + 124 in h.hdrs && h.hdrs[START + 124] == Header(false, 3924, 100)
    requires Find(h, START, Want(3800)) == START + 124
    ensures Mappable(h, 3800)
    ensures var (h2, r2) := AfterMalloc(h, 3800);
      && HeapOk(h2) && r2 == Some(START + 124) && Block(START + 148, 3800) in Live(h2, START)
      && START + 124 in h2.hdrs && h2.hdrs[START + 124] == Header(true, 3800, 100)
  {
    hide Split, Find, HeapOk, Live;
    SplitHeaders(h, START + 124, 3800);
    SplitOk(h, START + 124, 3800);
  }

  lemma SecondChunk(h: Heap)
    requires HeapOk(h) && START in h.hdrs && START + 124 in h.hdrs
    requires h.hdrs[START].inUse && h.hdrs[START].size == 100
    requires !h.hdrs[START + 124].inUse && h.hdrs[START + 124].size == 3924
    ensures Find(h, START, Want(3800)) == START + 124
  {
    assert Tiles(h, START) && Next(h, START) == START + 124 && Tiles(h, START + 124);
    assert Suits(h.hdrs[START + 124], Want(3800)) && !Suits(h.hdrs[START], Want(3800));
    assert Find(h, START + 124, Want(3800)) == START + 124;
  }

  // ----- the code

  class KernelHeap {
    var hdrs: map<nat, Header>
    var end: nat

    ghost function View(): Heap
      reads this
    {
      Heap(hdrs, end)
    }

    // Storing a whole header: other headers that it overlaps are lost.
    method Store(a: nat, hdr: Header)
      modifies this
      ensures View() == Write(old(View()), a, hdr)
    {
      hdrs := (map x | x in hdrs && (x + 24 <= a || a + 24 <= x) :: hdrs[x])[a := hdr];
    }

    constructor ()
      ensures View() == Init() == OneFreeChunk(4048)
      ensures HeapOk(View()) && Live(View(), START) == {}
    {
      var head := Header(false, 0x1000 - 48, 0);
      hdrs := map[START := head, START + head.size + 24 := Header(true, 0, head.size)];
      end := START + 0x1000;
      new;
      InitOk();
    }

    method Malloc(n: Word) returns (addr: nat)
      requires HeapOk(View()) && Mappable(View(), n)
      modifies this
      ensures View() == AfterMalloc(old(View()), n).0
      ensures addr == match AfterMalloc(old(View()), n).1 case None => 0 case Some(c) => c + 24
      ensures addr == 0 <==>
        n == 0 || (old(end) > 0xffff_8102_0000_0000 && NothingSuits(old(View()), (n + 24) % 0x1_0000_0000_0000_0000))
      ensures addr != 0 && Roomy(old(View()), n) ==>
        24 <= addr && FirstFit(old(View()), n, addr - 24) && Served(old(View()), View(), addr - 24, n)
    {
      hide Split, Extend, Chain, Live, Appended, FirstFit, Served, Roomy;
      ghost var h := View();
      MallocEffect(h, n);
      if AfterMalloc(h, n).1.Some? && Roomy(h, n) {
        MallocLeaves(h, n);
      }
      if n == 0 {
        return 0;
      }
      var size := (n + 24) % 0x1_0000_0000_0000_0000;
      var hdr := START;
      while hdrs[hdr].size != 0 && (hdrs[hdr].inUse || hdrs[hdr].size < size)
        invariant Tiles(View(), hdr) && Tiles(View(), START)
        invariant Find(View(), START, size) == Find(View(), hdr, size)
        decreases end - hdr
      {
        hdr := hdr + hdrs[hdr].size + 24;
      }
      if hdrs[hdr].size == 0 {
        if hdr + 24 > LIMIT {
          return 0;
        }
        AppendEffect(View(), n);
        Append(hdr, size);
      }
      SplitAt(hdr, n);
      return hdr + 24;
    }

    // Lines 84 to 100 of malloc: map the pages and move the tail behind them.
    method Append(hdr: nat, size: Word)
      requires hdr in hdrs
      modifies this
      ensures View() == Extend(old(View()), hdr, Appended(size))
    {
      hide PageAlignUp, Write;
      var pages := PageAlignUp(size) / 0x1000;
      end := end + pages * 0x1000;
      var chunk := (pages * 0x1000 - 24) % 0x1_0000_0000_0000_0000;
      Store(hdr, hdrs[hdr].(size := chunk));
      Store((hdr + chunk + 24) % 0x1_0000_0000_0000_0000, Header(true, 0, chunk));
    }

    // Lines 105 to 112 of malloc.
    method SplitAt(hdr: nat, n: nat)
      requires hdr in hdrs
      modifies this
      ensures View() == Split(old(View()), hdr, n)
    {
      var sizeOld := hdrs[hdr].size;
      Store(hdr, Header(true, n, hdrs[hdr].sizePrev));
      Store((hdr + n + 24) % 0x1_0000_0000_0000_0000,
            Header(false, (sizeOld - n - 24) % 0x1_0000_0000_0000_0000, n));
    }

    method Merge(a: nat, b: nat)
      requires a in hdrs && b in hdrs && a != b
      modifies this
      ensures View() == Absorb(old(View()), a, b)
    {
      var size := (hdrs[a].size + hdrs[b].size + 24) % 0x1_0000_0000_0000_0000;
      hdrs := hdrs - {b};
      hdrs := hdrs[a := hdrs[a].(size := size)];
    }

    // found is what an address without a header reads as.
    method Mfree(addr: nat, found: Header)
      requires 24 <= addr && addr - 24 in hdrs && AfterMfree(View(), addr - 24, found).Some?
      requires HeapOk(View()) && hdrs[addr - 24].inUse && hdrs[addr - 24].size != 0
      modifies this
      ensures View() == AfterMfree(old(View()), addr - 24, found).value
      ensures Reaches(old(View()), addr - 24, found) ==> Joined(old(View()), View(), addr - 24)
    {
      hide Chain, Live, Tiles, Absorb, Joined, Reaches;
      var hdr := addr - 24;
      ghost var c := hdr;
      PrevIs(View(), c);
      ghost var h := View();
      if Reaches(h, c, found) {
        MfreeLeaves(h, c, found);
      }
      BackBound(h, c, found);
      hdrs := hdrs[hdr := hdrs[hdr].(inUse := false)];
      ghost var h0 := View();
      assert h0 == Replace(h, c, h.hdrs[c].(inUse := false));
      if hdrs[hdr].sizePrev != 0 {
        var prev := (hdr - hdrs[hdr].size - 24) % 0x1_0000_0000_0000_0000;
        var hdrPrev := Load(prev, found);
        if !hdrPrev.inUse {
          Merge(prev, hdr);
          hdr := prev;
        }
      }
      assert MergeBack(h0, c, found) == Some((View(), hdr));
      assert START <= Next(View(), hdr) < h.end;
      var next := hdr + hdrs[hdr].size + 24;
      var hdrNext := Load(next, found);
      if !hdrNext.inUse && hdrNext.size != 0 {
        var nextNext := next + hdrNext.size + 24;
        Merge(hdr, next);
        hdrs := hdrs[nextNext := hdrs[nextNext].(sizePrev := hdrNext.size)];
      }
    }

    // The bytes at a heap address, as a header.
    method Load(a: nat, found: Header) returns (hdr: Header)
      requires START <= a < end
      ensures hdr == Read(View(), a, found)
    {
      if a in hdrs {
        hdr := hdrs[a];
      } else {
        hdr := found;
      }
    }
  }
}
