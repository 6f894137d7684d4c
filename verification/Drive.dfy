/** Reading a byte range from a block device: `kernel/src/device/drive/drive.c` and `read_blocks`
    of `kernel/src/pci/nvme.c`.

    Buffers are ranges of one memory array, so that what is written beside them shows. */
module Drives {
  import opened Bits
  import opened Bitmaps

  // ----- the window of blocks around a byte range

  // First block, bytes to skip in it, number of blocks, and pages for their buffer.
  datatype Window = Window(first: nat, skip: nat, count: nat, pages: nat)

  function BlockWindow(len: Word, offset: Word, bs: Word): Window
    requires bs > 0
  {
    var first := Quotient(offset, bs);
    var last := Quotient(Wrap(offset + Wrap(len - 1)), bs);
    var count := Wrap(last - first + 1);
    Window(first, And(offset, bs - 1), count, Wrap(Wrap(count * bs) + 0xfff) / 0x1000)
  }

  function Pow2(k: nat): nat {
    if k == 0 then 1 else 2 * Pow2(k - 1)
  }

  lemma {:induction false} PowerMask(a: nat, k: nat)
    ensures Pow2(k) > 0 && And(a, Pow2(k) - 1) == a % Pow2(k)
  {
    hide And;
    if k > 0 {
      var p := Pow2(k - 1);
      PowerMask(a / 2, k - 1);
      AndStep(a, 2 * p - 1);
      assert (2 * p - 1) / 2 == p - 1 && (2 * p - 1) % 2 == 1;
      Halves(a, p);
    } else {
      AndZero(a);
    }
  }

  lemma AndZero(a: nat)
    ensures And(a, 0) == 0 == a % 1
  {
  }

  lemma Halves(a: nat, m: nat)
    requires m > 0
    ensures a % (2 * m) == a / 2 % m * 2 + a % 2
  {
    var q, r := a / 2 / m, a / 2 % m;
    assert a / 2 == q * m + r;
    assert a == q * (2 * m) + (2 * r + a % 2);
    DivMod(a, 2 * m, q, 2 * r + a % 2);
  }

  lemma Distribute(p: nat, q: nat, m: nat)
    ensures (p + q) * m == p * m + q * m && 0 <= p * m && 0 <= q * m
  {
  }

  lemma MulStep(p: nat, q: nat, m: nat)
    ensures p < q ==> p * m + m <= q * m
  {
    if p < q {
      Distribute(p, q - p, m);
      Distribute(q - p - 1, 1, m);
    }
  }

  lemma Unique(p: nat, r: nat, q: nat, t: nat, m: nat)
    requires r < m && t < m && p * m + r == q * m + t
    ensures p == q && r == t
  {
    MulStep(p, q, m);
    MulStep(q, p, m);
  }

  lemma DivMod(a: nat, m: nat, q: nat, r: nat)
    requires m > 0 && a == q * m + r && r < m
    ensures a / m == q && a % m == r
  {
    Division(a, m);
    Unique(a / m, a % m, q, r, m);
  }

  lemma Division(a: nat, m: nat)
    requires m > 0
    ensures a == a / m * m + a % m && 0 <= a % m < m && 0 <= a / m
  {
  }

  // Arithmetic on size_t wraps around.
  function Wrap(x: int): Word {
    x % 0x1_0000_0000_0000_0000
  }

  function Quotient(a: nat, m: nat): (q: nat)
    requires m > 0
    ensures q * m <= a < q * m + m && a - q * m == a % m
  {
    Division(a, m);
    a / m
  }

  lemma QuotientMonotone(a: nat, b: nat, m: nat)
    requires a <= b && m > 0
    ensures Quotient(a, m) <= Quotient(b, m) <= b
  {
    hide Quotient;
    var p, q := Quotient(a, m), Quotient(b, m);
    assert p * m <= a && q * m <= b < q * m + m;
    MulStep(q, p, m);
    MulStep(0, m, q);
    assert m * q == q * m;
  }

  // The number of blocks times the block size, as a difference.
  lemma BlockSpan(first: nat, last: nat, bs: nat)
    requires first <= last
    ensures (last - first + 1) * bs == last * bs + bs - first * bs
  {
  }

  // Without wrap-around, the window spans the blocks of the first and the last byte.
  lemma WindowIs(len: Word, offset: Word, bs: Word)
    requires 0 < len && offset + len <= 0x1_0000_0000_0000_0000 && 0 < bs
    ensures var w, last := BlockWindow(len, offset, bs), Quotient(offset + len - 1, bs);
      && w.first == Quotient(offset, bs) <= last
      && w.count == Wrap(last - w.first + 1)
      && w.pages == Wrap(Wrap(w.count * bs) + 0xfff) / 0x1000
  {
    hide Quotient, And;
    QuotientMonotone(offset, offset + len - 1, bs);
    assert Wrap(offset + Wrap(len - 1)) == offset + len - 1;
  }

  lemma WholeBlocks(w: nat, offset: nat, len: Word, bs: nat)
    requires 0 < len && offset + len <= 0x1_0000_0000_0000_0000 && 0 < bs
    requires w == Wrap(Quotient(offset + len - 1, bs) - Quotient(offset, bs) + 1)
    ensures var skip := offset - Quotient(offset, bs) * bs;
      0 <= skip < bs && skip + len <= w * bs < skip + len + bs
  {
    hide Quotient;
    var first, last := Quotient(offset, bs), Quotient(offset + len - 1, bs);
    QuotientMonotone(offset, offset + len - 1, bs);
    BlockSpan(first, last, bs);
    CountFits(first, last, offset, len, bs);
  }

  lemma CountFits(first: nat, last: nat, offset: nat, len: Word, bs: nat)
    requires 0 < bs && first <= last && offset < first * bs + bs && last * bs < offset + len
    requires offset + len <= 0x1_0000_0000_0000_0000
    ensures last - first + 1 < 0x1_0000_0000_0000_0000
  {
    if bs == 1 {
      assert first * bs == first && last * bs == last;
    } else {
      MulStep(1, bs, last);
      assert bs * last == last * bs && 1 * last == last;
    }
  }

  lemma PagesHold(bytes: nat)
    ensures bytes + 0xfff < 0x1_0000_0000_0000_0000 ==>
      bytes <= Wrap(Wrap(bytes) + 0xfff) / 0x1000 * 0x1000 < bytes + 0x1000
  {
  }

  /** For every non-empty range and power-of-two block size, the window is the smallest run of blocks
      that holds the range, and the buffer holds the window. */
  lemma WindowCovers(len: Word, offset: Word, k: nat)
    requires 0 < len && offset + len <= 0x1_0000_0000_0000_0000 && Pow2(k) < 0x1_0000_0000_0000_0000
    ensures Pow2(k) > 0
    ensures var bs := Pow2(k); var w := BlockWindow(len, offset, bs);
      && w.first * bs + w.skip == offset && w.skip < bs
      && w.skip + len <= w.count * bs < w.skip + len + bs
      && (w.count * bs + 0xfff < 0x1_0000_0000_0000_0000 ==> w.count * bs <= w.pages * 0x1000 < w.count * bs + 0x1000)
  {
    PowerMask(offset, k);
    var bs := Pow2(k);
    var w := BlockWindow(len, offset, bs);
    assert w.skip == And(offset, bs - 1);
    hide Quotient, And, Pow2, Wrap, BlockWindow;
    WindowIs(len, offset, bs);
    WholeBlocks(w.count, offset, len, bs);
    PagesHold(w.count * bs);
  }

  // ----- read_blocks

  // The blocks that the transfers of read_blocks cover: sixteen each, or all at once if fewer.
  function Transferred(count: nat): nat {
    (count + 15) / 16 * Least(count)
  }

  function Least(count: nat): nat {
    if count < 16 then count else 16
  }

  /** The transfers cover the blocks asked for, and no more exactly when the count is at most 16 or a
      multiple of 16. */
  lemma TransferredIs(count: nat)
    ensures count <= Transferred(count) < count + 16
    ensures Transferred(count) == count <==> count <= 16 || count % 16 == 0
    ensures count > 16 ==> Transferred(count) % 16 == 0
  {
    if count < 16 {
      assert (count + 15) / 16 == if count == 0 then 0 else 1;
    }
  }

  // Memory after bytes from a disk position on were stored at an address.
  ghost predicate Received(m: seq<Byte>, m': seq<Byte>, at: nat, bytes: nat, disk: nat -> Byte, from: nat) {
    && |m'| == |m|
    && at + bytes <= |m|
    && (forall x: nat {:trigger m'[x]} :: at <= x < at + bytes ==> m'[x] == disk(from + x - at))
    && (forall x: nat {:trigger m'[x]} :: x < at || at + bytes <= x < |m| ==> m'[x] == m[x])
  }

  lemma ReceivedNothing(m: seq<Byte>, at: nat, disk: nat -> Byte, from: nat)
    requires at <= |m|
    ensures Received(m, m, at, 0, disk, from)
  {
  }

  // Two adjacent transfers are one.
  lemma ReceivedTwice(m: seq<Byte>, m1: seq<Byte>, m2: seq<Byte>, at: nat, a: nat, b: nat, disk: nat -> Byte, from: nat)
    requires Received(m, m1, at, a, disk, from) && Received(m1, m2, at + a, b, disk, from + a)
    ensures Received(m, m2, at, a + b, disk, from)
  {
  }

  // Where transfer ct of size some goes.
  lemma Offsets(ct: nat, transfers: nat, some: nat, bs: nat, lba: nat)
    requires ct < transfers && (some == 16 || ct == 0)
    ensures ct * 16 * bs == ct * some * bs
    ensures (lba + ct * 16) * bs == lba * bs + ct * some * bs
    ensures (ct + 1) * some * bs == ct * some * bs + some * bs <= transfers * some * bs
  {
    Distribute(lba, ct * 16, bs);
    Distribute(ct, 1, some);
    Distribute(ct * some, some, bs);
    Distribute(ct + 1, transfers - ct - 1, some);
    Distribute((ct + 1) * some, (transfers - ct - 1) * some, bs);
  }

  class Drive {
    const blockSize: nat
    const content: nat -> Byte

    constructor (blockSize: nat, content: nat -> Byte)
      ensures this.blockSize == blockSize && this.content == content
    {
      this.blockSize := blockSize;
      this.content := content;
    }

    // The device copies whole blocks into memory.
    method Transfer(mem: array<Byte>, at: nat, count: nat, lba: nat)
      requires at + count * blockSize <= mem.Length
      modifies mem
      ensures Received(old(mem[..]), mem[..], at, count * blockSize, content, lba * blockSize)
    {
      var bytes, from := count * blockSize, lba * blockSize;
      forall x | at <= x < at + bytes {
        mem[x] := content(from + x - at);
      }
    }

    method ReadBlocks(mem: array<Byte>, at: nat, count: nat, lba: nat)
      requires at + Transferred(count) * blockSize <= mem.Length
      modifies mem
      ensures Received(old(mem[..]), mem[..], at, Transferred(count) * blockSize, content, lba * blockSize)
    {
      hide Received;
      ReceivedNothing(mem[..], at, content, lba * blockSize);
      var maxBlocks := 16;
      var transfers := (count + (maxBlocks - 1)) / maxBlocks;
      var ct := 0;
      var some := if count < maxBlocks then count else maxBlocks;
      while ct < transfers
        invariant 0 <= ct <= transfers && 0 * some * blockSize == 0
        invariant Received(old(mem[..]), mem[..], at, ct * some * blockSize, content, lba * blockSize)
      {
        TransferNext(mem, at, ct, transfers, some, lba, old(mem[..]));
        ct := ct + 1;
      }
    }

    // One turn of the loop: transfer ct of the given number.
    method TransferNext(mem: array<Byte>, at: nat, ct: nat, transfers: nat, some: nat, lba: nat,
                        ghost before: seq<Byte>)
      requires ct < transfers && (some == 16 || ct == 0) && at + transfers * some * blockSize <= mem.Length
      requires Received(before, mem[..], at, ct * some * blockSize, content, lba * blockSize)
      modifies mem
      ensures Received(before, mem[..], at, (ct + 1) * some * blockSize, content, lba * blockSize)
    {
      hide Received;
      ghost var m := mem[..];
      Offsets(ct, transfers, some, blockSize, lba);
      Transfer(mem, at + ct * 16 * blockSize, some, lba + ct * 16);
      ReceivedTwice(before, m, mem[..], at, ct * some * blockSize, some * blockSize, content, lba * blockSize);
    }

    method Memcpy(mem: array<Byte>, to: nat, from: nat, len: nat)
      requires to + len <= mem.Length && from + len <= mem.Length
      requires to + len <= from || from + len <= to
      modifies mem
      ensures mem[to..to + len] == old(mem[from..from + len])
      ensures forall x :: 0 <= x < mem.Length && !(to <= x < to + len) ==> mem[x] == old(mem[x])
    {
      var i := 0;
      while i < len
        invariant 0 <= i <= len
        invariant forall x {:trigger mem[x]} :: to <= x < to + i ==> mem[x] == old(mem[from + x - to])
        invariant forall x {:trigger mem[x]} :: 0 <= x < mem.Length && !(to <= x < to + i) ==> mem[x] == old(mem[x])
      {
        mem[to + i] := mem[from + i];
        i := i + 1;
      }
    }

    /** drive_read with its block buffer at the address that palloc returned: the destination holds
        exactly the bytes of the disk from the offset on, and nothing else changes but the blocks
        transferred. */
    method Read(mem: array<Byte>, buf: nat, len: Word, offset: Word, blocks: nat, ghost order: nat)
      requires blockSize == Pow2(order) < 0x1_0000_0000_0000_0000
      requires 0 < len && offset + len <= 0x1_0000_0000_0000_0000 && blockSize > 0
      requires var w := BlockWindow(len, offset, blockSize);
        && w.count * blockSize + 0xfff < 0x1_0000_0000_0000_0000
        && blocks + Transferred(w.count) * blockSize <= mem.Length
        && blocks + w.pages * 0x1000 <= mem.Length
        && (buf + len <= blocks || blocks + w.pages * 0x1000 <= buf)
      requires buf + len <= mem.Length
      modifies mem
      ensures mem[buf..buf + len] == seq(len, i requires 0 <= i < len => content(offset + i))
      ensures var w := BlockWindow(len, offset, blockSize);
        forall x: nat ::
          x < mem.Length && !(buf <= x < buf + len) && !(blocks <= x < blocks + Transferred(w.count) * blockSize) ==>
          mem[x] == old(mem[x])
    {
      hide BlockWindow, Transferred, Pow2;
      var w := BlockWindow(len, offset, blockSize);
      WindowCovers(len, offset, order);
      TransferredIs(w.count);
      MulMonotone(w.count, Transferred(w.count), blockSize);
      ReadBlocks(mem, blocks, w.count, w.first);
      ghost var m := mem[..];
      Memcpy(mem, buf, blocks + w.skip, len);
      assert mem[buf..buf + len] == m[blocks + w.skip..blocks + w.skip + len];
    }
  }

  lemma MulMonotone(p: nat, q: nat, m: nat)
    requires p <= q
    ensures p * m <= q * m
  {
    Distribute(p, q - p, m);
  }

  /** The blocks that the transfers cover stay inside the pages allocated for the window if and only if
      the window has at most 16 blocks, or a multiple of 16, or the blocks too many take less than a
      page. */
  lemma StaysInBufferIff(len: Word, offset: Word, k: nat)
    requires 0 < len && offset + len <= 0x1_0000_0000_0000_0000 && Pow2(k) < 0x1_0000_0000_0000_0000 && Pow2(k) > 0
    requires BlockWindow(len, offset, Pow2(k)).count * Pow2(k) + 0xfff < 0x1_0000_0000_0000_0000
    ensures var w := BlockWindow(len, offset, Pow2(k));
      Transferred(w.count) * Pow2(k) <= w.pages * 0x1000 <==>
      w.count <= 16 || w.count % 16 == 0 || (16 - w.count % 16) * Pow2(k) < 0x1000
  {
    hide BlockWindow, Transferred, Pow2;
    var w := BlockWindow(len, offset, Pow2(k));
    WindowCovers(len, offset, k);
    TransferredIs(w.count);
    if w.count > 16 && w.count % 16 != 0 {
      LastTransfer(w.count, k, w.pages);
    }
  }

  // The last of several transfers, when it is larger than what is left.
  lemma LastTransfer(count: nat, k: nat, pages: nat)
    requires count > 16 && count % 16 != 0 && Pow2(k) > 0
    requires count * Pow2(k) <= pages * 0x1000 < count * Pow2(k) + 0x1000
    ensures Transferred(count) * Pow2(k) <= pages * 0x1000 <==> (16 - count % 16) * Pow2(k) < 0x1000
  {
    var bs, extra, q := Pow2(k), 16 - count % 16, count / 16 + 1;
    CountOfTransfers(count);
    hide Transferred, Pow2;
    if k >= 8 {
      LargeBlocks(k);
      LargeCase(count, extra, q, bs / 0x100, pages);
    } else {
      SmallBlocks(k);
      SmallCase(count, extra, q, bs, pages);
    }
  }

  lemma CountOfTransfers(count: nat)
    requires count > 16 && count % 16 != 0
    ensures Transferred(count) == count + (16 - count % 16) == 16 * (count / 16 + 1)
  {
  }

  lemma LargeCase(count: nat, extra: nat, q: nat, m: nat, pages: nat)
    requires count + extra == 16 * q
    requires count * (0x100 * m) <= pages * 0x1000 < count * (0x100 * m) + 0x1000
    ensures (count + extra) * (0x100 * m) <= pages * 0x1000 <==> extra * (0x100 * m) < 0x1000
  {
    Distribute(count, extra, 0x100 * m);
    Sixteen(q, 0x100 * m);
    WholeTransfers(count * (0x100 * m), extra * (0x100 * m), q, m, pages);
  }

  lemma SmallCase(count: nat, extra: nat, q: nat, bs: nat, pages: nat)
    requires count + extra == 16 * q && extra < 16 && bs in {1, 2, 4, 8, 16, 32, 64, 128}
    requires count * bs <= pages * 0x1000
    ensures (count + extra) * bs <= pages * 0x1000 && extra * bs < 0x1000
  {
    Distribute(count, extra, bs);
    Sixteen(q, bs);
    ExtraIsSmall(extra, bs);
    NextMultiple(count * bs, extra * bs, q, 16 * bs, pages);
  }

  lemma ExtraIsSmall(extra: nat, bs: nat)
    requires extra < 16 && 0 < bs <= 128
    ensures extra * bs < 16 * bs && extra * bs < 0x1000
  {
    MulStep(extra, 16, bs);
  }

  // Transfers of whole pages: they fit exactly if what is too much is less than a page.
  lemma WholeTransfers(a: nat, extra: nat, q: nat, m: nat, pages: nat)
    requires a + extra == q * (0x1000 * m) && a <= pages * 0x1000 < a + 0x1000
    ensures q * (0x1000 * m) <= pages * 0x1000 <==> extra < 0x1000
  {
    Pages(q, m);
  }

  lemma Sixteen(q: nat, bs: nat)
    ensures (16 * q) * bs == q * (16 * bs)
  {
  }

  lemma Pages(q: nat, m: nat)
    ensures q * (0x1000 * m) == 0x1000 * (q * m)
  {
  }

  lemma Doubles(k: nat)
    requires k > 0
    ensures Pow2(k) == 2 * Pow2(k - 1)
  {
  }

  // From 256 bytes on, sixteen blocks are whole pages.
  lemma {:induction false} LargeBlocks(k: nat)
    requires k >= 8
    ensures Pow2(k) % 0x100 == 0
    decreases k
  {
    hide Pow2;
    Doubles(k);
    if k == 8 {
      SmallBlocks(7);
    } else {
      LargeBlocks(k - 1);
      Twice(Pow2(k - 1) / 0x100);
    }
  }

  lemma Twice(q: nat)
    ensures 2 * (0x100 * q) % 0x100 == 0
  {
    MultipleOf(2 * q);
  }

  lemma MultipleOf(q: nat)
    ensures 0x100 * q % 0x100 == 0
  {
  }

  // Below, sixteen blocks divide a page.
  lemma SmallBlocks(k: nat)
    requires k < 8
    ensures Pow2(k) == [1, 2, 4, 8, 16, 32, 64, 128][k]
  {
    hide Pow2;
    if k > 0 {
      Doubles(k);
      SmallBlocks(k - 1);
    } else {
      OneByte();
    }
  }

  lemma OneByte()
    ensures Pow2(0) == 1
  {
  }

  // A page boundary that is at least a is at least the next multiple of a divisor of the page size.
  lemma NextMultiple(a: nat, rest: nat, q: nat, unit: nat, pages: nat)
    requires unit in {16, 32, 64, 128, 256, 512, 1024, 2048}
    requires a + rest == q * unit && rest < unit && a <= pages * 0x1000
    ensures q * unit <= pages * 0x1000
  {
    var per := 0x1000 / unit;
    Scaled(pages, per, unit);
    MulStep(pages * per, q, unit);
  }

  lemma Scaled(pages: nat, per: nat, unit: nat)
    requires per * unit == 0x1000
    ensures pages * 0x1000 == (pages * per) * unit
  {
  }

  // Seventeen blocks of 512 bytes are read into three pages, but the transfers write four.
  lemma SeventeenBlocksOverrun()
    ensures var w := BlockWindow(17 * 512, 0, 512);
      w.count == 17 && w.pages == 3 && Transferred(w.count) * 512 == 4 * 0x1000
  {
    hide And, Quotient;
    QuotientIs(17 * 512 - 1, 512, 16, 511);
    QuotientIs(0, 512, 0, 0);
  }

  lemma QuotientIs(a: nat, m: nat, q: nat, r: nat)
    requires m > 0 && a == q * m + r && r < m
    ensures Quotient(a, m) == q
  {
    DivMod(a, m, q, r);
  }
}
