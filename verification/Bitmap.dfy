/** The byte-backed bitmap of `kernel/src/memory/bitmap.c`. */
module Bitmaps {
  type Byte = bv8

  function Mask(k: nat): Byte
    requires k < 8
  {
    (1 as bv8) << k
  }

  lemma Masks()
    ensures Mask(0) == 1 && Mask(1) == 2 && Mask(2) == 4 && Mask(3) == 8
    ensures Mask(4) == 16 && Mask(5) == 32 && Mask(6) == 64 && Mask(7) == 128
  {
  }

  // Setting or clearing one bit of a byte affects that bit and no other.
  lemma SetInByte(b: Byte, k: nat, j: nat)
    requires k < 8 && j < 8
    ensures (b | Mask(k)) & Mask(j) != 0 <==> j == k || b & Mask(j) != 0
  {
    Masks();
  }

  lemma UnsetInByte(b: Byte, k: nat, j: nat)
    requires k < 8 && j < 8
    ensures (b & !Mask(k)) & Mask(j) != 0 <==> j != k && b & Mask(j) != 0
  {
    Masks();
  }

  class Bitmap {
    const buf: array<Byte>

    ghost function Contents(): (bits: seq<bool>)
      reads buf
      ensures |bits| == 8 * buf.Length
    {
      seq(8 * buf.Length, n requires 0 <= n < 8 * buf.Length reads buf => IsSet(n))
    }

    // A bitmap of `len` bytes with every bit set, as memset(buf, 0xff, len) leaves it.
    constructor (len: nat)
      ensures fresh(buf) && buf.Length == len
      ensures Contents() == seq(8 * len, n => true)
    {
      buf := new Byte[len];
      new;
      for i := 0 to len
        invariant forall j :: 0 <= j < i ==> buf[j] == 0xff
      {
        buf[i] := 0xff;
      }
      Masks();
    }

    // Bit n % 8 of byte n / 8, from the lowest.
    function IsSet(n: nat): (bit: bool)
      requires n < 8 * buf.Length
      reads buf
      ensures var masks: seq<Byte> := [1, 2, 4, 8, 16, 32, 64, 128];
        bit <==> buf[n / 8] & masks[n % 8] != 0
    {
      Masks();
      buf[n / 8] & Mask(n % 8) != 0
    }

    method Set(n: nat)
      requires n < 8 * buf.Length
      modifies buf
      ensures Contents() == old(Contents())[n := true]
    {
      ghost var before := buf[n / 8];
      buf[n / 8] := buf[n / 8] | Mask(n % 8);
      forall j | 0 <= j < 8 * buf.Length
        ensures IsSet(j) == if j == n then true else old(IsSet(j))
      {
        if j / 8 == n / 8 {
          SetInByte(before, n % 8, j % 8);
        }
      }
    }

    method Unset(n: nat)
      requires n < 8 * buf.Length
      modifies buf
      ensures Contents() == old(Contents())[n := false]
    {
      ghost var before := buf[n / 8];
      buf[n / 8] := buf[n / 8] & !Mask(n % 8);
      forall j | 0 <= j < 8 * buf.Length
        ensures IsSet(j) == if j == n then false else old(IsSet(j))
      {
        if j / 8 == n / 8 {
          UnsetInByte(before, n % 8, j % 8);
        }
      }
    }
  }
}
