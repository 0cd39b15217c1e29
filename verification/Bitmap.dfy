/**
The bitmaps of kernel/linux_bast/reciva/reciva_lcd_tm13264cbcg.c: columns of packed pixels, one after the other,
and their realignment to pages of eight pixels.
 */
module Bitmap {
  import opened Bits

  // ---------------------------------------------------------------- read_byte and flip

  /** The byte at an address; past the end of the data it is whatever memory holds, `beyond`. */
  function ByteAt(data: seq<byte>, k: nat, beyond: byte): byte {
    if k < |data| then data[k] else beyond
  }

  /** `count` bits of data, from bit number `offset` on. */
  function ReadByte(data: seq<byte>, dataLen: nat, offset: nat, count: nat, beyond: byte): byte {
    PowersOfTwo();
    var startByte := ByteAt(data, offset / 8, beyond);
    if count > 8 then 0
    else if offset % 8 == 0 then And(startByte, Shr(0xff, 8 - count))
    else
      var nextByte: byte := if offset / 8 < dataLen then ByteAt(data, offset / 8 + 1, beyond) else 0;
      Extract(Or(nextByte * Pow2(8), startByte), Shr(0xff, 8 - count), offset % 8)
  }

  /** `(halfword & mask << r) >> r`, as an unsigned char. */
  function Extract(halfword: nat, mask: nat, r: nat): byte {
    PowersOfTwo();
    Low(Shr(And(halfword, mask * Pow2(r)), r), 8)
  }

  /** `0xff >> (8 - count)`. */
  lemma MaskBits(count: nat, i: nat)
    requires count <= 8
    ensures Bit(Shr(0xff, 8 - count), i) == (i < count)
  {
    hide *;
    PowersOfTwo();
    BitShr(0xff, 8 - count, i);
    LowBits(8, i + 8 - count);
  }

  /** Two bytes side by side. */
  lemma HalfwordBits(startByte: byte, nextByte: byte, i: nat)
    requires i < 16
    ensures Bit(Or(nextByte * Pow2(8), startByte), i) == if i < 8 then Bit(startByte, i) else Bit(nextByte, i - 8)
  {
    hide *;
    PowersOfTwo();
    BitOr(nextByte * Pow2(8), startByte, i);
    BitShl(nextByte, 8, i);
    if i >= 8 { HighBitsClear(startByte, 8, i); }
  }

  lemma ExtractBits(halfword: nat, mask: nat, r: nat, i: nat)
    requires forall k: nat :: Bit(mask, k) ==> k < 8
    ensures Bit(Extract(halfword, mask, r), i) == (Bit(mask, i) && Bit(halfword, i + r))
  {
    hide Bit, And, Shr, Low, Pow2;
    BitLow(Shr(And(halfword, mask * Pow2(r)), r), 8, i);
    BitShr(And(halfword, mask * Pow2(r)), r, i);
    BitAnd(halfword, mask * Pow2(r), i + r);
    BitShl(mask, r, i + r);
  }

  lemma BitAtIs(data: seq<byte>, p: nat)
    requires p < 8 * |data|
    ensures BitAt(data, p) == Bit(data[p / 8], p % 8)
  {
  }

  /**
   The bits that read_byte returns, none for more than eight, and none of the next byte when the first one lies past
   `dataLen`. They do not depend on what lies past the end of the data.
   */
  lemma ReadByteBits(data: seq<byte>, dataLen: nat, offset: nat, count: nat, beyond: byte, i: nat)
    requires count <= 8 ==> offset + count <= 8 * |data|
    ensures Bit(ReadByte(data, dataLen, offset, count, beyond), i)
         == (i < count <= 8 && (offset % 8 + i < 8 || offset / 8 < dataLen) && BitAt(data, offset + i))
  {
    hide Bit, And, Or, Shr, Low, Pow2, BitAt, Extract;
    ZeroBit(i);
    if count > 8 { return; }
    var k, r, mask := offset / 8, offset % 8, Shr(0xff, 8 - count);
    forall j: nat
      ensures Bit(mask, j) == (j < count)
    {
      MaskBits(count, j);
    }
    if i < count { BitAtIs(data, offset + i); }
    var startByte := ByteAt(data, k, beyond);
    var nextByte: byte := if k < dataLen then ByteAt(data, k + 1, beyond) else 0;
    if r == 0 {
      BitAnd(startByte, mask, i);
    } else {
      ExtractBits(Or(nextByte * Pow2(8), startByte), mask, r, i);
      if i < count {
        HalfwordBits(startByte, nextByte, i + r);
        if r + i >= 8 { ZeroBit(r + i - 8); }
      }
    }
  }

  /** The mirror image of a byte. */
  function Flip(data: byte): byte {
    PowersOfTwo();
    Low(Or(MovedUp(data), MovedDown(data)), 8)
  }

  function MovedUp(data: byte): nat {
    Or(Or(And(data, Pow2(0)) * Pow2(7), And(data, Pow2(1)) * Pow2(5)),
       Or(And(data, Pow2(2)) * Pow2(3), And(data, Pow2(3)) * Pow2(1)))
  }

  function MovedDown(data: byte): nat {
    Or(Or(Shr(And(data, Pow2(4)), 1), Shr(And(data, Pow2(5)), 3)),
       Or(Shr(And(data, Pow2(6)), 5), Shr(And(data, Pow2(7)), 7)))
  }

  lemma BitMovedUp(data: nat, k: nat, s: nat, i: nat)
    ensures Bit(And(data, Pow2(k)) * Pow2(s), i) == (i == k + s && Bit(data, k))
  {
    hide *;
    BitShl(And(data, Pow2(k)), s, i);
    if i >= s {
      BitAnd(data, Pow2(k), i - s);
      BitPow2(k, i - s);
    }
  }

  lemma BitMovedDown(data: nat, k: nat, s: nat, i: nat)
    requires s <= k
    ensures Bit(Shr(And(data, Pow2(k)), s), i) == (i == k - s && Bit(data, k))
  {
    hide *;
    BitShr(And(data, Pow2(k)), s, i);
    BitAnd(data, Pow2(k), i + s);
    BitPow2(k, i + s);
  }

  lemma MovedUpBits(data: byte, i: nat)
    ensures Bit(MovedUp(data), i) == (4 <= i < 8 && Bit(data, 7 - i))
  {
    hide Bit, And, Or, Pow2;
    var a, b, c, d := And(data, Pow2(0)) * Pow2(7), And(data, Pow2(1)) * Pow2(5),
      And(data, Pow2(2)) * Pow2(3), And(data, Pow2(3)) * Pow2(1);
    BitOr(Or(a, b), Or(c, d), i);
    BitOr(a, b, i);
    BitOr(c, d, i);
    BitMovedUp(data, 0, 7, i);
    BitMovedUp(data, 1, 5, i);
    BitMovedUp(data, 2, 3, i);
    BitMovedUp(data, 3, 1, i);
  }

  lemma MovedDownBits(data: byte, i: nat)
    ensures Bit(MovedDown(data), i) == (i < 4 && Bit(data, 7 - i))
  {
    hide Bit, And, Or, Pow2, Shr;
    var a, b, c, d := Shr(And(data, Pow2(4)), 1), Shr(And(data, Pow2(5)), 3),
      Shr(And(data, Pow2(6)), 5), Shr(And(data, Pow2(7)), 7);
    BitOr(Or(a, b), Or(c, d), i);
    BitOr(a, b, i);
    BitOr(c, d, i);
    BitMovedDown(data, 4, 1, i);
    BitMovedDown(data, 5, 3, i);
    BitMovedDown(data, 6, 5, i);
    BitMovedDown(data, 7, 7, i);
  }

  lemma FlipBits(data: byte, i: nat)
    ensures Bit(Flip(data), i) == (i < 8 && Bit(data, 7 - i))
  {
    hide Bit, Or, Low, MovedUp, MovedDown;
    BitLow(Or(MovedUp(data), MovedDown(data)), 8, i);
    BitOr(MovedUp(data), MovedDown(data), i);
    MovedUpBits(data, i);
    MovedDownBits(data, i);
  }

  /** Flipping twice changes nothing. */
  lemma FlipTwice(data: byte)
    ensures Flip(Flip(data)) == data
  {
    hide Flip, Bit;
    PowersOfTwo();
    forall i: nat | i < 8
      ensures Bit(Flip(Flip(data)), i) == Bit(data, i)
    {
      FlipBits(Flip(data), i);
      FlipBits(data, 7 - i);
    }
    Extensionality(Flip(Flip(data)), data, 8);
  }
}
