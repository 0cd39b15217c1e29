/**
Unsigned machine words and C's bit operators on them.

A word is a natural number; a width is made explicit by a bound such as `byte`. `Bit(x, i)` is C's
`x & (1 << i)`. The operators `&`, `|`, `^`, `~`, `<<` and `>>` are defined arithmetically, and each gets one
lemma that says what it does to a single bit.
 */
module Bits {

  type byte = x: int | 0 <= x < 0x100
  type half = x: int | 0 <= x < 0x10000

  function Pow2(n: nat): (r: nat)
    ensures r > 0
  {
    if n == 0 then 1 else 2 * Pow2(n - 1)
  }

  /** Bit i of x. */
  predicate Bit(x: nat, i: nat) {
    if i == 0 then x % 2 == 1 else Bit(x / 2, i - 1)
  }

  function BitValue(c: bool): nat {
    if c then 1 else 0
  }

  function And(x: nat, y: nat): (r: nat)
    ensures r <= x && r <= y
  {
    if x == 0 || y == 0 then 0 else BitValue(x % 2 == 1 && y % 2 == 1) + 2 * And(x / 2, y / 2)
  }

  function Or(x: nat, y: nat): nat {
    if x == 0 && y == 0 then 0 else BitValue(x % 2 == 1 || y % 2 == 1) + 2 * Or(x / 2, y / 2)
  }

  function Xor(x: nat, y: nat): nat {
    if x == 0 && y == 0 then 0 else BitValue(x % 2 != y % 2) + 2 * Xor(x / 2, y / 2)
  }

  /** ~x in a word of n bits. */
  function Not(x: nat, n: nat): nat
    requires x < Pow2(n)
  {
    Pow2(n) - 1 - x
  }

  /** The low n bits of x. */
  function Low(x: nat, n: nat): (r: nat)
    ensures r < Pow2(n)
  {
    if n == 0 then 0 else x % 2 + 2 * Low(x / 2, n - 1)
  }

  /** The effect of `x <<= s` on an unsigned char. */
  function ShlByte(x: nat, s: nat): byte {
    PowersOfTwo();
    Low(x * Pow2(s), 8)
  }

  function Shr(x: nat, s: nat): (r: nat)
    ensures r <= x
  {
    if s == 0 then x else Shr(x / 2, s - 1)
  }

  /** The word of n bits whose bit i is f(i). */
  function FromBits(f: nat -> bool, n: nat): (r: nat)
    ensures r < Pow2(n)
    decreases n
  {
    if n == 0 then 0 else BitValue(f(0)) + 2 * FromBits((i: nat) => f(i + 1), n - 1)
  }

  lemma PowersOfTwo()
    ensures Pow2(0) == 1 && Pow2(1) == 2 && Pow2(2) == 4 && Pow2(3) == 8 && Pow2(4) == 16 && Pow2(5) == 32
    ensures Pow2(6) == 0x40 && Pow2(7) == 0x80 && Pow2(8) == 0x100 && Pow2(9) == 0x200 && Pow2(16) == 0x10000
  {
    assert Pow2(8) == 2 * Pow2(7) == 4 * Pow2(6) == 8 * Pow2(5) == 16 * Pow2(4);
    assert Pow2(16) == 2 * Pow2(15) == 4 * Pow2(14) == 8 * Pow2(13) == 16 * Pow2(12);
    assert Pow2(12) == 2 * Pow2(11) == 4 * Pow2(10) == 8 * Pow2(9) == 16 * Pow2(8);
  }

  // ---------------------------------------------------------------- single bits

  lemma {:induction false} ZeroBit(i: nat)
    ensures !Bit(0, i)
  {
    if i > 0 { ZeroBit(i - 1); }
  }

  lemma {:induction false} BitAnd(x: nat, y: nat, i: nat)
    ensures Bit(And(x, y), i) == (Bit(x, i) && Bit(y, i))
  {
    ZeroBit(i);
    if x != 0 && y != 0 && i > 0 {
      BitAnd(x / 2, y / 2, i - 1);
    }
  }

  lemma {:induction false} BitOr(x: nat, y: nat, i: nat)
    ensures Bit(Or(x, y), i) == (Bit(x, i) || Bit(y, i))
  {
    ZeroBit(i);
    if (x != 0 || y != 0) && i > 0 {
      BitOr(x / 2, y / 2, i - 1);
    }
  }

  lemma {:induction false} BitXor(x: nat, y: nat, i: nat)
    ensures Bit(Xor(x, y), i) == (Bit(x, i) != Bit(y, i))
  {
    ZeroBit(i);
    if (x != 0 || y != 0) && i > 0 {
      BitXor(x / 2, y / 2, i - 1);
    }
  }

  lemma {:induction false} BitNot(x: nat, n: nat, i: nat)
    requires x < Pow2(n)
    ensures Bit(Not(x, n), i) == (i < n && !Bit(x, i))
  {
    if n == 0 {
      ZeroBit(i);
    } else {
      var y := Not(x, n);
      assert y == 2 * Pow2(n - 1) - 1 - x;
      assert y / 2 == Not(x / 2, n - 1) && y % 2 == 1 - x % 2;
      if i > 0 {
        BitNot(x / 2, n - 1, i - 1);
      }
    }
  }

  lemma {:induction false} BitShr(x: nat, s: nat, i: nat)
    ensures Bit(Shr(x, s), i) == Bit(x, i + s)
    decreases s
  {
    if s > 0 {
      BitShr(x / 2, s - 1, i);
    }
  }

  lemma {:induction false} BitShl(x: nat, s: nat, i: nat)
    ensures Bit(x * Pow2(s), i) == (i >= s && Bit(x, i - s))
    decreases s
  {
    if s > 0 {
      var y := x * Pow2(s - 1);
      assert x * Pow2(s) == 2 * y;
      if i > 0 {
        BitShl(x, s - 1, i - 1);
      }
    }
  }

  lemma {:induction false} BitLow(x: nat, n: nat, i: nat)
    ensures Bit(Low(x, n), i) == (i < n && Bit(x, i))
  {
    if n == 0 {
      ZeroBit(i);
    } else if i > 0 {
      assert Low(x, n) / 2 == Low(x / 2, n - 1);
      BitLow(x / 2, n - 1, i - 1);
    }
  }

  lemma {:induction false} BitFromBits(f: nat -> bool, n: nat, i: nat)
    ensures Bit(FromBits(f, n), i) == (i < n && f(i))
    decreases n
  {
    if n == 0 {
      ZeroBit(i);
    } else {
      var g := (i: nat) => f(i + 1);
      assert FromBits(f, n) / 2 == FromBits(g, n - 1);
      if i > 0 {
        BitFromBits(g, n - 1, i - 1);
      }
    }
  }

  // ---------------------------------------------------------------- whole words

  /** Words of n bits with the same bits are the same word. */
  lemma {:induction false} Extensionality(x: nat, y: nat, n: nat)
    requires x < Pow2(n) && y < Pow2(n)
    requires forall i: nat | i < n :: Bit(x, i) == Bit(y, i)
    ensures x == y
  {
    if n > 0 {
      assert Bit(x, 0) == Bit(y, 0);
      forall i: nat | i < n - 1
        ensures Bit(x / 2, i) == Bit(y / 2, i)
      {
        assert Bit(x, i + 1) == Bit(y, i + 1);
      }
      Extensionality(x / 2, y / 2, n - 1);
    }
  }

  lemma {:induction false} HighBitsClear(x: nat, n: nat, i: nat)
    requires x < Pow2(n) && n <= i
    ensures !Bit(x, i)
  {
    if n == 0 {
      ZeroBit(i);
    } else {
      HighBitsClear(x / 2, n - 1, i - 1);
    }
  }

  lemma {:induction false} OrXorBound(x: nat, y: nat, n: nat)
    requires x < Pow2(n) && y < Pow2(n)
    ensures Or(x, y) < Pow2(n) && Xor(x, y) < Pow2(n)
  {
    if n > 0 && (x != 0 || y != 0) {
      OrXorBound(x / 2, y / 2, n - 1);
    }
  }

  lemma {:induction false} Pow2Grows(m: nat, n: nat)
    requires m < n
    ensures Pow2(m) < Pow2(n)
  {
    if m < n - 1 { Pow2Grows(m, n - 1); }
  }

  /** 1 << k. */
  lemma {:induction false} BitPow2(k: nat, i: nat)
    ensures Bit(Pow2(k), i) == (i == k)
  {
    if k == 0 {
      if i > 0 { ZeroBit(i - 1); }
    } else if i > 0 {
      BitPow2(k - 1, i - 1);
    }
  }

  /** `x & (1 << k)` is true exactly when bit k is set. */
  lemma {:induction false} TestBit(x: nat, k: nat)
    ensures (And(x, Pow2(k)) != 0) == Bit(x, k)
  {
    if k > 0 && x != 0 {
      TestBit(x / 2, k - 1);
    } else if x == 0 {
      ZeroBit(k);
    }
  }

  /** `x & (2^n - 1)` keeps the low n bits. */
  lemma {:induction false} LowMask(x: nat, n: nat)
    ensures And(x, Pow2(n) - 1) == Low(x, n)
  {
    if n > 0 {
      var m := Pow2(n) - 1;
      assert m / 2 == Pow2(n - 1) - 1 && m % 2 == 1;
      LowMask(x / 2, n - 1);
      if x == 0 {
        LowOfZero(n);
      }
    }
  }

  /** A word is its high part shifted back, plus its low part. */
  lemma {:induction false} SplitWord(x: nat, n: nat)
    ensures x == Pow2(n) * Shr(x, n) + Low(x, n)
    decreases n
  {
    if n > 0 {
      SplitWord(x / 2, n - 1);
      Doubled(Pow2(n - 1), Shr(x / 2, n - 1));
    }
  }

  lemma Doubled(p: nat, s: nat)
    ensures 2 * (p * s) == (2 * p) * s
  {
  }

  lemma SplitNibbles(x: nat)
    ensures Shr(x, 4) == x / 16 && Low(x, 4) == x % 16
  {
    hide Shr, Low;
    PowersOfTwo();
    SplitWord(x, 4);
  }

  lemma {:induction false} ShrAnd(x: nat, y: nat, n: nat)
    ensures Shr(And(x, y), n) == And(Shr(x, n), Shr(y, n))
    decreases n
  {
    if n > 0 {
      if x == 0 || y == 0 {
        ShrZero(n);
      } else {
        assert And(x, y) / 2 == And(x / 2, y / 2);
        ShrAnd(x / 2, y / 2, n - 1);
      }
    }
  }

  lemma {:induction false} ShrZero(n: nat)
    ensures Shr(0, n) == 0
  {
    if n > 0 { ShrZero(n - 1); }
  }

  lemma {:induction false} LowOfSmall(x: nat, n: nat)
    requires x < Pow2(n)
    ensures Low(x, n) == x
  {
    if n > 0 { LowOfSmall(x / 2, n - 1); }
  }

  /** The masks and shifts that take a byte apart yield its two nibbles. */
  lemma Nibbles(b: byte)
    ensures Shr(And(b, 0xf0), 4) == b / 16 && And(b, 0x0f) == b % 16
  {
    hide *;
    PowersOfTwo();
    SplitNibbles(b);
    SplitNibbles(0xf0);
    LowMask(b, 4);
    ShrAnd(b, 0xf0, 4);
    LowMask(b / 16, 4);
    LowOfSmall(b / 16, 4);
  }

  /** `(m << 4) & 0xf0 | l & 0x0f` puts two nibbles together. */
  lemma JoinNibbles(m: nat, l: nat)
    requires m < 16 && l < 16
    ensures Or(And(16 * m, 0xf0), And(l, 0x0f)) == 16 * m + l
  {
    hide *;
    PowersOfTwo();
    var b, joined := 16 * m + l, Or(And(16 * m, 0xf0), And(l, 0x0f));
    OrXorBound(And(16 * m, 0xf0), And(l, 0x0f), 8);
    SplitNibbles(b);
    forall i: nat | i < 8
      ensures Bit(joined, i) == Bit(b, i)
    {
      BitOr(And(16 * m, 0xf0), And(l, 0x0f), i);
      BitAnd(16 * m, 0xf0, i);
      BitAnd(l, 0x0f, i);
      BitShl(m, 4, i);
      BitShl(15, 4, i);
      LowBits(4, i);
      if i < 4 {
        BitLow(b, 4, i);
      } else {
        BitShr(b, 4, i - 4);
        LowBits(4, i - 4);
      }
    }
    Extensionality(joined, b, 8);
  }

  /** The bits of 2^n - 1. */
  lemma LowBits(n: nat, i: nat)
    ensures Bit(Pow2(n) - 1, i) == (i < n)
  {
    BitNot(0, n, i);
    ZeroBit(i);
  }

  lemma {:induction false} LowOfZero(n: nat)
    ensures Low(0, n) == 0
  {
    if n > 0 { LowOfZero(n - 1); }
  }

  // ---------------------------------------------------------------- arithmetic

  lemma DivIs(x: int, d: int, q: int, r: int)
    requires d > 0 && 0 <= r < d && x == q * d + r
    ensures x / d == q && x % d == r
  {
    var e := x / d - q;
    assert e * d == r - x % d;
    assert e >= 1 ==> e * d >= d;
    assert e <= -1 ==> e * d <= -d;
  }

  /** `x << n | y` is a sum when y has at most n bits. */
  lemma {:induction false} OrShifted(x: nat, y: nat, n: nat)
    requires y < Pow2(n)
    ensures Or(x * Pow2(n), y) == x * Pow2(n) + y
  {
    if n == 0 {
      OrZero(y);
      OrZeroRight(x);
    } else {
      var z := x * Pow2(n - 1);
      assert x * Pow2(n) == 2 * z;
      OrShifted(x, y / 2, n - 1);
      assert (2 * z) / 2 == z;
    }
  }

  lemma {:induction false} OrZeroRight(x: nat)
    ensures Or(x, 0) == x
  {
    if x > 0 { OrZeroRight(x / 2); }
  }

  lemma {:induction false} OrZero(x: nat)
    ensures Or(0, x) == x && Or(x, 0) == x
  {
    if x > 0 { OrZero(x / 2); }
  }

  // ---------------------------------------------------------------- packed bytes

  /** Bit p of a packed byte sequence: bit p % 8 of byte p / 8. */
  predicate BitAt(s: seq<byte>, p: nat)
    requires p < 8 * |s|
  {
    Bit(s[p / 8], p % 8)
  }

  /** Packed sequences of one length with the same bits are the same sequence. */
  lemma PackedExtensionality(s: seq<byte>, t: seq<byte>)
    requires |s| == |t|
    requires forall p: nat | p < 8 * |s| :: BitAt(s, p) == BitAt(t, p)
    ensures s == t
  {
    assert Pow2(8) == 0x100;
    forall j: nat | j < |s|
      ensures s[j] == t[j]
    {
      forall i: nat | i < 8
        ensures Bit(s[j], i) == Bit(t[j], i)
      {
        assert BitAt(s, 8 * j + i) == BitAt(t, 8 * j + i);
      }
      Extensionality(s[j], t[j], 8);
    }
  }
}
