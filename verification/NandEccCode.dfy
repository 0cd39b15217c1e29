/**
The coding theory of the 512-byte ECC: 4096 data bits with their 24 ECC bits form a code of minimum
distance 4, so the XOR of a stored and a recomputed ECC corrects every single flip and detects every double one.
 */
module NandEccCode {
  import opened Bits
  import opened NandEcc

  /** How many of the first n bits of two packed sequences differ. */
  ghost function Distance(s: seq<byte>, t: seq<byte>, n: nat): (d: nat)
    requires |s| == |t| && n <= 8 * |s|
  {
    if n == 0 then 0 else Distance(s, t, n - 1) + BitValue(Differ(s, t, n - 1))
  }

  predicate Differ(s: seq<byte>, t: seq<byte>, p: nat)
    requires |s| == |t| && p < 8 * |s|
  {
    BitAt(s, p) != BitAt(t, p)
  }

  ghost predicate GroupsDiffer(s: seq<byte>, t: seq<byte>, n: nat, i: nat, v: bool)
    requires |s| == |t| && n <= 8 * |s|
  {
    Group(s, n, i, v) != Group(t, n, i, v)
  }

  // ---------------------------------------------------------------- what flips do to the groups

  /** The two groups of a pair disagree about the flips exactly when their number is odd. */
  lemma {:induction false} PairParity(s: seq<byte>, t: seq<byte>, n: nat, i: nat)
    requires |s| == |t| && n <= 8 * |s|
    ensures (GroupsDiffer(s, t, n, i, false) != GroupsDiffer(s, t, n, i, true)) == (Distance(s, t, n) % 2 == 1)
  {
    if n > 0 {
      PairParity(s, t, n - 1, i);
    }
  }

  lemma {:induction false} NoFlip(s: seq<byte>, t: seq<byte>, n: nat, i: nat, v: bool)
    requires |s| == |t| && n <= 8 * |s| && Distance(s, t, n) == 0
    ensures !GroupsDiffer(s, t, n, i, v)
  {
    if n > 0 {
      NoFlip(s, t, n - 1, i, v);
    }
  }

  lemma {:induction false} NoFlipBits(s: seq<byte>, t: seq<byte>, n: nat)
    requires |s| == |t| && n <= 8 * |s| && Distance(s, t, n) == 0
    ensures forall p: nat | p < n :: !Differ(s, t, p)
  {
    if n > 0 {
      NoFlipBits(s, t, n - 1);
    }
  }

  /** A single flip, at p: a group notices it exactly when it contains the address p. */
  lemma {:induction false} OneFlip(s: seq<byte>, t: seq<byte>, n: nat) returns (p: nat)
    requires |s| == |t| && n <= 8 * |s| && Distance(s, t, n) == 1
    ensures p < n && forall q: nat | q < n :: Differ(s, t, q) == (q == p)
    ensures forall i: nat, v: bool :: GroupsDiffer(s, t, n, i, v) == (Bit(p, i) == v)
  {
    if Differ(s, t, n - 1) {
      p := n - 1;
      NoFlipBits(s, t, n - 1);
      forall i: nat, v: bool
        ensures GroupsDiffer(s, t, n, i, v) == (Bit(p, i) == v)
      {
        NoFlip(s, t, n - 1, i, v);
      }
    } else {
      p := OneFlip(s, t, n - 1);
      forall i: nat, v: bool
        ensures GroupsDiffer(s, t, n, i, v) == (Bit(p, i) == v)
      {
        assert GroupsDiffer(s, t, n - 1, i, v) == (Bit(p, i) == v);
      }
    }
  }

  /** Two flips, at p and q: a group notices them exactly when it contains one of the addresses. */
  lemma {:induction false} TwoFlips(s: seq<byte>, t: seq<byte>, n: nat) returns (p: nat, q: nat)
    requires |s| == |t| && n <= 8 * |s| && Distance(s, t, n) == 2
    ensures p < q < n && Differ(s, t, p) && Differ(s, t, q)
    ensures forall i: nat, v: bool :: GroupsDiffer(s, t, n, i, v) == ((Bit(p, i) == v) != (Bit(q, i) == v))
  {
    if Differ(s, t, n - 1) {
      p := OneFlip(s, t, n - 1);
      q := n - 1;
      forall i: nat, v: bool
        ensures GroupsDiffer(s, t, n, i, v) == ((Bit(p, i) == v) != (Bit(q, i) == v))
      {
        assert GroupsDiffer(s, t, n - 1, i, v) == (Bit(p, i) == v);
      }
    } else {
      p, q := TwoFlips(s, t, n - 1);
      forall i: nat, v: bool
        ensures GroupsDiffer(s, t, n, i, v) == ((Bit(p, i) == v) != (Bit(q, i) == v))
      {
        assert GroupsDiffer(s, t, n - 1, i, v) == ((Bit(p, i) == v) != (Bit(q, i) == v));
      }
    }
  }

  lemma DifferentAddresses(p: nat, q: nat) returns (i: nat)
    requires p < q < BLOCK_BITS
    ensures i < 12 && Bit(p, i) != Bit(q, i)
  {
    TwelveBits();
    if forall i: nat | i < 12 :: Bit(p, i) == Bit(q, i) {
      Extensionality(p, q, 12);
    }
    i :| i < 12 && Bit(p, i) != Bit(q, i);
  }

  // ---------------------------------------------------------------- what flips do to the ECC

  /** Two bits that differ are worth a distance of two. */
  lemma {:induction false} TwoDiffer(s: seq<byte>, t: seq<byte>, n: nat, p: nat, q: nat)
    requires |s| == |t| && n <= 8 * |s| && p < q < n && Differ(s, t, p) && Differ(s, t, q)
    ensures Distance(s, t, n) >= 2
  {
    if q < n - 1 {
      TwoDiffer(s, t, n - 1, p, q);
    } else {
      OneDiffers(s, t, n - 1, p);
    }
  }

  lemma {:induction false} OneDiffers(s: seq<byte>, t: seq<byte>, n: nat, p: nat)
    requires |s| == |t| && n <= 8 * |s| && p < n && Differ(s, t, p)
    ensures Distance(s, t, n) >= 1
  {
    if p < n - 1 {
      OneDiffers(s, t, n - 1, p);
    }
  }

  /** The ECC bits of two blocks differ where their groups do. */
  lemma EccDiffers(d: seq<byte>, d': seq<byte>, e: seq<byte>, e': seq<byte>, t: nat)
    requires |d| == |d'| == BLOCK_BYTES && IsEcc(d, e) && IsEcc(d', e') && t < 24
    ensures Differ(e, e', t) == GroupsDiffer(d, d', BLOCK_BITS, GroupOf(t), t % 2 == 1)
  {
    assert BitAt(e, t) == !Group(d, BLOCK_BITS, GroupOf(t), t % 2 == 1);
    assert BitAt(e', t) == !Group(d', BLOCK_BITS, GroupOf(t), t % 2 == 1);
  }

  /** The ECC bit pair of address bit i. */
  function PairOf(i: nat): (m: nat)
    requires i < 12
    ensures m < 12 && GroupOf(2 * m) == i && GroupOf(2 * m + 1) == i
  {
    (i + 9) % 12
  }

  /** An odd number of data flips changes exactly one bit of every ECC pair. */
  lemma OddFlipsChangePairs(d: seq<byte>, d': seq<byte>, e: seq<byte>, e': seq<byte>, m: nat)
    requires |d| == |d'| == BLOCK_BYTES && IsEcc(d, e) && IsEcc(d', e') && m < 12
    ensures (Differ(e, e', 2 * m) != Differ(e, e', 2 * m + 1)) == (Distance(d, d', BLOCK_BITS) % 2 == 1)
  {
    hide IsEcc, Group, Distance, BitAt;
    EccDiffers(d, d', e, e', 2 * m);
    EccDiffers(d, d', e, e', 2 * m + 1);
    PairParity(d, d', BLOCK_BITS, GroupOf(2 * m));
  }

  /** When every pair has one difference, half of the bits differ. */
  lemma {:induction false} OneOfEachPair(e: seq<byte>, e': seq<byte>, n: nat)
    requires |e| == |e'| == 3 && n <= 12
    requires forall m: nat | m < n :: Differ(e, e', 2 * m) != Differ(e, e', 2 * m + 1)
    ensures Distance(e, e', 2 * n) == n
  {
    hide Differ;
    if n > 0 {
      OneOfEachPair(e, e', n - 1);
      DistanceNext(e, e', 2 * (n - 1));
      DistanceNext(e, e', 2 * (n - 1) + 1);
      assert Differ(e, e', 2 * (n - 1)) != Differ(e, e', 2 * (n - 1) + 1);
    }
  }

  lemma DistanceNext(s: seq<byte>, t: seq<byte>, n: nat)
    requires |s| == |t| && n < 8 * |s|
    ensures Distance(s, t, n + 1) == Distance(s, t, n) + BitValue(Differ(s, t, n))
  {
  }

  lemma OddFlipsDistance(d: seq<byte>, d': seq<byte>, e: seq<byte>, e': seq<byte>)
    requires |d| == |d'| == BLOCK_BYTES && IsEcc(d, e) && IsEcc(d', e') && Distance(d, d', BLOCK_BITS) % 2 == 1
    ensures Distance(e, e', 24) == 12
  {
    forall m: nat | m < 12
      ensures Differ(e, e', 2 * m) != Differ(e, e', 2 * m + 1)
    {
      OddFlipsChangePairs(d, d', e, e', m);
    }
    OneOfEachPair(e, e', 12);
  }

  /** Two data flips change both bits of some ECC pair. */
  lemma TwoFlipsChangeAPair(d: seq<byte>, d': seq<byte>, e: seq<byte>, e': seq<byte>) returns (m: nat)
    requires |d| == |d'| == BLOCK_BYTES && IsEcc(d, e) && IsEcc(d', e') && Distance(d, d', BLOCK_BITS) == 2
    ensures m < 12 && Differ(e, e', 2 * m) && Differ(e, e', 2 * m + 1)
  {
    var p, q := TwoFlips(d, d', BLOCK_BITS);
    var i := DifferentAddresses(p, q);
    m := PairOf(i);
    EccDiffers(d, d', e, e', 2 * m);
    EccDiffers(d, d', e, e', 2 * m + 1);
    assert GroupsDiffer(d, d', BLOCK_BITS, i, false) == ((Bit(p, i) == false) != (Bit(q, i) == false));
    assert GroupsDiffer(d, d', BLOCK_BITS, i, true) == ((Bit(p, i) == true) != (Bit(q, i) == true));
  }

  lemma DistinctBlocksDiffer(d: seq<byte>, d': seq<byte>)
    requires |d| == |d'| && d != d'
    ensures Distance(d, d', 8 * |d|) >= 1
  {
    if Distance(d, d', 8 * |d|) == 0 {
      NoFlipBits(d, d', 8 * |d|);
      forall p: nat | p < 8 * |d|
        ensures BitAt(d, p) == BitAt(d', p)
      {
        assert !Differ(d, d', p);
      }
      PackedExtensionality(d, d');
    }
  }

  /** Any two distinct blocks, each with its ECC, are at least four bit flips apart. */
  lemma MinimumDistance(d: seq<byte>, d': seq<byte>, e: seq<byte>, e': seq<byte>)
    requires |d| == |d'| == BLOCK_BYTES && IsEcc(d, e) && IsEcc(d', e') && d != d'
    ensures Distance(d, d', BLOCK_BITS) + Distance(e, e', 24) >= 4
  {
    DistinctBlocksDiffer(d, d');
    var w := Distance(d, d', BLOCK_BITS);
    if w == 1 || w == 3 {
      OddFlipsDistance(d, d', e, e');
    } else if w == 2 {
      var m := TwoFlipsChangeAPair(d, d', e, e');
      TwoDiffer(e, e', 24, 2 * m, 2 * m + 1);
    }
  }

  /** Two sequences that differ in bits p and q alone. */
  lemma {:induction false} ExactlyTwo(s: seq<byte>, t: seq<byte>, n: nat, p: nat, q: nat)
    requires |s| == |t| && n <= 8 * |s| && p < q
    requires forall r: nat | r < n :: Differ(s, t, r) == (r == p || r == q)
    ensures Distance(s, t, n) == BitValue(p < n) + BitValue(q < n)
  {
    hide Differ;
    if n > 0 {
      ExactlyTwo(s, t, n - 1, p, q);
      assert Differ(s, t, n - 1) == (n - 1 == p || n - 1 == q);
    }
  }

  lemma PairsOfGroups(t: nat, i: nat)
    requires t < 24 && i < 12
    ensures GroupOf(t) == i <==> t == 2 * PairOf(i) || t == 2 * PairOf(i) + 1
  {
    var m := t / 2;
    assert t == 2 * m || t == 2 * m + 1;
    WrapAround(m + 3);
    WrapAround(i + 9);
  }

  lemma WrapAround(x: nat)
    requires x < 24
    ensures x % 12 == if x < 12 then x else x - 12
  {
  }

  /** The bound is attained: two flips whose addresses differ in one bit lead to a code word at distance 4. */
  lemma MinimumAttained(d: seq<byte>, d': seq<byte>, e: seq<byte>, e': seq<byte>, p: nat, q: nat, i: nat)
    requires |d| == |d'| == BLOCK_BYTES && IsEcc(d, e) && IsEcc(d', e') && p < q < BLOCK_BITS && i < 12
    requires forall r: nat | r < BLOCK_BITS :: Differ(d, d', r) == (r == p || r == q)
    requires forall k: nat | k < 12 :: (Bit(p, k) != Bit(q, k)) == (k == i)
    ensures Distance(d, d', BLOCK_BITS) + Distance(e, e', 24) == 4
  {
    assert |e| == 3 && |e'| == 3;
    hide Differ, Distance, GroupsDiffer, IsEcc, Bit;
    ExactlyTwo(d, d', BLOCK_BITS, p, q);
    var p', q' := TwoFlips(d, d', BLOCK_BITS);
    assert p' == p && q' == q;
    forall t: nat | t < 24
      ensures Differ(e, e', t) == (t == 2 * PairOf(i) || t == 2 * PairOf(i) + 1)
    {
      EccDiffers(d, d', e, e', t);
      var k, v := GroupOf(t), t % 2 == 1;
      assert GroupsDiffer(d, d', BLOCK_BITS, k, v) == ((Bit(p, k) == v) != (Bit(q, k) == v));
      assert (Bit(p, k) != Bit(q, k)) == (k == i);
      PairsOfGroups(t, i);
    }
    ExactlyTwo(e, e', 24, 2 * PairOf(i), 2 * PairOf(i) + 1);
  }

  // ---------------------------------------------------------------- correction and detection

  datatype Verdict = NoError | DataError(position: nat) | EccError | Uncorrectable

  ghost predicate AllPairsDiffer(e: seq<byte>, e': seq<byte>)
    requires |e| == |e'| == 3
  {
    forall m: nat | m < 12 :: Differ(e, e', 2 * m) != Differ(e, e', 2 * m + 1)
  }

  /** The address the odd bits of a syndrome spell out. */
  function SpelledAddress(e: seq<byte>, e': seq<byte>): nat
    requires |e| == |e'| == 3
  {
    FromBits(OddDiffers(e, e'), 12)
  }

  function OddDiffers(e: seq<byte>, e': seq<byte>): nat -> bool
    requires |e| == |e'| == 3
  {
    (i: nat) => i < 12 && Differ(e, e', 2 * PairOf(i) + 1)
  }

  /** What the XOR of a stored and a recomputed ECC says. */
  ghost function Diagnose(stored: seq<byte>, recomputed: seq<byte>): Verdict
    requires |stored| == |recomputed| == 3
  {
    if Distance(stored, recomputed, 24) == 0 then NoError
    else if AllPairsDiffer(stored, recomputed) then DataError(SpelledAddress(stored, recomputed))
    else if Distance(stored, recomputed, 24) == 1 then EccError
    else Uncorrectable
  }

  /** A read of block d with ECC e that saw the flips of d' and stored; r is the ECC recomputed from d'. */
  ghost predicate FlippedRead(d: seq<byte>, e: seq<byte>, d': seq<byte>, stored: seq<byte>, r: seq<byte>) {
    |d| == |d'| == BLOCK_BYTES && |stored| == 3 && IsEcc(d, e) && IsEcc(d', r)
  }

  ghost function Flips(d: seq<byte>, e: seq<byte>, d': seq<byte>, stored: seq<byte>): nat
    requires |d| == |d'| == BLOCK_BYTES && |e| == |stored| == 3
  {
    Distance(d, d', BLOCK_BITS) + Distance(e, stored, 24)
  }

  lemma SpelledAddressIs(e: seq<byte>, e': seq<byte>, p: nat)
    requires |e| == |e'| == 3 && p < BLOCK_BITS
    requires forall i: nat | i < 12 :: Differ(e, e', 2 * PairOf(i) + 1) == Bit(p, i)
    ensures SpelledAddress(e, e') == p
  {
    hide Bit, Differ, FromBits, Pow2;
    TwelveBits();
    forall i: nat | i < 12
      ensures Bit(SpelledAddress(e, e'), i) == Bit(p, i)
    {
      BitFromBits(OddDiffers(e, e'), 12, i);
      assert OddDiffers(e, e')(i) == Differ(e, e', 2 * PairOf(i) + 1);
    }
    Extensionality(SpelledAddress(e, e'), p, 12);
  }

  lemma TwelveBits()
    ensures Pow2(12) == BLOCK_BITS
  {
    PowersOfTwo();
    assert Pow2(12) == 2 * Pow2(11) == 4 * Pow2(10) == 8 * Pow2(9);
  }

  /** A single flip is located exactly: the very bit in the data, or somewhere in the ECC. */
  lemma SingleFlipLocated(d: seq<byte>, e: seq<byte>, d': seq<byte>, stored: seq<byte>, r: seq<byte>)
    requires FlippedRead(d, e, d', stored, r) && Flips(d, e, d', stored) <= 1
    ensures Diagnose(stored, r).NoError? <==> Flips(d, e, d', stored) == 0
    ensures Diagnose(stored, r).EccError? <==> Distance(e, stored, 24) == 1
    ensures Diagnose(stored, r).DataError? <==> Distance(d, d', BLOCK_BITS) == 1
    ensures Diagnose(stored, r).DataError? ==>
              var p := Diagnose(stored, r).position;
              p < BLOCK_BITS && forall q: nat | q < BLOCK_BITS :: Differ(d, d', q) == (q == p)
  {
    DistanceCommutes(e, stored, 24);
    if Distance(d, d', BLOCK_BITS) == 1 {
      SameBytes(e, stored);
      DistanceCommutes(e, r, 24);
      OddFlipsDistance(d, d', e, r);
      var p := OneFlip(d, d', BLOCK_BITS);
      DataFlipSpelled(d, e, d', r, p);
    } else {
      SameBytes(d, d');
      EccUnique(d, e, r);
      if Distance(e, stored, 24) == 1 && AllPairsDiffer(stored, r) {
        OneOfEachPair(stored, r, 12);
      }
    }
  }

  lemma SameBytes(s: seq<byte>, t: seq<byte>)
    requires |s| == |t| && Distance(s, t, 8 * |s|) == 0
    ensures s == t
  {
    if s != t { DistinctBlocksDiffer(s, t); }
  }

  lemma {:induction false} DistanceCommutes(s: seq<byte>, t: seq<byte>, n: nat)
    requires |s| == |t| && n <= 8 * |s|
    ensures Distance(s, t, n) == Distance(t, s, n)
  {
    if n > 0 { DistanceCommutes(s, t, n - 1); }
  }

  lemma DataFlipSpelled(d: seq<byte>, e: seq<byte>, d': seq<byte>, r: seq<byte>, p: nat)
    requires |d| == |d'| == BLOCK_BYTES && IsEcc(d, e) && IsEcc(d', r) && p < BLOCK_BITS
    requires Distance(d, d', BLOCK_BITS) == 1
    requires forall i: nat, v: bool :: GroupsDiffer(d, d', BLOCK_BITS, i, v) == (Bit(p, i) == v)
    ensures AllPairsDiffer(e, r) && SpelledAddress(e, r) == p
  {
    forall m: nat | m < 12
      ensures Differ(e, r, 2 * m) != Differ(e, r, 2 * m + 1)
    {
      OddFlipsChangePairs(d, d', e, r, m);
    }
    forall i: nat | i < 12
      ensures Differ(e, r, 2 * PairOf(i) + 1) == Bit(p, i)
    {
      EccDiffers(d, d', e, r, 2 * PairOf(i) + 1);
      assert GroupsDiffer(d, d', BLOCK_BITS, i, true) == (Bit(p, i) == true);
    }
    SpelledAddressIs(e, r, p);
  }

  /** Flipping bit p of a block. */
  function FlipBit(d: seq<byte>, p: nat): (f: seq<byte>)
    requires p < 8 * |d|
    ensures |f| == |d|
  {
    PowersOfTwo();
    OrXorBound(d[p / 8], 0, 8);
    XorPow2Bound(d[p / 8], p % 8);
    d[p / 8 := Xor(d[p / 8], Pow2(p % 8))]
  }

  lemma XorPow2Bound(x: byte, k: nat)
    requires k < 8
    ensures Xor(x, Pow2(k)) < 0x100
  {
    PowersOfTwo();
    assert k == 0 || k == 1 || k == 2 || k == 3 || k == 4 || k == 5 || k == 6 || k == 7;
    OrXorBound(x, Pow2(k), 8);
  }

  /** The block a reader recovers. */
  ghost function Corrected(d': seq<byte>, v: Verdict): seq<byte> {
    if v.DataError? && v.position < 8 * |d'| then FlipBit(d', v.position) else d'
  }

  /** Whatever single bit flips, in the data or in the ECC, the reader recovers the block. */
  lemma SingleFlipCorrected(d: seq<byte>, e: seq<byte>, d': seq<byte>, stored: seq<byte>, r: seq<byte>)
    requires FlippedRead(d, e, d', stored, r) && Flips(d, e, d', stored) <= 1
    ensures Corrected(d', Diagnose(stored, r)) == d
  {
    SingleFlipLocated(d, e, d', stored, r);
    if Distance(d, d', BLOCK_BITS) == 1 {
      FlipRestores(d, d', Diagnose(stored, r).position);
    } else {
      SameBytes(d, d');
    }
  }

  lemma FlipRestores(d: seq<byte>, d': seq<byte>, p: nat)
    requires |d| == |d'| && p < 8 * |d|
    requires forall q: nat | q < 8 * |d| :: Differ(d, d', q) == (q == p)
    ensures FlipBit(d', p) == d
  {
    forall q: nat | q < 8 * |d|
      ensures BitAt(FlipBit(d', p), q) == BitAt(d, q)
    {
      assert Differ(d, d', q) == (q == p);
      BitXor(d'[p / 8], Pow2(p % 8), q % 8);
      BitPow2(p % 8, q % 8);
      assert q == 8 * (q / 8) + q % 8 && p == 8 * (p / 8) + p % 8;
    }
    PackedExtensionality(FlipBit(d', p), d);
  }

  /** Whatever two bits flip, in the data, in the ECC or one in each, the read is reported as uncorrectable. */
  lemma DoubleFlipDetected(d: seq<byte>, e: seq<byte>, d': seq<byte>, stored: seq<byte>, r: seq<byte>)
    requires FlippedRead(d, e, d', stored, r) && Flips(d, e, d', stored) == 2
    ensures Diagnose(stored, r) == Uncorrectable
  {
    if Distance(d, d', BLOCK_BITS) == 2 {
      SameBytes(e, stored);
      var m := TwoFlipsChangeAPair(d, d', e, r);
      TwoDiffer(stored, r, 24, 2 * m, 2 * m + 1);
      OddFlipsChangePairs(d, d', e, r, m);
    } else if Distance(d, d', BLOCK_BITS) == 1 {
      MixedFlipsDetected(d, e, d', stored, r);
    } else {
      SameBytes(d, d');
      EccUnique(d, e, r);
      DistanceCommutes(e, stored, 24);
      if AllPairsDiffer(stored, r) {
        OneOfEachPair(stored, r, 12);
      }
    }
  }

  lemma MixedFlipsDetected(d: seq<byte>, e: seq<byte>, d': seq<byte>, stored: seq<byte>, r: seq<byte>)
    requires FlippedRead(d, e, d', stored, r)
    requires Distance(d, d', BLOCK_BITS) == 1 && Distance(e, stored, 24) == 1
    ensures Diagnose(stored, r) == Uncorrectable
  {
    var t := OneFlip(e, stored, 24);
    var m := t / 2;
    forall k: nat | k < 12
      ensures (Differ(stored, r, 2 * k) != Differ(stored, r, 2 * k + 1)) == (k != m)
    {
      OddFlipsChangePairs(d, d', e, r, k);
      assert Differ(e, stored, 2 * k) == (2 * k == t);
      assert Differ(e, stored, 2 * k + 1) == (2 * k + 1 == t);
    }
    assert !AllPairsDiffer(stored, r) by {
      assert Differ(stored, r, 2 * m) == Differ(stored, r, 2 * m + 1);
    }
    var k := if m == 0 then 1 else 0;
    var l := if m <= 1 then 2 else 1;
    assert Differ(stored, r, 2 * k) != Differ(stored, r, 2 * k + 1);
    assert Differ(stored, r, 2 * l) != Differ(stored, r, 2 * l + 1);
    TwoDiffer(stored, r, 24, if Differ(stored, r, 2 * k) then 2 * k else 2 * k + 1,
              if Differ(stored, r, 2 * l) then 2 * l else 2 * l + 1);
  }
}
