/**
The 512-byte ECC of devtools/sharpflash/nand_ecc.c.

The reference definition is `Group`: bit p of a block has the 12-bit address p (bit p % 8 of byte p / 8),
and group (i, v) is the parity of the data bits whose address has bit i equal to v. The table-driven loop is
proved to produce the complements of the 24 groups; the code-theoretic results are in NandEccCode.dfy.
 */
module NandEcc {
  import opened Bits

  const BLOCK_BYTES := 512
  const BLOCK_BITS := 4096

  // ---------------------------------------------------------------- reference definition

  /** Parity of those of the first n data bits whose address has bit i equal to v. */
  ghost predicate Group(dat: seq<byte>, n: nat, i: nat, v: bool)
    requires n <= 8 * |dat|
  {
    n > 0 && Group(dat, n - 1, i, v) != (BitAt(dat, n - 1) && Bit(n - 1, i) == v)
  }

  /** The group whose complement is ECC bit t: line parities first, column parities last, in pairs. */
  function GroupOf(t: nat): (i: nat)
    requires t < 24
    ensures i < 12
  {
    (t / 2 + 3) % 12
  }

  /** e is the ECC of a block by the reference definition. */
  ghost predicate IsEcc(dat: seq<byte>, e: seq<byte>)
    requires |dat| == BLOCK_BYTES
  {
    && |e| == 3
    && forall t: nat | t < 24 :: BitAt(e, t) == !Group(dat, BLOCK_BITS, GroupOf(t), t % 2 == 1)
  }

  /** The reference definition determines the three bytes. */
  lemma EccUnique(dat: seq<byte>, e: seq<byte>, e': seq<byte>)
    requires |dat| == BLOCK_BYTES && IsEcc(dat, e) && IsEcc(dat, e')
    ensures e == e'
  {
    PackedExtensionality(e, e');
  }

  // ---------------------------------------------------------------- the column parity table

  /** nand_ecc_precalc_table, one row per high nibble. */
  const PRECALC_TABLE: seq<seq<bv8>> := [
    [0x00, 0x55, 0x56, 0x03, 0x59, 0x0c, 0x0f, 0x5a, 0x5a, 0x0f, 0x0c, 0x59, 0x03, 0x56, 0x55, 0x00],
    [0x65, 0x30, 0x33, 0x66, 0x3c, 0x69, 0x6a, 0x3f, 0x3f, 0x6a, 0x69, 0x3c, 0x66, 0x33, 0x30, 0x65],
    [0x66, 0x33, 0x30, 0x65, 0x3f, 0x6a, 0x69, 0x3c, 0x3c, 0x69, 0x6a, 0x3f, 0x65, 0x30, 0x33, 0x66],
    [0x03, 0x56, 0x55, 0x00, 0x5a, 0x0f, 0x0c, 0x59, 0x59, 0x0c, 0x0f, 0x5a, 0x00, 0x55, 0x56, 0x03],
    [0x69, 0x3c, 0x3f, 0x6a, 0x30, 0x65, 0x66, 0x33, 0x33, 0x66, 0x65, 0x30, 0x6a, 0x3f, 0x3c, 0x69],
    [0x0c, 0x59, 0x5a, 0x0f, 0x55, 0x00, 0x03, 0x56, 0x56, 0x03, 0x00, 0x55, 0x0f, 0x5a, 0x59, 0x0c],
    [0x0f, 0x5a, 0x59, 0x0c, 0x56, 0x03, 0x00, 0x55, 0x55, 0x00, 0x03, 0x56, 0x0c, 0x59, 0x5a, 0x0f],
    [0x6a, 0x3f, 0x3c, 0x69, 0x33, 0x66, 0x65, 0x30, 0x30, 0x65, 0x66, 0x33, 0x69, 0x3c, 0x3f, 0x6a],
    [0x6a, 0x3f, 0x3c, 0x69, 0x33, 0x66, 0x65, 0x30, 0x30, 0x65, 0x66, 0x33, 0x69, 0x3c, 0x3f, 0x6a],
    [0x0f, 0x5a, 0x59, 0x0c, 0x56, 0x03, 0x00, 0x55, 0x55, 0x00, 0x03, 0x56, 0x0c, 0x59, 0x5a, 0x0f],
    [0x0c, 0x59, 0x5a, 0x0f, 0x55, 0x00, 0x03, 0x56, 0x56, 0x03, 0x00, 0x55, 0x0f, 0x5a, 0x59, 0x0c],
    [0x69, 0x3c, 0x3f, 0x6a, 0x30, 0x65, 0x66, 0x33, 0x33, 0x66, 0x65, 0x30, 0x6a, 0x3f, 0x3c, 0x69],
    [0x03, 0x56, 0x55, 0x00, 0x5a, 0x0f, 0x0c, 0x59, 0x59, 0x0c, 0x0f, 0x5a, 0x00, 0x55, 0x56, 0x03],
    [0x66, 0x33, 0x30, 0x65, 0x3f, 0x6a, 0x69, 0x3c, 0x3c, 0x69, 0x6a, 0x3f, 0x65, 0x30, 0x33, 0x66],
    [0x65, 0x30, 0x33, 0x66, 0x3c, 0x69, 0x6a, 0x3f, 0x3f, 0x6a, 0x69, 0x3c, 0x66, 0x33, 0x30, 0x65],
    [0x00, 0x55, 0x56, 0x03, 0x59, 0x0c, 0x0f, 0x5a, 0x5a, 0x0f, 0x0c, 0x59, 0x03, 0x56, 0x55, 0x00]
  ]

  function TableEntry(x: bv8): bv8 {
    PRECALC_TABLE[(x >> 4) as int][(x & 0x0f) as int]
  }

  function ByteOf(x: bv8): byte {
    x as int
  }

  function Precalc(b: byte): byte {
    ByteOf(TableEntry(b as bv8))
  }

  /** XOR of four bits of x, as the low bit of a byte. */
  function Fold4(x: bv8, i: bv8, j: bv8, k: bv8, l: bv8): bv8
    requires i < 8 && j < 8 && k < 8 && l < 8
  {
    ((x >> i) ^ (x >> j) ^ (x >> k) ^ (x >> l)) & 1
  }

  /** The table entry of x by definition: six column parities, even group first, and the overall parity. */
  function ColumnCode(x: bv8): bv8 {
    Fold4(x, 0, 2, 4, 6) | (Fold4(x, 1, 3, 5, 7) << 1)
    | (Fold4(x, 0, 1, 4, 5) << 2) | (Fold4(x, 2, 3, 6, 7) << 3)
    | (Fold4(x, 0, 1, 2, 3) << 4) | (Fold4(x, 4, 5, 6, 7) << 5)
    | ((Fold4(x, 0, 1, 2, 3) ^ Fold4(x, 4, 5, 6, 7)) << 6)
  }

  /** All 256 entries of the table are the column codes of their index. */
  lemma TableHoldsColumnCodes(x: bv8)
    ensures TableEntry(x) == ColumnCode(x)
  {
    match x >> 4
    case 0 => case 1 => case 2 => case 3 => case 4 => case 5 => case 6 => case 7 =>
    case 8 => case 9 => case 10 => case 11 => case 12 => case 13 => case 14 => case _ =>
  }

  lemma Half(x: bv8)
    ensures (x as int) / 2 == (x >> 1) as int
    ensures ((x as int) % 2 == 1) == (x & 1 == 1)
  {
  }

  lemma ShiftTwice(x: bv8, i: nat)
    requires 0 < i < 8
    ensures ((x >> 1) >> (i - 1)) & 1 == (x >> i) & 1
  {
    match i case 1 => case 2 => case 3 => case 4 => case 5 => case 6 => case _ =>
  }

  /** Bit i of a byte is bit i of its bit vector. */
  lemma {:induction false} VectorBit(x: bv8, i: nat)
    requires i < 8
    ensures Bit(x as int, i) == ((x >> i) & 1 == 1)
  {
    Half(x);
    if i > 0 {
      ShiftTwice(x, i);
      VectorBit(x >> 1, i - 1);
    }
  }

  predicate Xor4(w: bool, x: bool, y: bool, z: bool) {
    ((w != x) != y) != z
  }

  /** XOR of all bits of a byte. */
  predicate Parity(b: byte) {
    Xor4(Bit(b, 0), Bit(b, 1), Bit(b, 2), Bit(b, 3)) != Xor4(Bit(b, 4), Bit(b, 5), Bit(b, 6), Bit(b, 7))
  }

  /** Parity of the bits k of a byte with bit i of k equal to v. */
  predicate ColumnParity(b: byte, i: nat, v: bool)
    requires i < 3
  {
    match (i, v)
    case (0, false) => Xor4(Bit(b, 0), Bit(b, 2), Bit(b, 4), Bit(b, 6))
    case (0, true) => Xor4(Bit(b, 1), Bit(b, 3), Bit(b, 5), Bit(b, 7))
    case (1, false) => Xor4(Bit(b, 0), Bit(b, 1), Bit(b, 4), Bit(b, 5))
    case (1, true) => Xor4(Bit(b, 2), Bit(b, 3), Bit(b, 6), Bit(b, 7))
    case (_, false) => Xor4(Bit(b, 0), Bit(b, 1), Bit(b, 2), Bit(b, 3))
    case (_, true) => Xor4(Bit(b, 4), Bit(b, 5), Bit(b, 6), Bit(b, 7))
  }

  lemma VectorBits(x: bv8)
    ensures Bit(x as int, 0) == (x & 1 == 1) && Bit(x as int, 1) == ((x >> 1) & 1 == 1)
    ensures Bit(x as int, 2) == ((x >> 2) & 1 == 1) && Bit(x as int, 3) == ((x >> 3) & 1 == 1)
    ensures Bit(x as int, 4) == ((x >> 4) & 1 == 1) && Bit(x as int, 5) == ((x >> 5) & 1 == 1)
    ensures Bit(x as int, 6) == ((x >> 6) & 1 == 1) && Bit(x as int, 7) == ((x >> 7) & 1 == 1)
  {
    VectorBit(x, 0); VectorBit(x, 1); VectorBit(x, 2); VectorBit(x, 3);
    VectorBit(x, 4); VectorBit(x, 5); VectorBit(x, 6); VectorBit(x, 7);
  }

  /** e holds the six column parities and the overall parity of b, below a clear bit. */
  predicate HoldsParities(e: byte, b: byte) {
    && Bit(e, 0) == ColumnParity(b, 0, false) && Bit(e, 1) == ColumnParity(b, 0, true)
    && Bit(e, 2) == ColumnParity(b, 1, false) && Bit(e, 3) == ColumnParity(b, 1, true)
    && Bit(e, 4) == ColumnParity(b, 2, false) && Bit(e, 5) == ColumnParity(b, 2, true)
    && Bit(e, 6) == Parity(b) && !Bit(e, 7)
  }

  /** The bits of a column code, in terms of those of its index. */
  lemma CodeBits(x: bv8, c: bv8)
    requires c == ColumnCode(x)
    ensures (c & 1 == 1) == Xor4(x & 1 == 1, (x >> 2) & 1 == 1, (x >> 4) & 1 == 1, (x >> 6) & 1 == 1)
    ensures ((c >> 1) & 1 == 1)
         == Xor4((x >> 1) & 1 == 1, (x >> 3) & 1 == 1, (x >> 5) & 1 == 1, (x >> 7) & 1 == 1)
    ensures ((c >> 2) & 1 == 1) == Xor4(x & 1 == 1, (x >> 1) & 1 == 1, (x >> 4) & 1 == 1, (x >> 5) & 1 == 1)
    ensures ((c >> 3) & 1 == 1)
         == Xor4((x >> 2) & 1 == 1, (x >> 3) & 1 == 1, (x >> 6) & 1 == 1, (x >> 7) & 1 == 1)
    ensures ((c >> 4) & 1 == 1) == Xor4(x & 1 == 1, (x >> 1) & 1 == 1, (x >> 2) & 1 == 1, (x >> 3) & 1 == 1)
    ensures ((c >> 5) & 1 == 1)
         == Xor4((x >> 4) & 1 == 1, (x >> 5) & 1 == 1, (x >> 6) & 1 == 1, (x >> 7) & 1 == 1)
    ensures ((c >> 6) & 1 == 1) == (((c >> 4) & 1 == 1) != ((c >> 5) & 1 == 1))
    ensures (c >> 7) & 1 != 1
  {
  }

  lemma ParitiesOfBits(e: byte, b: byte, x0: bool, x1: bool, x2: bool, x3: bool, x4: bool, x5: bool, x6: bool, x7: bool)
    requires Bit(b, 0) == x0 && Bit(b, 1) == x1 && Bit(b, 2) == x2 && Bit(b, 3) == x3
    requires Bit(b, 4) == x4 && Bit(b, 5) == x5 && Bit(b, 6) == x6 && Bit(b, 7) == x7
    requires Bit(e, 0) == Xor4(x0, x2, x4, x6) && Bit(e, 1) == Xor4(x1, x3, x5, x7)
    requires Bit(e, 2) == Xor4(x0, x1, x4, x5) && Bit(e, 3) == Xor4(x2, x3, x6, x7)
    requires Bit(e, 4) == Xor4(x0, x1, x2, x3) && Bit(e, 5) == Xor4(x4, x5, x6, x7)
    requires Bit(e, 6) == (Bit(e, 4) != Bit(e, 5)) && !Bit(e, 7)
    ensures HoldsParities(e, b)
  {
    hide Bit, Xor4;
  }

  lemma CodeHoldsParities(x: bv8)
    ensures HoldsParities(ByteOf(ColumnCode(x)), ByteOf(x))
  {
    hide Bit, ColumnCode, HoldsParities, Xor4;
    VectorBits(x);
    VectorBits(ColumnCode(x));
    CodeBits(x, ColumnCode(x));
    ParitiesOfBits(ByteOf(ColumnCode(x)), ByteOf(x), x & 1 == 1, (x >> 1) & 1 == 1, (x >> 2) & 1 == 1,
                   (x >> 3) & 1 == 1, (x >> 4) & 1 == 1, (x >> 5) & 1 == 1, (x >> 6) & 1 == 1, (x >> 7) & 1 == 1);
  }

  lemma EntryHoldsParities(x: bv8)
    ensures HoldsParities(ByteOf(TableEntry(x)), ByteOf(x))
  {
    hide *;
    TableHoldsColumnCodes(x);
    CodeHoldsParities(x);
  }

  function Assembled(x0: bool, x1: bool, x2: bool, x3: bool, x4: bool, x5: bool, x6: bool, x7: bool): bv8 {
    (if x0 then 1 else 0) | (if x1 then 2 else 0) | (if x2 then 4 else 0) | (if x3 then 8 else 0)
    | (if x4 then 0x10 else 0) | (if x5 then 0x20 else 0) | (if x6 then 0x40 else 0) | (if x7 then 0x80 else 0)
  }

  lemma AssembledBits(x: bv8, x0: bool, x1: bool, x2: bool, x3: bool, x4: bool, x5: bool, x6: bool, x7: bool)
    requires x == Assembled(x0, x1, x2, x3, x4, x5, x6, x7)
    ensures (x & 1 == 1) == x0 && ((x >> 1) & 1 == 1) == x1 && ((x >> 2) & 1 == 1) == x2 && ((x >> 3) & 1 == 1) == x3
    ensures ((x >> 4) & 1 == 1) == x4 && ((x >> 5) & 1 == 1) == x5
    ensures ((x >> 6) & 1 == 1) == x6 && ((x >> 7) & 1 == 1) == x7
  {
  }

  /** Every byte is the value of a bit vector. */
  lemma VectorOf(b: byte) returns (x: bv8)
    ensures ByteOf(x) == b
  {
    hide Bit, Assembled;
    PowersOfTwo();
    x := Assembled(Bit(b, 0), Bit(b, 1), Bit(b, 2), Bit(b, 3), Bit(b, 4), Bit(b, 5), Bit(b, 6), Bit(b, 7));
    AssembledBits(x, Bit(b, 0), Bit(b, 1), Bit(b, 2), Bit(b, 3), Bit(b, 4), Bit(b, 5), Bit(b, 6), Bit(b, 7));
    VectorBits(x);
    SameByte(x as int, b);
  }

  lemma SameByte(x: byte, b: byte)
    requires Bit(x, 0) == Bit(b, 0) && Bit(x, 1) == Bit(b, 1) && Bit(x, 2) == Bit(b, 2) && Bit(x, 3) == Bit(b, 3)
    requires Bit(x, 4) == Bit(b, 4) && Bit(x, 5) == Bit(b, 5) && Bit(x, 6) == Bit(b, 6) && Bit(x, 7) == Bit(b, 7)
    ensures x == b
  {
    hide Bit;
    PowersOfTwo();
    Extensionality(x, b, 8);
  }

  lemma VectorBack(x: bv8)
    ensures ByteOf(x) as bv8 == x
  {
  }

  /** All 256 entries of the table are right. */
  lemma TableHoldsParities(b: byte)
    ensures HoldsParities(Precalc(b), b)
  {
    hide HoldsParities, TableEntry, ByteOf;
    var x := VectorOf(b);
    VectorBack(x);
    EntryHoldsParities(x);
  }

  function XorByte(x: byte, y: byte): byte {
    OrXorBound(x, y, 8);
    PowersOfTwo();
    Xor(x, y)
  }

  lemma XorBits(x: byte, y: byte)
    ensures forall i: nat | i < 8 :: Bit(XorByte(x, y), i) == (Bit(x, i) != Bit(y, i))
  {
    hide Bit, Xor;
    forall i: nat | i < 8
      ensures Bit(XorByte(x, y), i) == (Bit(x, i) != Bit(y, i))
    {
      BitXor(x, y, i);
    }
  }

  lemma Xor4OfXor(a: bool, b: bool, c: bool, d: bool, w: bool, x: bool, y: bool, z: bool)
    ensures Xor4(a != w, b != x, c != y, d != z) == (Xor4(a, b, c, d) != Xor4(w, x, y, z))
  {
  }

  /** Parities of a XOR. */
  lemma ParityOfXor(x: byte, y: byte, i: nat, v: bool)
    requires i < 3
    ensures ColumnParity(XorByte(x, y), i, v) == (ColumnParity(x, i, v) != ColumnParity(y, i, v))
  {
    hide Bit, XorByte, Xor4;
    XorBits(x, y);
    var k := match (i, v)
             case (0, false) => [0, 2, 4, 6]
             case (0, true) => [1, 3, 5, 7]
             case (1, false) => [0, 1, 4, 5]
             case (1, true) => [2, 3, 6, 7]
             case (_, false) => [0, 1, 2, 3]
             case (_, true) => [4, 5, 6, 7];
    Xor4OfXor(Bit(x, k[0]), Bit(x, k[1]), Bit(x, k[2]), Bit(x, k[3]),
              Bit(y, k[0]), Bit(y, k[1]), Bit(y, k[2]), Bit(y, k[3]));
  }

  lemma OverallParity(b: byte)
    ensures Parity(b) == (ColumnParity(b, 2, false) != ColumnParity(b, 2, true))
  {
  }

  lemma CodeOfXor(c: byte, d: byte, x: byte, y: byte)
    requires HoldsParities(c, x) && HoldsParities(d, y)
    ensures HoldsParities(XorByte(c, d), XorByte(x, y))
  {
    hide Bit, XorByte, ColumnParity;
    XorBits(c, d);
    ParityOfXor(x, y, 0, false);
    ParityOfXor(x, y, 0, true);
    ParityOfXor(x, y, 1, false);
    ParityOfXor(x, y, 1, true);
    ParityOfXor(x, y, 2, false);
    ParityOfXor(x, y, 2, true);
    OverallParity(x);
    OverallParity(y);
    OverallParity(XorByte(x, y));
  }

  lemma ParitiesDetermine(c: byte, d: byte, x: byte)
    requires HoldsParities(c, x) && HoldsParities(d, x)
    ensures c == d
  {
    hide Bit, Parity, ColumnParity;
    PowersOfTwo();
    Extensionality(c, d, 8);
  }

  /** The table is linear under XOR. */
  lemma TableIsLinear(x: byte, y: byte)
    ensures Precalc(XorByte(x, y)) == XorByte(Precalc(x), Precalc(y))
  {
    hide *;
    TableHoldsParities(x);
    TableHoldsParities(y);
    TableHoldsParities(XorByte(x, y));
    CodeOfXor(Precalc(x), Precalc(y), x, y);
    ParitiesDetermine(Precalc(XorByte(x, y)), XorByte(Precalc(x), Precalc(y)), XorByte(x, y));
  }

  // ---------------------------------------------------------------- the parity registers

  /** reg1, reg2 and reg3 of the loop. */
  datatype Registers = Registers(column: half, even: half, odd: half)

  /** The registers hold the groups of the first n bytes. */
  ghost predicate HoldGroups(r: Registers, dat: seq<byte>, n: nat)
    requires n <= |dat|
  {
    && r.even < 0x200 && r.odd < 0x200
    && (forall i: nat | i < 3 :: Bit(r.column, 2 * i) == Group(dat, 8 * n, i, false))
    && (forall i: nat | i < 3 :: Bit(r.column, 2 * i + 1) == Group(dat, 8 * n, i, true))
    && (forall m: nat | m < 9 :: Bit(r.even, m) == Group(dat, 8 * n, m + 3, false))
    && (forall m: nat | m < 9 :: Bit(r.odd, m) == Group(dat, 8 * n, m + 3, true))
  }

  /** The address of bit k of byte j: three bits of k below nine bits of j. */
  predicate LineOrColumn(j: nat, k: nat, i: nat) {
    if i < 3 then Bit(k, i) else Bit(j, i - 3)
  }

  lemma AddressSplit(j: nat, k: nat, i: nat)
    requires k < 8
    ensures Bit(8 * j + k, i) == LineOrColumn(j, k, i)
  {
    assert (8 * j + k) / 2 == 4 * j + k / 2 && (4 * j + k / 2) / 2 == 2 * j + k / 2 / 2;
    assert (2 * j + k / 2 / 2) / 2 == j;
    if i > 0 {
      assert Bit(8 * j + k, i) == Bit(4 * j + k / 2, i - 1);
      assert Bit(k, i) == Bit(k / 2, i - 1);
      if i > 1 {
        assert Bit(4 * j + k / 2, i - 1) == Bit(2 * j + k / 2 / 2, i - 2);
        assert Bit(k / 2, i - 1) == Bit(k / 2 / 2, i - 2);
        if i > 2 {
          assert Bit(2 * j + k / 2 / 2, i - 2) == Bit(j, i - 3);
        }
      }
    }
  }

  /** What byte j adds to group (i, v). */
  ghost predicate ByteGroup(b: byte, j: nat, i: nat, v: bool) {
    if i < 3 then ColumnParity(b, i, v) else Parity(b) && Bit(j, i - 3) == v
  }

  lemma GroupOfNextBit(dat: seq<byte>, j: nat, k: nat, i: nat, v: bool)
    requires j < |dat| && k < 8
    ensures Group(dat, 8 * j + k + 1, i, v)
         == (Group(dat, 8 * j + k, i, v) != (Bit(dat[j], k) && LineOrColumn(j, k, i) == v))
  {
    AddressSplit(j, k, i);
    assert BitAt(dat, 8 * j + k) == Bit(dat[j], k);
  }

  /** The contribution of bits k to k + 3 of byte j to group (i, v). */
  predicate NibbleGroup(b: byte, j: nat, k: nat, i: nat, v: bool) {
    Xor4(Bit(b, k) && LineOrColumn(j, k, i) == v, Bit(b, k + 1) && LineOrColumn(j, k + 1, i) == v,
         Bit(b, k + 2) && LineOrColumn(j, k + 2, i) == v, Bit(b, k + 3) && LineOrColumn(j, k + 3, i) == v)
  }

  lemma ByteGroupBits(b: byte, j: nat, i: nat, v: bool)
    ensures ByteGroup(b, j, i, v) == (NibbleGroup(b, j, 0, i, v) != NibbleGroup(b, j, 4, i, v))
  {
    assert !Bit(0, 0) && Bit(1, 0) && !Bit(2, 0) && Bit(3, 0) && !Bit(4, 0) && Bit(5, 0) && !Bit(6, 0) && Bit(7, 0);
    assert !Bit(0, 1) && !Bit(1, 1) && Bit(2, 1) && Bit(3, 1) && !Bit(4, 1) && !Bit(5, 1) && Bit(6, 1) && Bit(7, 1);
    assert !Bit(0, 2) && !Bit(1, 2) && !Bit(2, 2) && !Bit(3, 2) && Bit(4, 2) && Bit(5, 2) && Bit(6, 2) && Bit(7, 2);
    assert i < 3 ==> i == 0 || i == 1 || i == 2;
  }

  lemma {:induction false} GroupOfNextNibble(dat: seq<byte>, j: nat, k: nat, i: nat, v: bool)
    requires j < |dat| && k < 5
    ensures Group(dat, 8 * j + k + 4, i, v) == (Group(dat, 8 * j + k, i, v) != NibbleGroup(dat[j], j, k, i, v))
  {
    GroupOfNextBit(dat, j, k, i, v);
    GroupOfNextBit(dat, j, k + 1, i, v);
    GroupOfNextBit(dat, j, k + 2, i, v);
    GroupOfNextBit(dat, j, k + 3, i, v);
  }

  lemma {:induction false} GroupOfNextByte(dat: seq<byte>, j: nat, i: nat, v: bool)
    requires j < |dat|
    ensures Group(dat, 8 * (j + 1), i, v) == (Group(dat, 8 * j, i, v) != ByteGroup(dat[j], j, i, v))
  {
    GroupOfNextNibble(dat, j, 0, i, v);
    GroupOfNextNibble(dat, j, 4, i, v);
    ByteGroupBits(dat[j], j, i, v);
  }

  // ---------------------------------------------------------------- one round of the loop

  function Xor16(x: half, y: half): half {
    OrXorBound(x, y, 16);
    PowersOfTwo();
    Xor(x, y)
  }

  /** One round of the loop: idx is the table entry of the byte at index j. */
  function NextRegisters(r: Registers, idx: byte, j: half): Registers {
    var column := Xor16(r.column, And(idx, 0x3f));
    if And(idx, 0x40) != 0 then
      Registers(column, And(Xor16(r.even, 0xffff - j), 0x1ff), And(Xor16(r.odd, j), 0x1ff))
    else
      r.(column := column)
  }

  /** A line register with another word in it, cut to nine bits. */
  lemma NineBits(x: half, y: half, m: nat)
    requires m < 9
    ensures Bit(And(Xor16(x, y), 0x1ff), m) == (Bit(x, m) != Bit(y, m))
  {
    hide *;
    PowersOfTwo();
    LowMask(Xor16(x, y), 9);
    BitLow(Xor16(x, y), 9, m);
    BitXor16(x, y, m);
  }

  lemma BitXor16(x: half, y: half, m: nat)
    ensures Bit(Xor16(x, y), m) == (Bit(x, m) != Bit(y, m))
  {
    hide Bit, Xor;
    BitXor(x, y, m);
  }

  lemma Complement16(j: half, m: nat)
    requires m < 16
    ensures Bit(0xffff - j, m) == !Bit(j, m)
  {
    hide Bit, Pow2;
    PowersOfTwo();
    BitNot(j, 16, m);
  }

  lemma OverallParityBit(idx: byte)
    ensures (And(idx, 0x40) != 0) == Bit(idx, 6)
  {
    hide *;
    PowersOfTwo();
    TestBit(idx, 6);
  }

  lemma LineRound(r: Registers, idx: byte, j: half, m: nat)
    requires m < 9
    ensures Bit(NextRegisters(r, idx, j).even, m) == (Bit(r.even, m) != (Bit(idx, 6) && !Bit(j, m)))
    ensures Bit(NextRegisters(r, idx, j).odd, m) == (Bit(r.odd, m) != (Bit(idx, 6) && Bit(j, m)))
  {
    hide Bit, And, Xor16;
    OverallParityBit(idx);
    NineBits(r.even, 0xffff - j, m);
    NineBits(r.odd, j, m);
    Complement16(j, m);
  }

  lemma ColumnRound(r: Registers, idx: byte, j: half, i: nat)
    requires i < 6
    ensures Bit(NextRegisters(r, idx, j).column, i) == (Bit(r.column, i) != Bit(idx, i))
  {
    hide Bit, And, Xor16, Low, Pow2;
    PowersOfTwo();
    LowMask(idx, 6);
    BitLow(idx, 6, i);
    BitXor16(r.column, And(idx, 0x3f), i);
  }

  /** One round of the loop takes in the groups of one more byte. */
  lemma RoundKeepsGroups(r: Registers, dat: seq<byte>, j: nat, idx: byte)
    requires j < |dat| && j < BLOCK_BYTES && HoldGroups(r, dat, j) && HoldsParities(idx, dat[j])
    ensures HoldGroups(NextRegisters(r, idx, j), dat, j + 1)
  {
    hide Bit, Group, And, Xor16, Parity;
    var r' := NextRegisters(r, idx, j);
    forall i: nat | i < 3
      ensures Bit(r'.column, 2 * i) == Group(dat, 8 * (j + 1), i, false)
      ensures Bit(r'.column, 2 * i + 1) == Group(dat, 8 * (j + 1), i, true)
    {
      assert i == 0 || i == 1 || i == 2;
      ColumnRound(r, idx, j, 2 * i);
      ColumnRound(r, idx, j, 2 * i + 1);
      GroupOfNextByte(dat, j, i, false);
      GroupOfNextByte(dat, j, i, true);
    }
    forall m: nat | m < 9
      ensures Bit(r'.even, m) == Group(dat, 8 * (j + 1), m + 3, false)
      ensures Bit(r'.odd, m) == Group(dat, 8 * (j + 1), m + 3, true)
    {
      LineRound(r, idx, j, m);
      GroupOfNextByte(dat, j, m + 3, false);
      GroupOfNextByte(dat, j, m + 3, true);
    }
  }

  /** XOR of the first n data bits. */
  ghost predicate TotalParity(dat: seq<byte>, n: nat)
    requires n <= 8 * |dat|
  {
    n > 0 && TotalParity(dat, n - 1) != BitAt(dat, n - 1)
  }

  /** The two groups of a pair disagree exactly when the overall parity is odd. */
  lemma {:induction false} PairOfGroups(dat: seq<byte>, n: nat, i: nat)
    requires n <= 8 * |dat|
    ensures (Group(dat, n, i, false) != Group(dat, n, i, true)) == TotalParity(dat, n)
  {
    hide Bit, BitAt;
    if n > 0 { PairOfGroups(dat, n - 1, i); }
  }

  /** The two line registers differ in all nine bits or in none, according to the overall parity. */
  lemma LineRegisters(r: Registers, dat: seq<byte>, n: nat)
    requires n <= |dat| && HoldGroups(r, dat, n)
    ensures Xor(r.even, r.odd) == if TotalParity(dat, 8 * n) then 0x1ff else 0
  {
    hide Bit, Group, Xor, TotalParity, Pow2;
    PowersOfTwo();
    var want := if TotalParity(dat, 8 * n) then 0x1ff else 0;
    OrXorBound(r.even, r.odd, 9);
    forall m: nat | m < 9
      ensures Bit(Xor(r.even, r.odd), m) == Bit(want, m)
    {
      BitXor(r.even, r.odd, m);
      PairOfGroups(dat, 8 * n, m + 3);
      assert Bit(r.even, m) == Group(dat, 8 * n, m + 3, false);
      assert Bit(r.odd, m) == Group(dat, 8 * n, m + 3, true);
      LowBits(9, m);
      ZeroBit(m);
    }
    Extensionality(Xor(r.even, r.odd), want, 9);
  }

  // ---------------------------------------------------------------- packing the registers

  /** The top 2 * i bits of e are register bits base + 3 downwards, odd above even; the others are 0. */
  predicate Woven(e: byte, even: half, odd: half, base: nat, i: nat) {
    forall t: nat | t < 8 :: Bit(e, t) == (t >= 8 - 2 * i && Bit(if t % 2 == 1 then odd else even, base + t / 2))
  }

  lemma WeaveRound(e: byte, a: byte, b: byte, even: half, odd: half, base: nat, i: nat)
    requires i < 4 && base <= 4 && a == Pow2(base + 3 - i) && b == Pow2(7 - 2 * i)
    requires Woven(e, even, odd, base, i)
    ensures var e1 := if And(odd, a) != 0 then OrByte(e, b) else e;
            var e2 := if And(even, a) != 0 then OrByte(e1, b / 2) else e1;
            Woven(e2, even, odd, base, i + 1)
  {
    hide And, Or, Bit;
    var e1 := if And(odd, a) != 0 then OrByte(e, b) else e;
    var e2 := if And(even, a) != 0 then OrByte(e1, b / 2) else e1;
    TestBit(odd, base + 3 - i);
    TestBit(even, base + 3 - i);
    assert b / 2 == Pow2(6 - 2 * i);
    forall t: nat | t < 8
      ensures Bit(e2, t) == (t >= 8 - 2 * (i + 1) && Bit(if t % 2 == 1 then odd else even, base + t / 2))
    {
      BitOr(e, b, t);
      BitOr(e1, b / 2, t);
      BitPow2(7 - 2 * i, t);
      BitPow2(6 - 2 * i, t);
    }
  }

  function OrByte(x: byte, y: byte): byte {
    OrXorBound(x, y, 8);
    PowersOfTwo();
    Or(x, y)
  }

  function NotByte(x: byte): byte {
    0xff - x
  }

  /** Bits t of the three ECC bytes the registers pack into. */
  predicate EccBit(r: Registers, t: nat)
    requires t < 24
  {
    var i := GroupOf(t);
    if i < 3 then !Bit(r.column, 2 * i + t % 2) else !Bit(if t % 2 == 1 then r.odd else r.even, i - 3)
  }

  lemma WovenStart(even: half, odd: half, base: nat)
    ensures Woven(0, even, odd, base, 0)
  {
    forall t: nat | t < 8
      ensures !Bit(0, t)
    {
      ZeroBit(t);
    }
  }

  lemma WovenComplement(e: byte, even: half, odd: half, base: nat)
    requires Woven(e, even, odd, base, 4)
    ensures forall t: nat | t < 8 :: Bit(NotByte(e), t) == !Bit(if t % 2 == 1 then odd else even, base + t / 2)
  {
    PowersOfTwo();
    forall t: nat | t < 8
      ensures Bit(NotByte(e), t) == !Bit(if t % 2 == 1 then odd else even, base + t / 2)
    {
      BitNot(e, 8, t);
    }
  }

  /** One of the two loops of nand_trans_result: four register bits from `base` up, woven and complemented. */
  method WeaveNibbles(even: half, odd: half, base: nat) returns (tmp: byte)
    requires base <= 4
    ensures forall t: nat | t < 8 :: Bit(tmp, t) == !Bit(if t % 2 == 1 then odd else even, base + t / 2)
  {
    PowersOfTwo();
    hide And, Or, Bit, Woven;
    WovenStart(even, odd, base);
    var a: nat, b: byte := Pow2(base + 3), 0x80;
    tmp := 0;
    var i := 0;
    while i < 4
      invariant 0 <= i <= 4 && a == (if base + 3 >= i then Pow2(base + 3 - i) else 0)
      invariant b == (if i == 4 then 0 else Pow2(7 - 2 * i))
      invariant Woven(tmp, even, odd, base, i)
    {
      WeaveRound(tmp, a, b, even, odd, base, i);
      if And(odd, a) != 0 { tmp := OrByte(tmp, b); }
      b := b / 2;
      if And(even, a) != 0 { tmp := OrByte(tmp, b); }
      b := b / 2;
      a := a / 2;
      i := i + 1;
    }
    WovenComplement(tmp, even, odd, base);
    tmp := NotByte(tmp);
  }

  /** (~reg1 << 2) & 0xFC. */
  function ColumnByte(column: half): byte {
    PowersOfTwo();
    And(4 * Not(column, 16), 0xfc)
  }

  lemma ColumnByteBits(column: half, t: nat)
    requires t < 8
    ensures Bit(ColumnByte(column), t) == (t >= 2 && !Bit(column, t - 2))
  {
    PowersOfTwo();
    var n := Not(column, 16);
    assert 4 * n == n * Pow2(2) && 0xfc == 0x3f * Pow2(2);
    BitAnd(4 * n, 0xfc, t);
    BitShl(n, 2, t);
    BitShl(0x3f, 2, t);
    if t >= 2 {
      BitNot(column, 16, t - 2);
      BitNot(0, 6, t - 2);
      ZeroBit(t - 2);
    }
  }

  function OrUnless(c: bool, e: byte, mask: byte): byte {
    if c then e else OrByte(e, mask)
  }

  lemma ThirdByteBits(r: Registers, t: nat)
    requires t < 8
    ensures var e := OrUnless(And(r.odd, 0x100) != 0, ColumnByte(r.column), 2);
            Bit(OrUnless(And(r.even, 0x100) != 0, e, 1), t) == EccBit(r, 16 + t)
  {
    PowersOfTwo();
    hide And, Or, Bit, Pow2, ColumnByte;
    var e := OrUnless(And(r.odd, 0x100) != 0, ColumnByte(r.column), 2);
    ColumnByteBits(r.column, t);
    TestBit(r.odd, 8);
    TestBit(r.even, 8);
    BitOr(ColumnByte(r.column), 2, t);
    BitOr(e, 1, t);
    BitPow2(1, t);
    BitPow2(0, t);
  }

  // ---------------------------------------------------------------- the methods

  /** nand_trans_result. */
  method NandTransResult(r: Registers, eccCode: array<byte>)
    requires eccCode.Length >= 3
    modifies eccCode
    ensures forall t: nat | t < 24 :: BitAt(eccCode[..3], t) == EccBit(r, t)
    ensures eccCode[3..] == old(eccCode[3..])
  {
    hide Bit, And, Or, EccBit;
    var tmp1 := WeaveNibbles(r.even, r.odd, 4);
    var tmp2 := WeaveNibbles(r.even, r.odd, 0);
    var tmp3 := ColumnByte(r.column);
    if And(r.odd, 0x100) == 0 { tmp3 := OrByte(tmp3, 2); }
    if And(r.even, 0x100) == 0 { tmp3 := OrByte(tmp3, 1); }
    eccCode[1] := tmp1;
    eccCode[0] := tmp2;
    eccCode[2] := tmp3;
    assert eccCode[..3] == [tmp2, tmp1, tmp3];
    PackedBits(r, tmp2, tmp1, tmp3);
  }

  lemma PackedBits(r: Registers, e0: byte, e1: byte, e2: byte)
    requires forall t: nat | t < 8 :: Bit(e0, t) == !Bit(if t % 2 == 1 then r.odd else r.even, t / 2)
    requires forall t: nat | t < 8 :: Bit(e1, t) == !Bit(if t % 2 == 1 then r.odd else r.even, 4 + t / 2)
    requires e2 == OrUnless(And(r.even, 0x100) != 0, OrUnless(And(r.odd, 0x100) != 0, ColumnByte(r.column), 2), 1)
    ensures forall t: nat | t < 24 :: BitAt([e0, e1, e2], t) == EccBit(r, t)
  {
    hide Bit, And, Or, ColumnByte;
    forall t: nat | t < 24
      ensures BitAt([e0, e1, e2], t) == EccBit(r, t)
    {
      if t < 8 {
        assert Bit(e0, t) == !Bit(if t % 2 == 1 then r.odd else r.even, t / 2);
      } else if t < 16 {
        assert Bit(e1, t - 8) == !Bit(if (t - 8) % 2 == 1 then r.odd else r.even, 4 + (t - 8) / 2);
      } else {
        ThirdByteBits(r, t - 16);
      }
    }
  }

  lemma RegistersGiveEcc(r: Registers, dat: seq<byte>, e: seq<byte>)
    requires |dat| == BLOCK_BYTES && HoldGroups(r, dat, BLOCK_BYTES)
    requires |e| == 3 && forall t: nat | t < 24 :: BitAt(e, t) == EccBit(r, t)
    ensures IsEcc(dat, e)
  {
    hide Bit, BitAt, Group, EccBit, HoldGroups;
    forall t: nat | t < 24
      ensures BitAt(e, t) == !Group(dat, BLOCK_BITS, GroupOf(t), t % 2 == 1)
    {
      assert BitAt(e, t) == EccBit(r, t);
      EccBitIsGroup(r, dat, t);
    }
  }

  lemma EccBitIsGroup(r: Registers, dat: seq<byte>, t: nat)
    requires |dat| == BLOCK_BYTES && HoldGroups(r, dat, BLOCK_BYTES) && t < 24
    ensures EccBit(r, t) == !Group(dat, BLOCK_BITS, GroupOf(t), t % 2 == 1)
  {
    hide Bit, Group;
    var i := GroupOf(t);
    if i < 3 {
      assert Bit(r.column, 2 * i) == Group(dat, 8 * BLOCK_BYTES, i, false);
      assert Bit(r.column, 2 * i + 1) == Group(dat, 8 * BLOCK_BYTES, i, true);
    } else {
      assert Bit(r.even, i - 3) == Group(dat, 8 * BLOCK_BYTES, i - 3 + 3, false);
      assert Bit(r.odd, i - 3) == Group(dat, 8 * BLOCK_BYTES, i - 3 + 3, true);
    }
  }

  lemma RegistersStart(dat: seq<byte>)
    ensures HoldGroups(Registers(0, 0, 0), dat, 0)
  {
    forall i: nat
      ensures !Bit(0, i)
    {
      ZeroBit(i);
    }
  }

  /** nand_calculate_ecc: the loop over the table computes the ECC of the reference definition. */
  method NandCalculateEcc(dat: array<byte>, eccCode: array<byte>)
    requires dat.Length == BLOCK_BYTES && eccCode.Length >= 3 && dat != eccCode
    modifies eccCode
    ensures IsEcc(dat[..], eccCode[..3])
    ensures eccCode[3..] == old(eccCode[3..])
  {
    hide Precalc, HoldsParities, HoldGroups, IsEcc, EccBit, And, Xor, Xor16, Bit;
    var reg1: half, reg2: half, reg3: half := 0, 0, 0;
    RegistersStart(dat[..]);
    eccCode[0], eccCode[1], eccCode[2] := 0, 0, 0;
    for j := 0 to BLOCK_BYTES
      modifies {}
      invariant HoldGroups(Registers(reg1, reg2, reg3), dat[..], j)
    {
      var idx := Precalc(dat[j]);
      TableHoldsParities(dat[j]);
      RoundKeepsGroups(Registers(reg1, reg2, reg3), dat[..], j, idx);
      reg1 := Xor16(reg1, And(idx, 0x3f));
      if And(idx, 0x40) != 0 {
        reg3 := Xor16(reg3, j);
        reg2 := Xor16(reg2, 0xffff - j);
        reg3 := And(reg3, 0x1ff);
        reg2 := And(reg2, 0x1ff);
      }
    }
    NandTransResult(Registers(reg1, reg2, reg3), eccCode);
    RegistersGiveEcc(Registers(reg1, reg2, reg3), dat[..], eccCode[..3]);
  }
}
