/**
The ring buffers of the UART and I2C drivers: 1024 slots, a read index and a write index, empty when the two
are equal.
 */
module Ring {
  import opened Bits

  const BUF_SIZE := 1024

  /** The index after i: `(i + 1) & (BUF_SIZE - 1)`, or a comparison with BUF_SIZE. */
  function Next(i: nat): (n: nat)
    requires i < BUF_SIZE
    ensures n < BUF_SIZE
  {
    if i + 1 == BUF_SIZE then 0 else i + 1
  }

  /** How many slots hold unread bytes: `(wr - rd) & (BUF_SIZE - 1)`. */
  function Count(rd: nat, wr: nat): (n: nat)
    requires rd < BUF_SIZE && wr < BUF_SIZE
    ensures n < BUF_SIZE
  {
    if rd <= wr then wr - rd else wr + BUF_SIZE - rd
  }

  /** The unread bytes, oldest first. */
  function Contents(buf: seq<byte>, rd: nat, wr: nat): (c: seq<byte>)
    requires |buf| == BUF_SIZE && rd < BUF_SIZE && wr < BUF_SIZE
    ensures |c| == Count(rd, wr)
    decreases Count(rd, wr)
  {
    if rd == wr then [] else [buf[rd]] + Contents(buf, Next(rd), wr)
  }

  /** Storing a byte and advancing the write index appends it, unless the ring is full. */
  lemma {:induction false} Push(buf: seq<byte>, rd: nat, wr: nat, b: byte)
    requires |buf| == BUF_SIZE && rd < BUF_SIZE && wr < BUF_SIZE && Next(wr) != rd
    ensures Contents(buf[wr := b], rd, Next(wr)) == Contents(buf, rd, wr) + [b]
    decreases Count(rd, wr)
  {
    if rd == wr {
      assert Contents(buf[wr := b], Next(wr), Next(wr)) == [];
    } else {
      Push(buf, Next(rd), wr, b);
    }
  }

  /** A full ring that is pushed once more appears empty. */
  lemma PushFull(rd: nat, wr: nat)
    requires rd < BUF_SIZE && wr < BUF_SIZE && Next(wr) == rd
    ensures Count(rd, Next(wr)) == 0 && Count(rd, wr) == BUF_SIZE - 1
  {
  }

  /** The masks of the source compute the same indexes. */
  lemma Masks(i: nat)
    requires i < BUF_SIZE
    ensures And(i + 1, BUF_SIZE - 1) == Next(i)
  {
    PowersOfTwo();
    assert Pow2(10) == 2 * Pow2(9);
    LowMask(i + 1, 10);
    if i + 1 == BUF_SIZE {
      LowOfPower(10);
    } else {
      LowOfSmall(i + 1, 10);
    }
  }

  lemma {:induction false} LowOfPower(n: nat)
    ensures Low(Pow2(n), n) == 0
  {
    if n > 0 { LowOfPower(n - 1); }
  }
}
