/**
The page loop of devtools/sharpflash/getpart.c, and what it means together with the flash write: every good
block holds source pages that carry their own ECC.
 */
module GetPart {
  import opened Bits
  import opened NandEcc
  import opened NandEccCode
  import opened NandPage
  import opened NandFlash
  import opened NandWrite

  /** Page p of the partition: bytes past the end of the image file read as 0xFF. */
  function SourcePage(image: seq<byte>, start: nat, p: nat): (s: seq<byte>)
    ensures |s| == PAGE_BYTES
  {
    seq(PAGE_BYTES, i requires 0 <= i < PAGE_BYTES =>
      if start + PAGE_BYTES * p + i < |image| then image[start + PAGE_BYTES * p + i] else 0xff)
  }

  /** A 528-byte row: the page, its ECC, and thirteen bytes 0xFF. */
  ghost predicate CarriesEcc(row: seq<byte>, page: seq<byte>) {
    && |row| == ROW_BYTES && |page| == PAGE_BYTES
    && row[..PAGE_BYTES] == page
    && IsEcc(page, row[PAGE_BYTES..PAGE_BYTES + 3])
    && forall i :: PAGE_BYTES + 3 <= i < ROW_BYTES ==> row[i] == 0xff
  }

  /** One round of the loop: read, append the ECC. */
  method PageWithEcc(image: seq<byte>, position: nat, ghost start: nat, ghost p: nat) returns (row: seq<byte>)
    requires position == start + PAGE_BYTES * p
    ensures CarriesEcc(row, SourcePage(image, start, p))
    ensures |row| == 528
    ensures forall i :: 0 <= i < 512 ==> row[i] == if position + i < |image| then image[position + i] else 0xff
  {
    hide IsEcc;
    var buf, crc := new byte[512], new byte[16];
    for i := 0 to 16
      invariant forall j :: 0 <= j < i ==> crc[j] == 0xff
    {
      crc[i] := 0xff;
    }
    for i := 0 to 512
      modifies buf
      invariant forall j :: 0 <= j < i ==> buf[j] == if position + j < |image| then image[position + j] else 0xff
    {
      buf[i] := if position + i < |image| then image[position + i] else 0xff;
    }
    assert buf[..] == SourcePage(image, start, p);
    ghost var before := crc[..];
    NandCalculateEcc(buf, crc);
    row := buf[..] + crc[..];
    assert row[PAGE_BYTES..PAGE_BYTES + 3] == crc[..3];
    assert forall i :: 0 <= i < 512 ==> row[i] == buf[i];
    forall i | 3 <= i < 16
      ensures crc[i] == 0xff
    {
      assert crc[3..][i - 3] == before[3..][i - 3];
    }
  }

  /** The first n rows of the output carry the first n pages of the partition, each with its own ECC. */
  ghost predicate RowsCarryEcc(out: seq<byte>, image: seq<byte>, start: nat, n: nat) {
    && ROW_BYTES * n <= |out|
    && forall p: nat | p < n ::
         CarriesEcc(out[ROW_BYTES * p..ROW_BYTES * p + ROW_BYTES], SourcePage(image, start, p))
  }

  lemma RowsCarryEccSnoc(out: seq<byte>, image: seq<byte>, start: nat, n: nat, row: seq<byte>)
    requires |out| == ROW_BYTES * n && RowsCarryEcc(out, image, start, n)
    requires CarriesEcc(row, SourcePage(image, start, n))
    ensures RowsCarryEcc(out + row, image, start, n + 1)
  {
    RowSize(row, SourcePage(image, start, n));
    hide CarriesEcc, SourcePage;
    forall p: nat | p < n + 1
      ensures CarriesEcc((out + row)[ROW_BYTES * p..ROW_BYTES * p + ROW_BYTES], SourcePage(image, start, p))
    {
      if p < n {
        assert (out + row)[ROW_BYTES * p..ROW_BYTES * p + ROW_BYTES] == out[ROW_BYTES * p..ROW_BYTES * p + ROW_BYTES];
      } else {
        assert (out + row)[ROW_BYTES * n..ROW_BYTES * n + ROW_BYTES] == row;
      }
    }
  }

  /** The main loop of getpart. */
  method CopyRows(image: seq<byte>, start: nat, len: nat) returns (out: seq<byte>)
    requires len % 0x4000 == 0
    ensures |out| == ROW_BYTES * (len / PAGE_BYTES) && RowsCarryEcc(out, image, start, len / PAGE_BYTES)
  {
    hide CarriesEcc, SourcePage, RowsCarryEcc;
    out := [];
    var x := 0;
    ghost var n := 0;
    NoRows(image, start);
    while x < len
      invariant x == PAGE_BYTES * n && n <= len / PAGE_BYTES && |out| == ROW_BYTES * n
      invariant RowsCarryEcc(out, image, start, n)
      decreases len - x
    {
      var row := PageWithEcc(image, start + x, start, n);
      RowSize(row, SourcePage(image, start, n));
      RowsCarryEccSnoc(out, image, start, n, row);
      out := out + row;
      x := x + 512;
      n := n + 1;
    }
  }

  /** getpart; the length and the start must be multiples of 0x4000. */
  method GetPart(image: seq<byte>, start: nat, len: nat) returns (out: seq<byte>)
    ensures start % 0x4000 != 0 || len % 0x4000 != 0 ==> out == []
    ensures start % 0x4000 == 0 && len % 0x4000 == 0 ==>
              |out| == ROW_BYTES * (len / PAGE_BYTES) && RowsCarryEcc(out, image, start, len / PAGE_BYTES)
    ensures start % 0x4000 == 0 && len % 0x4000 == 0 ==>
              forall i: nat :: i < len ==>
                && 528 * (i / 512) + i % 512 < |out|
                && out[528 * (i / 512) + i % 512] == if start + i < |image| then image[start + i] else 0xff
  {
    hide RowsCarryEcc;
    if start % 0x4000 != 0 || len % 0x4000 != 0 {
      return [];
    }
    out := CopyRows(image, start, len);
    forall i: nat | i < len
      ensures 528 * (i / 512) + i % 512 < |out|
      ensures out[528 * (i / 512) + i % 512] == if start + i < |image| then image[start + i] else 0xff
    {
      ExtractedByte(out, image, start, len / PAGE_BYTES, i);
    }
  }

  /** Byte i of the partition in rows that carry its pages. */
  lemma ExtractedByte(out: seq<byte>, image: seq<byte>, start: nat, n: nat, i: nat)
    requires RowsCarryEcc(out, image, start, n) && i < 512 * n
    ensures 528 * (i / 512) + i % 512 < |out|
    ensures out[528 * (i / 512) + i % 512] == if start + i < |image| then image[start + i] else 0xff
  {
    hide IsEcc;
    var p, k := i / 512, i % 512;
    assert p < n;
    var row := out[ROW_BYTES * p..ROW_BYTES * p + ROW_BYTES];
    assert CarriesEcc(row, SourcePage(image, start, p));
    assert row[..PAGE_BYTES][k] == row[k] == SourcePage(image, start, p)[k];
    assert start + PAGE_BYTES * p + k == start + i;
  }

  /**
   The byte of the partition that a good block of the flash holds: byte k of page q of the m-th one, when the chunk
   that was read for it exists.
   */
  lemma FlashedByte(image: seq<byte>, start: nat, len: nat, out: seq<byte>, mem: Memory, faults: Faults,
                    b: nat, m: nat, q: nat, k: nat)
    requires len % 0x4000 == 0 && |out| == ROW_BYTES * (len / PAGE_BYTES)
    requires RowsCarryEcc(out, image, start, len / PAGE_BYTES)
    requires m < len / 0x4000 <= GoodFrom(mem, faults, b) && q < 32 && k < 512
    requires Tried(mem, faults, b, NthGood(mem, faults, b, m)) < len / 0x4000
    ensures var a := NthGood(mem, faults, b, m);
            var i := start + 0x4000 * Tried(mem, faults, b, a) + 512 * q + k;
            Image(mem, faults, out, b, 0, 0, len / 0x4000)[32 * a + q][k] == if i < |image| then image[i] else 0xff
  {
    hide Image, Tried, NthGood, GoodFrom, IsEcc;
    FlashedPagesCarryEcc(image, start, len, out, mem, faults, b, m, q);
    var a := NthGood(mem, faults, b, m);
    var t := Tried(mem, faults, b, a);
    var page := SourcePage(image, start, PAGES * t + q);
    var row := Image(mem, faults, out, b, 0, 0, len / 0x4000)[32 * a + q];
    assert row[..PAGE_BYTES][k] == row[k] == page[k];
  }

  lemma NoRows(image: seq<byte>, start: nat)
    ensures RowsCarryEcc([], image, start, 0)
  {
  }

  lemma RowSize(row: seq<byte>, page: seq<byte>)
    requires CarriesEcc(row, page)
    ensures |row| == ROW_BYTES
  {
  }

  /** Pages of chunks are consecutive rows of the file. */
  lemma PageOfFile(file: seq<byte>, m: nat, q: nat)
    requires q < PAGES && CHUNK_BYTES * (m + 1) <= |file|
    ensures PageOf(Chunk(file, m), q) == file[ROW_BYTES * (PAGES * m + q)..ROW_BYTES * (PAGES * m + q) + ROW_BYTES]
  {
  }

  /** Past the end of the file a chunk is all zeros, and no page of zeros has the bytes 0xFF behind its ECC. */
  lemma BlankCarriesNothing(file: seq<byte>, m: nat, q: nat, page: seq<byte>)
    requires q < PAGES && |file| <= CHUNK_BYTES * m
    ensures !CarriesEcc(PageOf(Chunk(file, m), q), page)
  {
    hide IsEcc;
    var row := PageOf(Chunk(file, m), q);
    assert row[PAGE_BYTES + 3] == Chunk(file, m)[ROW_BYTES * q + PAGE_BYTES + 3] == 0;
  }

  /**
   A partition extracted by getpart and written by K9Fxx08_write: page q of the m-th good block carries a page of the
   source with its ECC, that of chunk number `Tried`, if and only if the partition has such a chunk. The number is m
   unless a block was spoiled before.
   */
  lemma FlashedPagesCarryEcc(image: seq<byte>, start: nat, len: nat, out: seq<byte>, mem: Memory, faults: Faults,
                             b: nat, m: nat, q: nat)
    requires len % 0x4000 == 0 && |out| == ROW_BYTES * (len / PAGE_BYTES)
    requires RowsCarryEcc(out, image, start, len / PAGE_BYTES)
    requires m < len / 0x4000 <= GoodFrom(mem, faults, b) && q < PAGES
    ensures var a := NthGood(mem, faults, b, m);
            var t := Tried(mem, faults, b, a);
            (CarriesEcc(Image(mem, faults, out, b, 0, 0, len / 0x4000)[32 * a + q],
                        SourcePage(image, start, PAGES * t + q))
             <==> t < len / 0x4000)
  {
    hide CarriesEcc, SourcePage, Image, PageOf, Chunk, Tried, NthGood, GoodFrom;
    ChunksInOrder(mem, faults, out, b, 0, 0, len / 0x4000, m, q);
    var t := Tried(mem, faults, b, NthGood(mem, faults, b, m));
    var p := PAGES * t + q;
    if t < len / 0x4000 {
      assert p < len / PAGE_BYTES;
      PageOfFile(out, t, q);
      assert CarriesEcc(out[ROW_BYTES * p..ROW_BYTES * p + ROW_BYTES], SourcePage(image, start, p));
    } else {
      BlankCarriesNothing(out, t, q, SourcePage(image, start, p));
    }
  }

  /** A page that carries its ECC survives any single flip, in the page or in the stored ECC. */
  lemma PageSurvivesFlip(row: seq<byte>, page: seq<byte>, seen: seq<byte>, stored: seq<byte>, r: seq<byte>)
    requires CarriesEcc(row, page) && |seen| == PAGE_BYTES && |stored| == 3 && IsEcc(seen, r)
    requires Flips(page, row[PAGE_BYTES..PAGE_BYTES + 3], seen, stored) <= 1
    ensures Corrected(seen, Diagnose(stored, r)) == page
  {
    hide IsEcc, Corrected, Diagnose, Flips;
    SingleFlipCorrected(page, row[PAGE_BYTES..PAGE_BYTES + 3], seen, stored, r);
  }
}
