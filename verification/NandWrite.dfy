/**
K9Fxx08_write of devtools/sharpflash/k9fxx08.c: writing an image to the good blocks of a flash chip, through the
page operations of NandPage.dfy on the chip of NandFlash.dfy.
 */
module NandWrite {
  import opened Bits
  import opened NandBus
  import opened NandPage
  import opened NandFlash

  const CHUNK_BYTES := 0x4200
  const PAGES := 32

  // ---------------------------------------------------------------- the result, block by block

  /** The m-th 0x4200-byte chunk of a file, padded with zeros. */
  function Chunk(file: seq<byte>, m: nat): (c: seq<byte>)
    ensures |c| == CHUNK_BYTES
  {
    seq(CHUNK_BYTES, i requires 0 <= i < CHUNK_BYTES =>
      if CHUNK_BYTES * m + i < |file| then file[CHUNK_BYTES * m + i] else 0)
  }

  function PageOf(chunk: seq<byte>, page: nat): (p: seq<byte>)
    requires |chunk| == CHUNK_BYTES && page < PAGES
    ensures |p| == ROW_BYTES
  {
    chunk[ROW_BYTES * page..ROW_BYTES * (page + 1)]
  }

  /** The bad-block byte of one of the first two pages is not 0xFF. */
  predicate MarkedBad(mem: Memory, block: nat)
    requires block < BLOCKS
  {
    mem[32 * block][MARK_COLUMN] != 0xff || mem[32 * block + 1][MARK_COLUMN] != 0xff
  }

  /** The blocks whose erase succeeds: not marked bad, except that the mark of block 0 is ignored, and not weak. */
  predicate Accepts(mem: Memory, faults: Faults, block: nat)
    requires block < BLOCKS
  {
    (block == 0 || !MarkedBad(mem, block)) && block !in faults.weak
  }

  /** Some row of the block cannot be programmed. */
  predicate Spoils(faults: Faults, block: nat) {
    exists r :: 32 * block <= r < 32 * block + 32 && r in faults.dud
  }

  /** The blocks that end up holding a chunk. */
  predicate Takes(mem: Memory, faults: Faults, block: nat)
    requires block < BLOCKS
  {
    Accepts(mem, faults, block) && !Spoils(faults, block)
  }

  /** The bad-block mark programmed over the spare area of the first page. */
  function WithMark(mem: Memory, faults: Faults, block: nat): Memory
    requires block < BLOCKS
  {
    WithProgram(mem, faults, 32 * block, PAGE_BYTES, BAD_MARK)
  }

  /** In a first page that can be programmed the mark shows where it is looked for, and no other byte changes. */
  lemma MarkShows(mem: Memory, faults: Faults, block: nat)
    requires block < BLOCKS && 32 * block !in faults.dud
    ensures WithMark(mem, faults, block)[32 * block][517] == And(mem[32 * block][517], 0x44) <= 0x44
    ensures MarkedBad(WithMark(mem, faults, block), block)
    ensures forall c :: 0 <= c < 528 && c != 517 ==> WithMark(mem, faults, block)[32 * block][c] == mem[32 * block][c]
  {
    hide And;
    assert BAD_MARK[5] == 0x44;
    forall c | 0 <= c < 528 && c != 517
      ensures WithMark(mem, faults, block)[32 * block][c] == mem[32 * block][c]
    {
      KeptByMask(mem[32 * block][c]);
    }
  }

  lemma KeptByMask(d: byte)
    ensures And(d, 0xff) == d
  {
    hide Low, Pow2, And;
    PowersOfTwo();
    LowMask(d, 8);
    LowOfSmall(d, 8);
  }

  /** The first n pages of a block replaced by those of a chunk. */
  function WithPages(mem: Memory, block: nat, chunk: seq<byte>, n: nat): Memory
    requires |chunk| == CHUNK_BYTES && n <= PAGES
  {
    seq(ROWS, r requires 0 <= r < ROWS => if r / 32 == block && r % 32 < n then PageOf(chunk, r % 32) else mem[r])
  }

  /** The block that block number b reaches: the row address wraps at the end of the chip. */
  function Reached(b: nat): (p: nat)
    ensures p < BLOCKS && (b < BLOCKS ==> p == b)
  {
    b % BLOCKS
  }

  lemma RowWraps(block: nat, page: nat)
    requires page < PAGES
    ensures RowOf(block, page) % ROWS == 32 * Reached(block) + page
  {
    DivIs(block, BLOCKS, block / BLOCKS, Reached(block));
    DivIs(RowOf(block, page), ROWS, block / BLOCKS, 32 * Reached(block) + page);
  }

  /** What the erase of a block may do to the memory, and the code it returns. */
  predicate EraseOutcome(mem: Memory, faults: Faults, block: nat, code: nat, mem': Memory) {
    var p := Reached(block);
    if block != 0 && MarkedBad(mem, p) then code == BAD_BLOCK_FACTORY && mem' == mem
    else if p in faults.weak then code == BAD_BLOCK_ERASE && mem' == WithMark(mem, faults, p)
    else code == BAD_BLOCK_OK && mem' == WithBlockErased(mem, p)
  }

  ghost function MemoryAfter(f0: Flash, faults: Faults, h: seq<BusEvent>): Memory {
    Run(f0, faults, h).mem
  }

  /** What the two reads of NF_IsBadBlock yield; they change no memory. */
  lemma MarksRead(chip: Chip, f0: Flash, faults: Faults, h: seq<BusEvent>, block: nat)
    requires Behaves(chip, f0, faults)
    ensures var h1 := h + MarkReadCycles(RowOf(block, 0));
            var h2 := h1 + MarkReadCycles(RowOf(block, 1));
            && MemoryAfter(f0, faults, h2) == MemoryAfter(f0, faults, h)
            && (chip.answer(h1) != 0xff || chip.answer(h2) != 0xff
                <==> MarkedBad(MemoryAfter(f0, faults, h), Reached(block)))
  {
    hide Run, Output, MarkReadCycles, RowOf;
    RowWraps(block, 0);
    RowWraps(block, 1);
    var h1 := h + MarkReadCycles(RowOf(block, 0));
    RunAppend(f0, faults, h, MarkReadCycles(RowOf(block, 0)));
    MarkReadEffect(Run(f0, faults, h), faults, RowOf(block, 0));
    RunAppend(f0, faults, h1, MarkReadCycles(RowOf(block, 1)));
    MarkReadEffect(Run(f0, faults, h1), faults, RowOf(block, 1));
  }

  /** What the erase cycles and the status after them do and yield. */
  lemma EraseAsked(chip: Chip, f0: Flash, faults: Faults, h: seq<BusEvent>, block: nat)
    requires Behaves(chip, f0, faults)
    ensures var asked, p := h + EraseCycles(block) + [ReadStrobe], Reached(block);
            && (chip.answer(asked) % 2 == 1) == (p in faults.weak)
            && MemoryAfter(f0, faults, asked)
               == if p in faults.weak then MemoryAfter(f0, faults, h)
                  else WithBlockErased(MemoryAfter(f0, faults, h), p)
  {
    hide Run, Output, EraseCycles, WithBlockErased;
    assert h + EraseCycles(block) + [ReadStrobe] == h + (EraseCycles(block) + [ReadStrobe]);
    RunAppend(f0, faults, h, EraseCycles(block) + [ReadStrobe]);
    EraseEffect(Run(f0, faults, h), faults, block);
  }

  lemma ErasedOutcome(chip: Chip, f0: Flash, faults: Faults, h: seq<BusEvent>, block: nat, code: nat, h': seq<BusEvent>)
    requires Behaves(chip, f0, faults) && Erased(chip, h, block, code, h')
    ensures EraseOutcome(MemoryAfter(f0, faults, h), faults, block, code, MemoryAfter(f0, faults, h'))
  {
    hide MemoryAfter, MarkReadCycles, EraseCycles, MarkCycles, WithBlockErased, WithMark, MarkedBad, RowOf, Reached;
    var h2 := h + MarkReadCycles(RowOf(block, 0)) + MarkReadCycles(RowOf(block, 1));
    MarksRead(chip, f0, faults, h, block);
    EraseAsked(chip, f0, faults, h2, block);
    BlockMarked(f0, faults, h2 + EraseCycles(block) + [ReadStrobe], block);
  }

  lemma {:induction false} FullMask(d: byte)
    ensures And(0xff, d) == d
  {
    PowersOfTwo();
    forall i: nat | i < 8
      ensures Bit(And(0xff, d), i) == Bit(d, i)
    {
      BitAnd(0xff, d, i);
      BitNot(0, 8, i);
      ZeroBit(i);
    }
    Extensionality(And(0xff, d), d, 8);
  }

  lemma ProgramErased(data: seq<byte>)
    requires |data| == ROW_BYTES
    ensures Programmed(ErasedRow(), 0, data) == data
  {
    hide And;
    forall c | 0 <= c < ROW_BYTES
      ensures Programmed(ErasedRow(), 0, data)[c] == data[c]
    {
      FullMask(data[c]);
    }
  }

  /** A page write to an erased row leaves the data there, unless the row is a dud: then it reports a failure. */
  lemma PageWritten(chip: Chip, f0: Flash, faults: Faults, h: seq<BusEvent>, row: nat, data: seq<byte>)
    requires Behaves(chip, f0, faults) && |data| == ROW_BYTES
    requires MemoryAfter(f0, faults, h)[row % ROWS] == ErasedRow()
    ensures var h', r := h + ProgramCycles(row, data) + [ReadStrobe], row % ROWS;
            && (chip.answer(h') % 2 == 1) == (r in faults.dud)
            && MemoryAfter(f0, faults, h')
               == if r in faults.dud then MemoryAfter(f0, faults, h) else MemoryAfter(f0, faults, h)[r := data]
  {
    hide Run, Output, ProgramCycles, Programmed, ErasedRow;
    assert h + ProgramCycles(row, data) + [ReadStrobe] == h + (ProgramCycles(row, data) + [ReadStrobe]);
    RunAppend(f0, faults, h, ProgramCycles(row, data) + [ReadStrobe]);
    ProgramEffect(Run(f0, faults, h), faults, row, data);
    ProgramErased(data);
  }

  /** The mark cycles after any history. */
  lemma BlockMarked(f0: Flash, faults: Faults, h: seq<BusEvent>, block: nat)
    ensures MemoryAfter(f0, faults, h + MarkCycles(block))
         == WithMark(MemoryAfter(f0, faults, h), faults, Reached(block))
  {
    hide Run, MarkCycles, Programmed, RowOf, Reached;
    RowWraps(block, 0);
    RunAppend(f0, faults, h, MarkCycles(block));
    MarkEffect(Run(f0, faults, h), faults, block);
  }

  /** The memory after the first n page writes of a chunk; each one that fails marks the block bad. */
  function AfterPages(mem: Memory, faults: Faults, block: nat, chunk: seq<byte>, n: nat): Memory
    requires |chunk| == CHUNK_BYTES && n <= PAGES && block < BLOCKS
  {
    if n == 0 then mem
    else
      var m := AfterPages(mem, faults, block, chunk, n - 1);
      var row := 32 * block + (n - 1);
      if row in faults.dud then WithMark(m, faults, block) else m[row := PageOf(chunk, n - 1)]
  }

  lemma MarkTouchesFirstRow(mem: Memory, faults: Faults, block: nat, r: nat)
    requires block < BLOCKS && r < ROWS && r != 32 * block
    ensures WithMark(mem, faults, block)[r] == mem[r]
  {
    hide Programmed;
  }

  /** The page writes leave the rows of other blocks and the later rows of their own as they were. */
  lemma {:induction false} AfterPagesKeeps(mem: Memory, faults: Faults, block: nat, chunk: seq<byte>, n: nat, r: nat)
    requires |chunk| == CHUNK_BYTES && n <= PAGES && block < BLOCKS && r < ROWS
    requires r / 32 != block || r >= 32 * block + n
    ensures AfterPages(mem, faults, block, chunk, n)[r] == mem[r]
  {
    hide PageOf, WithMark;
    if n > 0 {
      AfterPagesKeeps(mem, faults, block, chunk, n - 1, r);
      MarkTouchesFirstRow(AfterPages(mem, faults, block, chunk, n - 1), faults, block, r);
    }
  }

  /** Without a failure they put the pages in place. */
  lemma {:induction false} AfterPagesPlaces(mem: Memory, faults: Faults, block: nat, chunk: seq<byte>, n: nat)
    requires |chunk| == CHUNK_BYTES && n <= PAGES && block < BLOCKS && !Spoils(faults, block)
    ensures AfterPages(mem, faults, block, chunk, n) == WithPages(mem, block, chunk, n)
  {
    hide PageOf, WithMark;
    if n == 0 {
      NoPages(mem, block, chunk);
    } else {
      AfterPagesPlaces(mem, faults, block, chunk, n - 1);
      WithNextPage(mem, block, chunk, n - 1);
      assert 32 * block + (n - 1) !in faults.dud;
    }
  }

  lemma WithNextPage(mem: Memory, block: nat, chunk: seq<byte>, n: nat)
    requires |chunk| == CHUNK_BYTES && n < PAGES && block < BLOCKS
    ensures WithPages(mem, block, chunk, n)[32 * block + n := PageOf(chunk, n)] == WithPages(mem, block, chunk, n + 1)
  {
    hide PageOf;
  }

  lemma NoPages(mem: Memory, block: nat, chunk: seq<byte>)
    requires |chunk| == CHUNK_BYTES
    ensures WithPages(mem, block, chunk, 0) == mem
  {
  }

  /** One page write of K9Fxx08_write. */
  method WriteOnePage(bus: Bus, block: nat, i: nat, src: seq<byte>, ghost f0: Flash, ghost faults: Faults)
    returns (code: nat)
    requires bus.Quiescent() && Behaves(bus.chip, f0, faults) && |src| == CHUNK_BYTES && i < PAGES
    requires MemoryAfter(f0, faults, bus.Cycles())[32 * Reached(block) + i] == ErasedRow()
    modifies bus.port, bus.outCellValue, bus.inCellValue
    ensures bus.Quiescent()
    ensures (code == BAD_BLOCK_OK) <==> 32 * Reached(block) + i !in faults.dud
    ensures var mem, r := old(MemoryAfter(f0, faults, bus.Cycles())), 32 * Reached(block) + i;
            MemoryAfter(f0, faults, bus.Cycles())
            == if r in faults.dud then WithMark(mem, faults, Reached(block)) else mem[r := PageOf(src, i)]
  {
    hide Bus.Valid, Bus.Quiescent, Bus.Cycles, Bus.Asked, MemoryAfter, ProgramCycles, MarkCycles, Behaves;
    hide ErasedRow, WithMark, Reached, RowOf;
    RowWraps(block, i);
    var buffer := src[ROW_BYTES * i..ROW_BYTES * i + PAGE_BYTES];
    var spareBuf := src[ROW_BYTES * i + PAGE_BYTES..ROW_BYTES * (i + 1)];
    assert buffer + spareBuf == PageOf(src, i);
    PageWritten(bus.chip, f0, faults, bus.Cycles(), RowOf(block, i), buffer + spareBuf);
    ghost var asked := bus.Cycles() + ProgramCycles(RowOf(block, i), buffer + spareBuf) + [ReadStrobe];
    BlockMarked(f0, faults, asked, block);
    code := NfWritePage(bus, block, i, buffer, spareBuf);
  }

  /** The page writes of one erased block: the write error flag, and the memory with or without failures. */
  method WritePages(bus: Bus, block: nat, src: seq<byte>, ghost f0: Flash, ghost faults: Faults)
    returns (blockWriteError: bool)
    requires bus.Quiescent() && Behaves(bus.chip, f0, faults) && |src| == CHUNK_BYTES
    requires var p := Reached(block);
             forall r :: 32 * p <= r < 32 * p + 32 ==> MemoryAfter(f0, faults, bus.Cycles())[r] == ErasedRow()
    modifies bus.port, bus.outCellValue, bus.inCellValue
    ensures bus.Quiescent() && blockWriteError == Spoils(faults, Reached(block))
    ensures MemoryAfter(f0, faults, bus.Cycles())
         == AfterPages(old(MemoryAfter(f0, faults, bus.Cycles())), faults, Reached(block), src, PAGES)
  {
    hide Bus.Valid, Bus.Quiescent, Bus.Cycles, Bus.Asked, MemoryAfter, Behaves, ErasedRow, WithMark, PageOf, Reached;
    ghost var p := Reached(block);
    ghost var mem := MemoryAfter(f0, faults, bus.Cycles());
    blockWriteError := false;
    for i := 0 to PAGES
      invariant bus.Quiescent()
      invariant blockWriteError <==> exists r :: 32 * p <= r < 32 * p + i && r in faults.dud
      invariant MemoryAfter(f0, faults, bus.Cycles()) == AfterPages(mem, faults, p, src, i)
    {
      AfterPagesKeeps(mem, faults, p, src, i, 32 * p + i);
      var code := WriteOnePage(bus, block, i, src, f0, faults);
      if code != BAD_BLOCK_OK {
        blockWriteError := true;
      }
    }
  }

  // ---------------------------------------------------------------- the whole write

  /**
   The memory after the write loop has gone on from block b: k chunks have been counted, `pos` chunks have been read
   from the file, and n are to be counted.
   */
  function Image(mem: Memory, faults: Faults, file: seq<byte>, b: nat, k: nat, pos: nat, n: nat): Memory
    decreases BLOCKS - b
  {
    if k >= n || b >= BLOCKS then mem
    else if b != 0 && MarkedBad(mem, b) then Image(mem, faults, file, b + 1, k, pos, n)
    else if b in faults.weak then Image(WithMark(mem, faults, b), faults, file, b + 1, k, pos, n)
    else
      Image(AfterPages(WithBlockErased(mem, b), faults, b, Chunk(file, pos), PAGES), faults, file, b + 1,
            if Spoils(faults, b) then k else k + 1, pos + 1, n)
  }

  /** How many blocks from b on take a chunk. */
  function GoodFrom(mem: Memory, faults: Faults, b: nat): nat
    decreases BLOCKS - b
  {
    if b >= BLOCKS then 0 else GoodFrom(mem, faults, b + 1) + BitValue(Takes(mem, faults, b))
  }

  /** Memories that agree from block b on. */
  predicate SameFrom(mem: Memory, mem': Memory, b: nat) {
    forall r :: 32 * b <= r < ROWS ==> mem[r] == mem'[r]
  }

  lemma {:induction false} GoodFromSame(mem: Memory, mem': Memory, faults: Faults, b: nat)
    requires SameFrom(mem, mem', b)
    ensures GoodFrom(mem, faults, b) == GoodFrom(mem', faults, b)
    decreases BLOCKS - b
  {
    hide Spoils;
    if b < BLOCKS {
      GoodFromSame(mem, mem', faults, b + 1);
    }
  }

  /** The memory of a block that has been erased and written. */
  function WithChunk(mem: Memory, faults: Faults, b: nat, chunk: seq<byte>): Memory
    requires b < BLOCKS && |chunk| == CHUNK_BYTES
  {
    AfterPages(WithBlockErased(mem, b), faults, b, chunk, PAGES)
  }

  /** Marking or writing block b changes no other block. */
  lemma OnlyBlockChanges(mem: Memory, faults: Faults, b: nat, chunk: seq<byte>, r: nat)
    requires b < BLOCKS && |chunk| == CHUNK_BYTES && r < ROWS && r / 32 != b
    ensures WithMark(mem, faults, b)[r] == mem[r] && WithChunk(mem, faults, b, chunk)[r] == mem[r]
  {
    hide AfterPages, ErasedRow, WithMark;
    MarkTouchesFirstRow(mem, faults, b, r);
    AfterPagesKeeps(WithBlockErased(mem, b), faults, b, chunk, PAGES, r);
  }

  lemma LaterBlocksSame(mem: Memory, faults: Faults, b: nat, chunk: seq<byte>)
    requires b < BLOCKS && |chunk| == CHUNK_BYTES
    ensures SameFrom(mem, WithMark(mem, faults, b), b + 1) && SameFrom(mem, WithChunk(mem, faults, b, chunk), b + 1)
  {
    hide WithMark, WithChunk;
    forall r | 32 * (b + 1) <= r < ROWS
      ensures mem[r] == WithMark(mem, faults, b)[r] && mem[r] == WithChunk(mem, faults, b, chunk)[r]
    {
      OnlyBlockChanges(mem, faults, b, chunk, r);
    }
  }

  lemma ErasedRows(mem: Memory, b: nat)
    requires b < BLOCKS
    ensures forall r :: 32 * b <= r < 32 * b + 32 ==> WithBlockErased(mem, b)[r] == ErasedRow()
  {
    hide ErasedRow;
  }

  lemma SameFromRefl(mem: Memory, b: nat)
    ensures SameFrom(mem, mem, b)
  {
  }

  /** One round of the write loop: the memory, and how many chunks are counted and read afterwards. */
  datatype Round = Round(mem: Memory, counted: nat, read: nat)

  function AfterRound(mem: Memory, faults: Faults, file: seq<byte>, b: nat, k: nat, pos: nat): Round {
    var p := Reached(b);
    if b != 0 && MarkedBad(mem, p) then Round(mem, k, pos)
    else if p in faults.weak then Round(WithMark(mem, faults, p), k, pos)
    else Round(WithChunk(mem, faults, p, Chunk(file, pos)), if Spoils(faults, p) then k else k + 1, pos + 1)
  }

  /** At most `rounds` rounds of the loop, from block number b on; there is none once n chunks are counted. */
  function Rounds(mem: Memory, faults: Faults, file: seq<byte>, b: nat, k: nat, pos: nat, n: nat, rounds: nat): Round
    decreases rounds
  {
    if rounds == 0 || k >= n then Round(mem, k, pos)
    else
      var x := AfterRound(mem, faults, file, b, k, pos);
      Rounds(x.mem, faults, file, b + 1, x.counted, x.read, n, rounds - 1)
  }

  /** The loop ends within as many passes over the chip as there are chunks. */
  predicate Ends(mem: Memory, faults: Faults, file: seq<byte>, b: nat, n: nat) {
    Rounds(mem, faults, file, b, 0, 0, n, BLOCKS * n).counted >= n
  }

  /** One round of the loop, on the chip. */
  method WriteRound(bus: Bus, file: seq<byte>, block: nat, k: nat, pos: nat, ghost f0: Flash, ghost faults: Faults)
    returns (blockcount: nat, position: nat)
    requires bus.Quiescent() && Behaves(bus.chip, f0, faults)
    modifies bus.port, bus.outCellValue, bus.inCellValue
    ensures bus.Quiescent()
    ensures Round(MemoryAfter(f0, faults, bus.Cycles()), blockcount, position)
         == AfterRound(old(MemoryAfter(f0, faults, bus.Cycles())), faults, file, block, k, pos)
  {
    hide Bus.Valid, Bus.Quiescent, Bus.Cycles, Bus.Asked, MemoryAfter, Behaves, Erased, Reached;
    hide AfterPages, WithBlockErased, WithMark, MarkedBad, ErasedRow, Chunk, Spoils;
    blockcount, position := k, pos;
    ghost var h, mem := bus.Cycles(), MemoryAfter(f0, faults, bus.Cycles());
    ErasedRows(mem, Reached(block));
    var bad := NfEraseBlock(bus, block);
    ErasedOutcome(bus.chip, f0, faults, h, block, bad, bus.Cycles());
    if bad == BAD_BLOCK_OK {
      var src := Chunk(file, position);
      position := position + 1;
      var blockWriteError := WritePages(bus, block, src, f0, faults);
      if !blockWriteError {
        blockcount := blockcount + 1;
      }
    }
  }

  /**
   K9Fxx08_write, whatever blocks are marked bad, fail to erase or fail to take a page. The source does not stop at the
   end of the chip: block number 1024 and its successors reach the blocks from 0 on, as long as chunks are left to be
   counted. With enough good blocks from the first one on, the memory is `Image`.
   */
  method K9Fxx08Write(bus: Bus, file: seq<byte>, start: nat, len: nat, ghost f0: Flash, ghost faults: Faults)
    requires bus.Quiescent() && Behaves(bus.chip, f0, faults)
    requires Ends(MemoryAfter(f0, faults, bus.Cycles()), faults, file, start / 0x4000, len / 0x4000)
    modifies bus.port, bus.outCellValue, bus.inCellValue
    ensures bus.Quiescent()
    ensures var mem, b: nat, n: nat := old(MemoryAfter(f0, faults, bus.Cycles())), start / 0x4000, len / 0x4000;
            && MemoryAfter(f0, faults, bus.Cycles()) == Rounds(mem, faults, file, b, 0, 0, n, BLOCKS * n).mem
            && (GoodFrom(mem, faults, b) >= n ==>
                  MemoryAfter(f0, faults, bus.Cycles()) == Image(mem, faults, file, b, 0, 0, n))
  {
    hide Bus.Valid, Bus.Quiescent, Bus.Cycles, Bus.Asked, MemoryAfter, Behaves, AfterRound, Image, GoodFrom;
    ghost var mem0 := MemoryAfter(f0, faults, bus.Cycles());
    var sourceBlock, numBlocks := start / 0x4000, len / 0x4000;
    ghost var left: nat := BLOCKS * numBlocks;
    ghost var end := Rounds(mem0, faults, file, sourceBlock, 0, 0, numBlocks, left);
    if GoodFrom(mem0, faults, sourceBlock) >= numBlocks {
      GoodBlocksSuffice(mem0, faults, file, sourceBlock, 0, 0, numBlocks, left);
    }
    var block: nat, blockcount: nat, position: nat := sourceBlock, 0, 0;
    while blockcount < numBlocks
      invariant bus.Quiescent()
      invariant end == Rounds(MemoryAfter(f0, faults, bus.Cycles()), faults, file,
                              block, blockcount, position, numBlocks, left)
      decreases left
    {
      blockcount, position := WriteRound(bus, file, block, blockcount, position, f0, faults);
      block := block + 1;
      left := left - 1;
    }
  }

  // ---------------------------------------------------------------- what the result means

  /** The m-th block from b on that takes a chunk. */
  function NthGood(mem: Memory, faults: Faults, b: nat, m: nat): (a: nat)
    requires m < GoodFrom(mem, faults, b)
    ensures b <= a < BLOCKS && Takes(mem, faults, a)
    decreases BLOCKS - b
  {
    if !Takes(mem, faults, b) then NthGood(mem, faults, b + 1, m)
    else if m == 0 then b
    else NthGood(mem, faults, b + 1, m - 1)
  }

  /** Later good blocks come later. */
  lemma {:induction false} NthGoodIncreases(mem: Memory, faults: Faults, b: nat, m: nat, m': nat)
    requires m < m' < GoodFrom(mem, faults, b)
    ensures NthGood(mem, faults, b, m) < NthGood(mem, faults, b, m')
    decreases BLOCKS - b
  {
    hide Takes;
    if !Takes(mem, faults, b) {
      NthGoodIncreases(mem, faults, b + 1, m, m');
    } else if m > 0 {
      NthGoodIncreases(mem, faults, b + 1, m - 1, m' - 1);
    }
  }

  /** How many blocks from b up to, but not including, a were erased and given a chunk, whether they took it or not. */
  function Tried(mem: Memory, faults: Faults, b: nat, a: nat): nat
    requires a <= BLOCKS
    decreases a - b
  {
    if b >= a then 0 else Tried(mem, faults, b + 1, a) + BitValue(Accepts(mem, faults, b))
  }

  /** What the later blocks are like does not depend on the earlier ones. */
  lemma {:induction false} TriedSame(mem: Memory, mem': Memory, faults: Faults, b: nat, a: nat)
    requires SameFrom(mem, mem', b) && a <= BLOCKS
    ensures Tried(mem, faults, b, a) == Tried(mem', faults, b, a)
    decreases a - b
  {
    if b < a { TriedSame(mem, mem', faults, b + 1, a); }
  }

  lemma {:induction false} NthGoodSame(mem: Memory, mem': Memory, faults: Faults, b: nat, m: nat)
    requires SameFrom(mem, mem', b) && m < GoodFrom(mem, faults, b)
    ensures GoodFrom(mem', faults, b) == GoodFrom(mem, faults, b)
    ensures NthGood(mem', faults, b, m) == NthGood(mem, faults, b, m)
    decreases BLOCKS - b
  {
    hide Spoils;
    GoodFromSame(mem, mem', faults, b);
    GoodFromSame(mem, mem', faults, b + 1);
    if !Takes(mem, faults, b) {
      NthGoodSame(mem, mem', faults, b + 1, m);
    } else if m > 0 {
      NthGoodSame(mem, mem', faults, b + 1, m - 1);
    }
  }

  lemma ImageRound(mem: Memory, faults: Faults, file: seq<byte>, b: nat, k: nat, pos: nat, n: nat)
    requires b < BLOCKS && k < n
    ensures var r := AfterRound(mem, faults, file, b, k, pos);
            && Image(mem, faults, file, b, k, pos, n) == Image(r.mem, faults, file, b + 1, r.counted, r.read, n)
            && r.counted == k + BitValue(Takes(mem, faults, b)) && r.read == pos + BitValue(Accepts(mem, faults, b))
            && SameFrom(mem, r.mem, b + 1)
  {
    hide MarkedBad, AfterPages, Chunk, WithMark, WithBlockErased, SameFrom, Spoils;
    SameFromRefl(mem, b + 1);
    LaterBlocksSame(mem, faults, b, Chunk(file, pos));
  }

  /** A round changes no block before its own. */
  lemma RoundKeepsEarlier(mem: Memory, faults: Faults, file: seq<byte>, b: nat, k: nat, pos: nat, r: nat)
    requires b < BLOCKS && r < 32 * b
    ensures AfterRound(mem, faults, file, b, k, pos).mem[r] == mem[r]
  {
    hide MarkedBad, WithMark, WithChunk, Chunk, Spoils;
    OnlyBlockChanges(mem, faults, b, Chunk(file, pos), r);
  }

  /** The blocks before b are behind the write loop. */
  lemma {:induction false} ImageKeepsEarlier(
      mem: Memory, faults: Faults, file: seq<byte>, b: nat, k: nat, pos: nat, n: nat, r: nat)
    requires r < 32 * b && r < ROWS
    ensures Image(mem, faults, file, b, k, pos, n)[r] == mem[r]
    decreases BLOCKS - b
  {
    hide AfterRound;
    if k < n && b < BLOCKS {
      hide Image;
      ImageRound(mem, faults, file, b, k, pos, n);
      RoundKeepsEarlier(mem, faults, file, b, k, pos, r);
      var x := AfterRound(mem, faults, file, b, k, pos);
      ImageKeepsEarlier(x.mem, faults, file, b + 1, x.counted, x.read, n, r);
    }
  }

  /** With enough good blocks from b on, the loop ends before the end of the chip. */
  lemma {:induction false} GoodBlocksSuffice(
      mem: Memory, faults: Faults, file: seq<byte>, b: nat, k: nat, pos: nat, n: nat, rounds: nat)
    requires n <= k + GoodFrom(mem, faults, b) && (k < n ==> b + rounds >= BLOCKS)
    ensures var x := Rounds(mem, faults, file, b, k, pos, n, rounds);
            x.counted >= n && x.mem == Image(mem, faults, file, b, k, pos, n)
    decreases BLOCKS - b
  {
    hide AfterRound, SameFrom, Takes, Accepts;
    if k < n {
      hide Image;
      ImageRound(mem, faults, file, b, k, pos, n);
      var x := AfterRound(mem, faults, file, b, k, pos);
      GoodFromSame(mem, x.mem, faults, b + 1);
      GoodBlocksSuffice(x.mem, faults, file, b + 1, x.counted, x.read, n, rounds - 1);
    }
  }

  // ---------------------------------------------------------------- when the loop ends, and when not

  /** A block that would take a chunk whatever its number. */
  predicate Open(mem: Memory, faults: Faults, p: nat)
    requires p < BLOCKS
  {
    !MarkedBad(mem, p) && p !in faults.weak && !Spoils(faults, p)
  }

  /** A round counts a chunk exactly when the block it reaches is open, or is block 0 reached by its own number. */
  lemma RoundCounts(mem: Memory, faults: Faults, file: seq<byte>, b: nat, k: nat, pos: nat)
    ensures var x := AfterRound(mem, faults, file, b, k, pos);
            && k <= x.counted <= k + 1
            && (Open(mem, faults, Reached(b)) ==> x.counted == k + 1)
            && (b > 0 && !Open(mem, faults, Reached(b)) ==> x.counted == k)
  {
    hide MarkedBad, Spoils, WithMark, WithChunk, Chunk, Reached;
  }

  /** A round that counts no chunk opens no block, and leaves its own one closed. */
  lemma RoundOpensNone(mem: Memory, faults: Faults, file: seq<byte>, b: nat, k: nat, pos: nat, p: nat)
    requires p < BLOCKS && AfterRound(mem, faults, file, b, k, pos).counted == k
    ensures !Open(mem, faults, p) || p == Reached(b) ==>
              !Open(AfterRound(mem, faults, file, b, k, pos).mem, faults, p)
  {
    hide Spoils, WithMark, WithChunk, Chunk, Reached;
    var q := Reached(b);
    if p != q {
      OnlyBlockChanges(mem, faults, q, Chunk(file, pos), 32 * p);
      OnlyBlockChanges(mem, faults, q, Chunk(file, pos), 32 * p + 1);
    }
  }

  lemma {:induction false} CountsGrow(
      mem: Memory, faults: Faults, file: seq<byte>, b: nat, k: nat, pos: nat, n: nat, rounds: nat)
    ensures k <= Rounds(mem, faults, file, b, k, pos, n, rounds).counted
    decreases rounds
  {
    hide AfterRound, Open, Reached;
    if rounds > 0 && k < n {
      RoundCounts(mem, faults, file, b, k, pos);
      var x := AfterRound(mem, faults, file, b, k, pos);
      CountsGrow(x.mem, faults, file, b + 1, x.counted, x.read, n, rounds - 1);
    }
  }

  /** Rounds in two parts; no more take place once n chunks are counted. */
  lemma {:induction false} RoundsSplit(
      mem: Memory, faults: Faults, file: seq<byte>, b: nat, k: nat, pos: nat, n: nat, first: nat, rest: nat)
    ensures var x := Rounds(mem, faults, file, b, k, pos, n, first);
            Rounds(mem, faults, file, b, k, pos, n, first + rest)
            == Rounds(x.mem, faults, file, b + first, x.counted, x.read, n, rest)
    decreases first
  {
    hide AfterRound;
    if first > 0 && k < n {
      var x := AfterRound(mem, faults, file, b, k, pos);
      RoundsSplit(x.mem, faults, file, b + 1, x.counted, x.read, n, first - 1, rest);
    }
  }

  /** The i-th block number from b on reaches block p. */
  predicate Reaches(b: nat, i: nat, p: nat) {
    Reached(b + i) == p
  }

  /** Rounds that count no chunk leave every block that they reach closed. */
  lemma {:induction false} PassCloses(
      mem: Memory, faults: Faults, file: seq<byte>, b: nat, k: nat, pos: nat, n: nat, rounds: nat, p: nat)
    requires k < n && p < BLOCKS && Rounds(mem, faults, file, b, k, pos, n, rounds).counted == k
    requires !Open(mem, faults, p) || exists i: nat :: i < rounds && Reaches(b, i, p)
    ensures !Open(Rounds(mem, faults, file, b, k, pos, n, rounds).mem, faults, p)
    decreases rounds
  {
    hide AfterRound, Open, Reached;
    if rounds > 0 {
      var x := AfterRound(mem, faults, file, b, k, pos);
      RoundCounts(mem, faults, file, b, k, pos);
      CountsGrow(x.mem, faults, file, b + 1, x.counted, x.read, n, rounds - 1);
      RoundOpensNone(mem, faults, file, b, k, pos, p);
      if Open(x.mem, faults, p) {
        var i: nat :| i < rounds && Reaches(b, i, p);
        assert i > 0 && Reaches(b + 1, i - 1, p);
      }
      PassCloses(x.mem, faults, file, b + 1, x.counted, x.read, n, rounds - 1, p);
    }
  }

  /** On a chip without an open block no chunk is ever counted again. */
  lemma {:induction false} NoneEverCounted(
      mem: Memory, faults: Faults, file: seq<byte>, b: nat, k: nat, pos: nat, n: nat, rounds: nat)
    requires b > 0 && forall p: nat :: p < BLOCKS ==> !Open(mem, faults, p)
    ensures Rounds(mem, faults, file, b, k, pos, n, rounds).counted == k
    decreases rounds
  {
    hide AfterRound, Open, Reached;
    if rounds > 0 && k < n {
      var x := AfterRound(mem, faults, file, b, k, pos);
      RoundCounts(mem, faults, file, b, k, pos);
      forall p: nat | p < BLOCKS
        ensures !Open(x.mem, faults, p)
      {
        RoundOpensNone(mem, faults, file, b, k, pos, p);
      }
      NoneEverCounted(x.mem, faults, file, b + 1, x.counted, x.read, n, rounds - 1);
    }
  }

  /** Any 1024 consecutive block numbers reach every block. */
  lemma ReachedInPass(b: nat, p: nat)
    requires p < BLOCKS
    ensures exists i: nat :: i < BLOCKS && Reaches(b, i, p)
  {
    var i: nat := if p >= Reached(b) then p - Reached(b) else p + BLOCKS - Reached(b);
    var q := b / BLOCKS;
    DivIs(b + i, BLOCKS, if p >= Reached(b) then q else q + 1, p);
    assert Reaches(b, i, p);
  }

  /** A pass over the chip that counts no chunk is followed by none that does. */
  lemma IdlePass(mem: Memory, faults: Faults, file: seq<byte>, b: nat, k: nat, pos: nat, n: nat, more: nat)
    requires k < n && Rounds(mem, faults, file, b, k, pos, n, BLOCKS).counted == k
    ensures Rounds(mem, faults, file, b, k, pos, n, BLOCKS + more).counted == k
  {
    hide Rounds, Open, Reached;
    var x := Rounds(mem, faults, file, b, k, pos, n, BLOCKS);
    forall p: nat | p < BLOCKS
      ensures !Open(x.mem, faults, p)
    {
      ReachedInPass(b, p);
      PassCloses(mem, faults, file, b, k, pos, n, BLOCKS, p);
    }
    RoundsSplit(mem, faults, file, b, k, pos, n, BLOCKS, more);
    NoneEverCounted(x.mem, faults, file, b + BLOCKS, x.counted, x.read, n, more);
  }

  /** If the loop ends at all, every pass until then counts a chunk. */
  lemma {:induction false} EndsInTime(
      mem: Memory, faults: Faults, file: seq<byte>, b: nat, k: nat, pos: nat, n: nat, rounds: nat)
    requires Rounds(mem, faults, file, b, k, pos, n, rounds).counted >= n
    ensures k < n ==> Rounds(mem, faults, file, b, k, pos, n, BLOCKS * (n - k)).counted >= n
    decreases n - k
  {
    hide Rounds;
    if k < n {
      var x := Rounds(mem, faults, file, b, k, pos, n, BLOCKS);
      CountsGrow(mem, faults, file, b, k, pos, n, BLOCKS);
      var more: nat := if rounds < BLOCKS then 0 else rounds - BLOCKS;
      if rounds < BLOCKS {
        RoundsSplit(mem, faults, file, b, k, pos, n, rounds, BLOCKS - rounds);
        var y := Rounds(mem, faults, file, b, k, pos, n, rounds);
        CountsGrow(y.mem, faults, file, b + rounds, y.counted, y.read, n, BLOCKS - rounds);
      }
      RoundsSplit(mem, faults, file, b, k, pos, n, BLOCKS, more);
      CountsGrow(x.mem, faults, file, b + BLOCKS, x.counted, x.read, n, more);
      if x.counted == k { IdlePass(mem, faults, file, b, k, pos, n, more); }
      assert x.counted > k;
      EndsInTime(x.mem, faults, file, b + BLOCKS, x.counted, x.read, n, more);
      var rest := BLOCKS * (n - k - 1);
      RoundsSplit(mem, faults, file, b, k, pos, n, BLOCKS, rest);
      if x.counted < n {
        MoreRounds(x.mem, faults, file, b + BLOCKS, x.counted, x.read, n, BLOCKS * (n - x.counted), rest);
      } else {
        CountsGrow(x.mem, faults, file, b + BLOCKS, x.counted, x.read, n, rest);
      }
    }
  }

  lemma MoreRounds(mem: Memory, faults: Faults, file: seq<byte>, b: nat, k: nat, pos: nat, n: nat, r: nat, r': nat)
    requires r <= r'
    ensures Rounds(mem, faults, file, b, k, pos, n, r).counted <= Rounds(mem, faults, file, b, k, pos, n, r').counted
  {
    hide Rounds;
    var y := Rounds(mem, faults, file, b, k, pos, n, r);
    RoundsSplit(mem, faults, file, b, k, pos, n, r, r' - r);
    CountsGrow(y.mem, faults, file, b + r, y.counted, y.read, n, r' - r);
  }

  /** `Ends` is exact: the loop ends if and only if it does so within one pass over the chip for each chunk. */
  lemma EndsExactly(mem: Memory, faults: Faults, file: seq<byte>, b: nat, n: nat)
    ensures Ends(mem, faults, file, b, n)
       <==> exists rounds: nat :: Rounds(mem, faults, file, b, 0, 0, n, rounds).counted >= n
  {
    hide Rounds;
    if rounds: nat :| Rounds(mem, faults, file, b, 0, 0, n, rounds).counted >= n {
      EndsInTime(mem, faults, file, b, 0, 0, n, rounds);
      CountsGrow(mem, faults, file, b, 0, 0, n, BLOCKS * n);
    }
  }

  /** The state at the end of the chip when the good blocks do not suffice. */
  lemma {:induction false} EndOfChip(mem: Memory, faults: Faults, file: seq<byte>, b: nat, k: nat, pos: nat, n: nat)
    requires b <= BLOCKS && k + GoodFrom(mem, faults, b) < n
    ensures var x := Rounds(mem, faults, file, b, k, pos, n, BLOCKS - b);
            && x.counted == k + GoodFrom(mem, faults, b) && x.read == pos + Tried(mem, faults, b, BLOCKS)
            && forall r :: 0 <= r < 32 * b && r < ROWS ==> x.mem[r] == mem[r]
    decreases BLOCKS - b
  {
    hide AfterRound, SameFrom, Takes, Accepts;
    if b < BLOCKS {
      hide Image;
      ImageRound(mem, faults, file, b, k, pos, n);
      var x := AfterRound(mem, faults, file, b, k, pos);
      GoodFromSame(mem, x.mem, faults, b + 1);
      TriedSame(mem, x.mem, faults, b + 1, BLOCKS);
      EndOfChip(x.mem, faults, file, b + 1, x.counted, x.read, n);
      forall r | 0 <= r < 32 * b
        ensures x.mem[r] == mem[r]
      {
        RoundKeepsEarlier(mem, faults, file, b, k, pos, r);
      }
    }
  }

  /**
   A write from a later block on that finds too few good blocks goes on at block 0, where the boot loader is: unless
   that block is marked bad or faulty, it is erased and gets the next chunk.
   */
  lemma BootBlockOverwritten(mem: Memory, faults: Faults, file: seq<byte>, b: nat, n: nat, page: nat)
    requires 0 < b <= BLOCKS && GoodFrom(mem, faults, b) < n && page < PAGES && Open(mem, faults, 0)
    ensures Rounds(mem, faults, file, b, 0, 0, n, BLOCKS - b + 1).mem[page]
         == PageOf(Chunk(file, Tried(mem, faults, b, BLOCKS)), page)
  {
    hide GoodFrom, Tried, PageOf, Chunk, WithChunk, Rounds, AfterRound, Open;
    EndOfChip(mem, faults, file, b, 0, 0, n);
    RoundsSplit(mem, faults, file, b, 0, 0, n, BLOCKS - b, 1);
    var x := Rounds(mem, faults, file, b, 0, 0, n, BLOCKS - b);
    OneRound(x.mem, faults, file, BLOCKS, x.counted, x.read, n);
    StillOpen(mem, x.mem, faults);
    OpenRound(x.mem, faults, file, x.counted, x.read);
    PageInPlace(x.mem, faults, 0, Chunk(file, x.read), page);
  }

  lemma StillOpen(mem: Memory, mem': Memory, faults: Faults)
    requires Open(mem, faults, 0) && mem'[0] == mem[0] && mem'[1] == mem[1]
    ensures Open(mem', faults, 0) && !Spoils(faults, 0)
  {
    hide Spoils;
  }

  /** Block number 1024 reaches block 0. */
  lemma OpenRound(mem: Memory, faults: Faults, file: seq<byte>, k: nat, pos: nat)
    requires Open(mem, faults, 0)
    ensures AfterRound(mem, faults, file, BLOCKS, k, pos).mem == WithChunk(mem, faults, 0, Chunk(file, pos))
  {
    hide MarkedBad, Spoils, WithChunk, Chunk;
  }

  lemma OneRound(mem: Memory, faults: Faults, file: seq<byte>, b: nat, k: nat, pos: nat, n: nat)
    requires k < n
    ensures Rounds(mem, faults, file, b, k, pos, n, 1) == AfterRound(mem, faults, file, b, k, pos)
  {
    hide AfterRound;
  }

  lemma PageInPlace(mem: Memory, faults: Faults, b: nat, chunk: seq<byte>, page: nat)
    requires b < BLOCKS && page < PAGES && |chunk| == CHUNK_BYTES && !Spoils(faults, b)
    ensures WithChunk(mem, faults, b, chunk)[32 * b + page] == PageOf(chunk, page)
  {
    hide PageOf, Spoils, AfterPages;
    AfterPagesPlaces(WithBlockErased(mem, b), faults, b, chunk, PAGES);
  }

  /** The m-th good block holds, page by page, the chunk that was read for it. */
  lemma {:induction false} ChunksInOrder(
      mem: Memory, faults: Faults, file: seq<byte>, b: nat, k: nat, pos: nat, n: nat, m: nat, page: nat)
    requires k <= m < n && page < PAGES && n - k <= GoodFrom(mem, faults, b)
    ensures var a := NthGood(mem, faults, b, m - k);
            Image(mem, faults, file, b, k, pos, n)[32 * a + page]
            == PageOf(Chunk(file, pos + Tried(mem, faults, b, a)), page)
    decreases BLOCKS - b
  {
    hide Image, PageOf, Chunk, AfterRound, SameFrom, Takes, Accepts;
    ImageRound(mem, faults, file, b, k, pos, n);
    var x := AfterRound(mem, faults, file, b, k, pos);
    GoodFromSame(mem, x.mem, faults, b + 1);
    if Takes(mem, faults, b) && m == k {
      FirstTaken(mem, faults, file, b, k, pos, n, page);
    } else {
      var j := m - x.counted;
      NthGoodSame(mem, x.mem, faults, b + 1, j);
      TriedSame(mem, x.mem, faults, b + 1, NthGood(mem, faults, b + 1, j));
      ChunksInOrder(x.mem, faults, file, b + 1, x.counted, x.read, n, m, page);
    }
  }

  /** The same byte by byte: good block number m holds the bytes of the file from 0x4200 times its chunk number on. */
  lemma FileBytesInOrder(mem: Memory, faults: Faults, file: seq<byte>, b: nat, n: nat, m: nat, page: nat, i: nat)
    requires m < n <= GoodFrom(mem, faults, b) && page < 32 && i < 528
    ensures var a := NthGood(mem, faults, b, m);
            var k := 0x4200 * Tried(mem, faults, b, a) + 528 * page + i;
            Image(mem, faults, file, b, 0, 0, n)[32 * a + page][i] == if k < |file| then file[k] else 0
  {
    hide Image, Tried, NthGood, GoodFrom;
    ChunksInOrder(mem, faults, file, b, 0, 0, n, m, page);
  }

  lemma FirstTaken(mem: Memory, faults: Faults, file: seq<byte>, b: nat, k: nat, pos: nat, n: nat, page: nat)
    requires b < BLOCKS && k < n && page < PAGES && Takes(mem, faults, b)
    ensures Image(mem, faults, file, b, k, pos, n)[32 * b + page] == PageOf(Chunk(file, pos), page)
  {
    hide Image, PageOf, Chunk, MarkedBad, WithChunk, Spoils;
    ImageRound(mem, faults, file, b, k, pos, n);
    var x := AfterRound(mem, faults, file, b, k, pos);
    PageInPlace(mem, faults, b, Chunk(file, pos), page);
    ImageKeepsEarlier(x.mem, faults, file, b + 1, x.counted, x.read, n, 32 * b + page);
  }

  /** The m-th good block holds the m-th chunk if and only if no block before it was erased and then spoiled. */
  lemma {:induction false} ChunkNumber(mem: Memory, faults: Faults, b: nat, m: nat)
    requires m < GoodFrom(mem, faults, b)
    ensures var a := NthGood(mem, faults, b, m);
            && Tried(mem, faults, b, a) >= m
            && (Tried(mem, faults, b, a) == m
                <==> forall c :: b <= c < a ==> !(Accepts(mem, faults, c) && Spoils(faults, c)))
    decreases BLOCKS - b
  {
    hide Accepts, Spoils;
    if !Takes(mem, faults, b) {
      ChunkNumber(mem, faults, b + 1, m);
    } else if m > 0 {
      ChunkNumber(mem, faults, b + 1, m - 1);
    }
  }

  lemma {:induction false} TriedGrows(mem: Memory, faults: Faults, b: nat, c: nat, a: nat)
    requires b <= c < a <= BLOCKS && Accepts(mem, faults, c)
    ensures Tried(mem, faults, b, c) < Tried(mem, faults, b, a)
    decreases c - b
  {
    hide Accepts;
    if b < c { TriedGrows(mem, faults, b + 1, c, a); }
  }

  /** The chunk that was read for a spoiled block is in no good block: it is lost. */
  lemma ChunkLost(mem: Memory, faults: Faults, b: nat, c: nat, a: nat)
    requires b <= c < BLOCKS && b <= a < BLOCKS && Takes(mem, faults, a)
    requires Accepts(mem, faults, c) && Spoils(faults, c)
    ensures Tried(mem, faults, b, a) != Tried(mem, faults, b, c)
  {
    hide Spoils;
    if a < c { TriedGrows(mem, faults, b, a, c); } else { TriedGrows(mem, faults, b, c, a); }
  }

  /** A refused block never receives chunk data: at most its first page gets the bad-block mark. */
  lemma {:induction false} RefusedBlocksKept(
      mem: Memory, faults: Faults, file: seq<byte>, b: nat, k: nat, pos: nat, n: nat, c: nat, page: nat)
    requires b <= c < BLOCKS && !Accepts(mem, faults, c) && page < PAGES
    ensures var row := Image(mem, faults, file, b, k, pos, n)[32 * c + page];
            || row == mem[32 * c + page]
            || (page == 0 && c in faults.weak && row == Programmed(mem[32 * c], PAGE_BYTES, BAD_MARK))
    decreases BLOCKS - b
  {
    hide Programmed, AfterRound, SameFrom;
    if k < n {
      hide Image;
      ImageRound(mem, faults, file, b, k, pos, n);
      var x := AfterRound(mem, faults, file, b, k, pos);
      if c == b {
        RefusedRound(mem, faults, file, b, k, pos, page);
        ImageKeepsEarlier(x.mem, faults, file, b + 1, x.counted, x.read, n, 32 * c + page);
      } else {
        SameBlock(mem, x.mem, faults, b + 1, c, page);
        RefusedBlocksKept(x.mem, faults, file, b + 1, x.counted, x.read, n, c, page);
      }
    }
  }

  lemma RefusedRound(mem: Memory, faults: Faults, file: seq<byte>, b: nat, k: nat, pos: nat, page: nat)
    requires b < BLOCKS && !Accepts(mem, faults, b) && page < PAGES
    ensures var row := AfterRound(mem, faults, file, b, k, pos).mem[32 * b + page];
            || row == mem[32 * b + page]
            || (page == 0 && b in faults.weak && row == Programmed(mem[32 * b], PAGE_BYTES, BAD_MARK))
  {
    hide Programmed, MarkedBad, WithChunk;
  }

  lemma SameBlock(mem: Memory, mem': Memory, faults: Faults, b: nat, c: nat, page: nat)
    requires b <= c < BLOCKS && page < PAGES && SameFrom(mem, mem', b)
    ensures Accepts(mem, faults, c) == Accepts(mem', faults, c)
    ensures mem[32 * c] == mem'[32 * c] && mem[32 * c + page] == mem'[32 * c + page]
  {
  }

  // ---------------------------------------------------------------- the mark and the next look at it

  /** A byte that has been marked stays marked through later page writes of its block. */
  lemma {:induction false} FirstRowMarked(mem: Memory, faults: Faults, block: nat, chunk: seq<byte>, m: nat, n: nat)
    requires |chunk| == CHUNK_BYTES && m < n <= PAGES && block < BLOCKS
    requires 32 * block + m in faults.dud && 32 * block !in faults.dud
    ensures AfterPages(mem, faults, block, chunk, n)[32 * block][MARK_COLUMN] <= 0x44
  {
    hide WithMark, PageOf;
    var was := AfterPages(mem, faults, block, chunk, n - 1);
    if 32 * block + (n - 1) in faults.dud {
      MarkShows(was, faults, block);
    } else {
      FirstRowMarked(mem, faults, block, chunk, m, n - 1);
    }
  }

  /** With a first row that cannot be programmed nothing but the data of the second one can mark the block. */
  lemma {:induction false} DudFirstRow(mem: Memory, faults: Faults, block: nat, chunk: seq<byte>, n: nat)
    requires |chunk| == CHUNK_BYTES && 2 <= n <= PAGES && block < BLOCKS && 32 * block in faults.dud
    ensures AfterPages(mem, faults, block, chunk, n)[32 * block] == mem[32 * block]
    ensures AfterPages(mem, faults, block, chunk, n)[32 * block + 1]
         == if 32 * block + 1 in faults.dud then mem[32 * block + 1] else PageOf(chunk, 1)
  {
    hide PageOf, Programmed;
    if n > 2 {
      DudFirstRow(mem, faults, block, chunk, n - 1);
    } else {
      assert AfterPages(mem, faults, block, chunk, 0) == mem;
      assert AfterPages(mem, faults, block, chunk, 1) == mem;
    }
  }

  /**
   A block that fails to take a page is seen as bad afterwards if and only if its first page can be programmed with the
   mark, or the second page has been programmed with something else than 0xFF in the place of the mark.
   */
  lemma SpoiledBlockMarked(mem: Memory, faults: Faults, block: nat, chunk: seq<byte>)
    requires |chunk| == CHUNK_BYTES && block < BLOCKS && Spoils(faults, block)
    ensures MarkedBad(WithChunk(mem, faults, block, chunk), block)
       <==> 32 * block !in faults.dud || (32 * block + 1 !in faults.dud && chunk[528 + 517] != 0xff)
  {
    hide AfterPages, WithBlockErased;
    var erased := WithBlockErased(mem, block);
    ErasedRows(mem, block);
    if 32 * block in faults.dud {
      DudFirstRow(erased, faults, block, chunk, PAGES);
      assert PageOf(chunk, 1)[MARK_COLUMN] == chunk[528 + 517];
    } else {
      var r :| 32 * block <= r < 32 * block + 32 && r in faults.dud;
      FirstRowMarked(erased, faults, block, chunk, r - 32 * block, PAGES);
    }
  }

  /** A block that fails to erase is seen as bad afterwards if and only if it was before, or takes the mark. */
  lemma WeakBlockMarked(mem: Memory, faults: Faults, block: nat)
    requires block < BLOCKS
    ensures MarkedBad(WithMark(mem, faults, block), block)
       <==> MarkedBad(mem, block) || 32 * block !in faults.dud
  {
    hide Programmed;
    if 32 * block !in faults.dud { MarkShows(mem, faults, block); }
  }

  /** After NF_MarkBadBlock the mark is read back, and every block but 0 is refused without an erase. */
  method MarkAndErase(bus: Bus, block: nat, ghost f0: Flash, ghost faults: Faults) returns (bad: byte, code: nat)
    requires bus.Quiescent() && Behaves(bus.chip, f0, faults) && 32 * Reached(block) !in faults.dud
    modifies bus.port, bus.outCellValue, bus.inCellValue
    ensures bus.Quiescent() && bad != 0xff && (block != 0 ==> code == BAD_BLOCK_FACTORY)
    ensures block != 0 ==>
              MemoryAfter(f0, faults, bus.Cycles())
              == WithMark(old(MemoryAfter(f0, faults, bus.Cycles())), faults, Reached(block))
  {
    hide Bus.Valid, Bus.Quiescent, Bus.Cycles, Bus.Asked, MemoryAfter, Behaves, Reached, WithMark, MarkedBad;
    hide MarkCycles, MarkReadCycles, Erased;
    ghost var mem := MemoryAfter(f0, faults, bus.Cycles());
    BlockMarked(f0, faults, bus.Cycles(), block);
    MarkShows(mem, faults, Reached(block));
    NfMarkBadBlock(bus, block);
    ghost var h := bus.Cycles();
    MarksRead(bus.chip, f0, faults, h, block);
    bad := NfIsBadBlock(bus, block);
    ghost var h2 := bus.Cycles();
    code := NfEraseBlock(bus, block);
    ErasedOutcome(bus.chip, f0, faults, h2, block, code, bus.Cycles());
  }

  // ---------------------------------------------------------------- a page there and back

  /** A page that is written to an erased good row and read again comes back, main and spare area. */
  method WriteAndReadPage(bus: Bus, block: nat, page: nat, buffer: seq<byte>, spareBuf: seq<byte>,
                          readBuffer: array<byte>, readSpare: array<byte>, ghost f0: Flash, ghost faults: Faults)
    requires bus.Quiescent() && Behaves(bus.chip, f0, faults) && block < BLOCKS && page < PAGES
    requires |buffer| == PAGE_BYTES && |spareBuf| == SPARE_BYTES && readBuffer != readSpare
    requires readBuffer.Length == PAGE_BYTES && readSpare.Length == SPARE_BYTES
    requires MemoryAfter(f0, faults, bus.Cycles())[32 * block + page] == ErasedRow() && 32 * block + page !in faults.dud
    modifies bus.port, bus.outCellValue, bus.inCellValue, readBuffer, readSpare
    ensures bus.Quiescent() && readBuffer[..] == buffer && readSpare[..] == spareBuf
  {
    hide Bus.Valid, Bus.Quiescent, Bus.Cycles, Bus.Asked, MemoryAfter, ProgramCycles, MarkCycles, Behaves;
    hide ErasedRow, ReadBack, PageReadCycles, Strobes;
    var row := 32 * block + page;
    PageWritten(bus.chip, f0, faults, bus.Cycles(), row, buffer + spareBuf);
    var code := NfWritePage(bus, block, page, buffer, spareBuf);
    ghost var h := bus.Cycles();
    var mark := NfReadPage(bus, block, page, readBuffer, readSpare);
    RowReadBack(bus.chip, f0, faults, h, row, readBuffer[..] + readSpare[..]);
    assert readBuffer[..] + readSpare[..] == buffer + spareBuf;
    assert (buffer + spareBuf)[..PAGE_BYTES] == (readBuffer[..] + readSpare[..])[..PAGE_BYTES];
    assert (buffer + spareBuf)[PAGE_BYTES..] == (readBuffer[..] + readSpare[..])[PAGE_BYTES..];
  }

  /** The bytes read back from a selected row are the row. */
  lemma RowReadBack(chip: Chip, f0: Flash, faults: Faults, h: seq<BusEvent>, row: nat, data: seq<byte>)
    requires Behaves(chip, f0, faults) && row < ROWS && |data| == ROW_BYTES
    requires ReadBack(chip, h + PageReadCycles(row), data)
    ensures data == MemoryAfter(f0, faults, h)[row]
  {
    hide Run, PageReadCycles, Strobes, Output;
    forall i | 0 <= i < ROW_BYTES
      ensures data[i] == MemoryAfter(f0, faults, h)[row][i]
    {
      assert h + PageReadCycles(row) + Strobes(i + 1) == h + (PageReadCycles(row) + Strobes(i + 1));
      RunAppend(f0, faults, h, PageReadCycles(row) + Strobes(i + 1));
      PageReadEffect(Run(f0, faults, h), faults, row, i + 1);
    }
  }
}
