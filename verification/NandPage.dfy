/**
The page and block operations of devtools/sharpflash/k9fxx08.c, each as the exact sequence of bus cycles the
chip decodes from the pins and the bytes read back. They hold for every chip.
 */
module NandPage {
  import opened Bits
  import opened NandBus

  const PAGE_BYTES := 512
  const SPARE_BYTES := 16

  // Return codes of the block operations.
  const BAD_BLOCK_OK := 0
  const BAD_BLOCK_ERASE := 1
  const BAD_BLOCK_FACTORY := 2
  const BAD_BLOCK_WRITE := 3

  /** (block << 5) + page. */
  function RowOf(block: nat, page: nat): nat {
    32 * block + page
  }

  /** The two row address cycles: bits 0 to 7 and bits 8 to 14 of the row. */
  function RowCycles(row: nat): seq<BusEvent> {
    [Address(row % 0x100), Address(row / 0x100 % 0x80)]
  }

  function PageCycles(column: byte, row: nat): seq<BusEvent> {
    [Address(column)] + RowCycles(row)
  }

  function DataCycles(data: seq<byte>): (c: seq<BusEvent>)
    ensures |c| == |data|
  {
    seq(|data|, i requires 0 <= i < |data| => Data(data[i]))
  }

  function Strobes(n: nat): (c: seq<BusEvent>)
    ensures |c| == n
  {
    seq(n, i => ReadStrobe)
  }

  /** Programming a row from the start of an area, up to and including the status command. */
  function AreaCycles(area: byte, row: nat, data: seq<byte>): seq<BusEvent> {
    [Command(area), Command(0x80)] + PageCycles(0, row) + DataCycles(data) + [Command(0x10), Command(0x70)]
  }

  /** The cycles of a page write. */
  function ProgramCycles(row: nat, data: seq<byte>): seq<BusEvent> {
    AreaCycles(0x00, row, data)
  }

  /** The spare area that marks a block bad: 0x44 in its sixth byte. */
  const BAD_MARK: seq<byte> :=
    [0xff, 0xff, 0xff, 0xff, 0xff, 0x44, 0xff, 0xff, 0xff, 0xff, 0xff, 0xff, 0xff, 0xff, 0xff, 0xff]

  function MarkCycles(block: nat): seq<BusEvent> {
    AreaCycles(0x50, RowOf(block, 0), BAD_MARK)
  }

  function EraseCycles(block: nat): seq<BusEvent> {
    [Command(0x60)] + RowCycles(RowOf(block, 0)) + [Command(0xd0), Command(0x70)]
  }

  /** Reading the bad-block byte of a page. */
  function MarkReadCycles(row: nat): seq<BusEvent> {
    [Command(0x50)] + PageCycles(5, row) + [ReadStrobe]
  }

  /** Bytes read with successive strobes after a history. */
  ghost predicate ReadBack(chip: Chip, history: seq<BusEvent>, data: seq<byte>) {
    forall i :: 0 <= i < |data| ==> data[i] == chip.answer(history + Strobes(i + 1))
  }

  lemma DataCyclesSnoc(data: seq<byte>, i: nat)
    requires i < |data|
    ensures DataCycles(data[..i + 1]) == DataCycles(data[..i]) + [Data(data[i])]
  {
  }

  lemma StrobesSnoc(n: nat)
    ensures Strobes(n + 1) == Strobes(n) + [ReadStrobe]
  {
  }

  lemma NothingRead(chip: Chip, history: seq<BusEvent>)
    ensures ReadBack(chip, history, []) && Strobes(0) == []
  {
  }

  lemma ReadBackSnoc(chip: Chip, history: seq<BusEvent>, data: seq<byte>, b: byte)
    requires ReadBack(chip, history, data) && b == chip.answer(history + Strobes(|data| + 1))
    ensures ReadBack(chip, history, data + [b])
  {
  }

  /** Writes successive data bytes. */
  method WriteBytes(bus: Bus, data: seq<byte>)
    requires bus.Enabled()
    modifies bus.port, bus.outCellValue
    ensures bus.Enabled() && bus.Cycles() == old(bus.Cycles()) + DataCycles(data)
  {
    hide Bus.Valid, Bus.Quiescent, Bus.Cycles, Bus.Asked, OthersKept;
    for i := 0 to |data|
      invariant bus.Enabled() && bus.Cycles() == old(bus.Cycles()) + DataCycles(data[..i])
    {
      DataCyclesSnoc(data, i);
      bus.NfWrData(data[i]);
    }
    assert data[..|data|] == data;
  }

  /** Reads successive data bytes into a buffer. */
  method ReadBytes(bus: Bus, buffer: array<byte>)
    requires bus.Enabled()
    modifies bus.port, bus.outCellValue, bus.inCellValue, buffer
    ensures bus.Enabled() && bus.Cycles() == old(bus.Cycles()) + Strobes(buffer.Length)
    ensures ReadBack(bus.chip, old(bus.Cycles()), buffer[..])
  {
    hide Bus.Valid, Bus.Quiescent, Bus.Cycles, Bus.Asked, OthersKept, ReadBack, Strobes;
    NothingRead(bus.chip, bus.Cycles());
    assert buffer[..0] == [];
    for i := 0 to buffer.Length
      invariant bus.Enabled() && bus.Cycles() == old(bus.Cycles()) + Strobes(i)
      invariant ReadBack(bus.chip, old(bus.Cycles()), buffer[..i])
    {
      StrobesSnoc(i);
      var b := bus.NfRdData();
      assert bus.Cycles() == old(bus.Cycles()) + Strobes(i + 1);
      ReadBackSnoc(bus.chip, old(bus.Cycles()), buffer[..i], b);
      buffer[i] := b;
      assert buffer[..i + 1] == buffer[..i] + [b];
    }
    assert buffer[..buffer.Length] == buffer[..];
  }

  /** The three address cycles of a page operation. */
  method AddressPage(bus: Bus, column: byte, row: nat)
    requires bus.Quiescent()
    modifies bus.port, bus.outCellValue
    ensures bus.Enabled() && bus.Cycles() == old(bus.Cycles()) + PageCycles(column, row)
  {
    hide Bus.Valid, Bus.Quiescent, Bus.Cycles, Bus.Asked, OthersKept;
    bus.NfAddr(column);
    bus.NfAddr(row % 0x100);
    bus.NfAddr(row / 0x100 % 0x80);
  }

  /** The commands and addresses before the data of a program operation. */
  method BeginProgram(bus: Bus, area: byte, row: nat)
    requires bus.Quiescent()
    modifies bus.port, bus.outCellValue
    ensures bus.Enabled()
    ensures bus.Cycles() == old(bus.Cycles()) + ([Command(area), Command(0x80)] + PageCycles(0, row))
  {
    hide Bus.Valid, Bus.Quiescent, Bus.Cycles, Bus.Asked, OthersKept, PageCycles;
    bus.NfCmd(area);
    bus.NfCmd(0x80);
    AddressPage(bus, 0, row);
  }

  /** The commands after the data. */
  method EndProgram(bus: Bus)
    requires bus.Enabled()
    modifies bus.port, bus.outCellValue, bus.inCellValue
    ensures bus.Enabled() && bus.Cycles() == old(bus.Cycles()) + [Command(0x10), Command(0x70)]
  {
    hide Bus.Valid, Bus.Quiescent, Bus.Cycles, Bus.Asked, OthersKept;
    bus.NfCmd(0x10);
    bus.NfWaitRb();
    bus.NfCmd(0x70);
  }

  lemma ProgramParts(h: seq<BusEvent>, area: byte, row: nat, data: seq<byte>, spare: seq<byte>)
    ensures h + ([Command(area), Command(0x80)] + PageCycles(0, row)) + DataCycles(data) + DataCycles(spare)
            + [Command(0x10), Command(0x70)]
         == h + AreaCycles(area, row, data + spare)
  {
    hide PageCycles;
    assert DataCycles(data + spare) == DataCycles(data) + DataCycles(spare);
  }

  /** NF_MarkBadBlock. */
  method NfMarkBadBlock(bus: Bus, block: nat)
    requires bus.Quiescent()
    modifies bus.port, bus.outCellValue, bus.inCellValue
    ensures bus.Quiescent() && bus.Cycles() == old(bus.Cycles()) + MarkCycles(block)
  {
    hide Bus.Valid, Bus.Quiescent, Bus.Cycles, Bus.Asked, OthersKept, PageCycles, AreaCycles;
    var row := RowOf(block, 0);
    bus.NfFceLow();
    BeginProgram(bus, 0x50, row);
    WriteBytes(bus, BAD_MARK);
    EndProgram(bus);
    bus.NfFceHigh();
    ProgramParts(old(bus.Cycles()), 0x50, row, BAD_MARK, []);
    assert BAD_MARK + [] == BAD_MARK && DataCycles([]) == [];
  }

  /** The first half of NF_WritePage, up to the status; an empty spare buffer stands for NULL. */
  method ProgramPage(bus: Bus, row: nat, buffer: seq<byte>, spareBuf: seq<byte>) returns (status: byte)
    requires bus.Quiescent()
    modifies bus.port, bus.outCellValue, bus.inCellValue
    ensures bus.Quiescent()
    ensures bus.Cycles() == old(bus.Cycles()) + ProgramCycles(row, buffer + spareBuf) + [ReadStrobe]
    ensures status == bus.chip.answer(bus.Cycles())
  {
    hide Bus.Valid, Bus.Quiescent, Bus.Cycles, Bus.Asked, OthersKept, PageCycles, AreaCycles, DataCycles;
    bus.NfFceLow();
    BeginProgram(bus, 0x00, row);
    WriteBytes(bus, buffer);
    NoData();
    if spareBuf != [] {
      WriteBytes(bus, spareBuf);
    }
    EndProgram(bus);
    ProgramParts(old(bus.Cycles()), 0x00, row, buffer, spareBuf);
    status := bus.NfRdData();
    bus.NfFceHigh();
  }

  lemma NoData()
    ensures DataCycles([]) == []
  {
  }

  /** NF_WritePage; an empty spare buffer stands for NULL. */
  method NfWritePage(bus: Bus, block: nat, page: nat, buffer: seq<byte>, spareBuf: seq<byte>) returns (code: nat)
    requires bus.Quiescent() && |buffer| == PAGE_BYTES && (|spareBuf| == SPARE_BYTES || spareBuf == [])
    modifies bus.port, bus.outCellValue, bus.inCellValue
    ensures bus.Quiescent()
    ensures var asked := old(bus.Cycles()) + ProgramCycles(RowOf(block, page), buffer + spareBuf) + [ReadStrobe];
            if bus.chip.answer(asked) % 2 == 1 then code == BAD_BLOCK_WRITE && bus.Cycles() == asked + MarkCycles(block)
            else code == BAD_BLOCK_OK && bus.Cycles() == asked
  {
    hide Bus.Valid, Bus.Quiescent, Bus.Cycles, Bus.Asked, OthersKept, MarkCycles, ProgramCycles;
    var status := ProgramPage(bus, RowOf(block, page), buffer, spareBuf);
    if status % 2 == 1 {
      NfMarkBadBlock(bus, block);
      code := BAD_BLOCK_WRITE;
    } else {
      code := BAD_BLOCK_OK;
    }
  }

  /** The part of NF_ReadPage before the spare area: 512 bytes from the start of the row. */
  method ReadMainArea(bus: Bus, row: nat, buffer: array<byte>)
    requires bus.Quiescent() && buffer.Length == PAGE_BYTES
    modifies bus.port, bus.outCellValue, bus.inCellValue, buffer
    ensures bus.Enabled()
    ensures var h := old(bus.Cycles()) + PageReadCycles(row);
            bus.Cycles() == h + Strobes(PAGE_BYTES) && ReadBack(bus.chip, h, buffer[..])
  {
    hide Bus.Valid, Bus.Quiescent, Bus.Cycles, Bus.Asked, OthersKept, ReadBack, PageCycles;
    bus.NfFceLow();
    bus.NfCmd(0x00);
    AddressPage(bus, 0, row);
    bus.NfWaitRb();
    assert bus.Cycles() == old(bus.Cycles()) + PageReadCycles(row);
    ReadBytes(bus, buffer);
  }

  /** The cycles that select a row for reading. */
  function PageReadCycles(row: nat): seq<BusEvent> {
    [Command(0x00)] + PageCycles(0, row)
  }

  /**
   NF_ReadPage: 512 bytes and, with a spare buffer, the 16 bytes after them; the result is the bad-block byte, which
   is read on its own when there is no spare buffer.
   */
  method NfReadPage(bus: Bus, block: nat, page: nat, buffer: array<byte>, spareBuf: array?<byte>) returns (ret: byte)
    requires bus.Quiescent() && buffer.Length == PAGE_BYTES
    requires spareBuf != null ==> spareBuf.Length == SPARE_BYTES && buffer != spareBuf
    modifies bus.port, bus.outCellValue, bus.inCellValue, buffer, if spareBuf == null then {} else {spareBuf}
    ensures bus.Quiescent()
    ensures spareBuf != null ==>
              var h := old(bus.Cycles()) + PageReadCycles(RowOf(block, page % 32));
              && bus.Cycles() == h + Strobes(PAGE_BYTES + SPARE_BYTES)
              && ReadBack(bus.chip, h, buffer[..] + spareBuf[..]) && ret == spareBuf[5]
    ensures spareBuf == null ==>
              var h := old(bus.Cycles()) + PageReadCycles(RowOf(block, page % 32));
              && bus.Cycles() == h + Strobes(PAGE_BYTES) + MarkReadCycles(RowOf(block, page % 32))
              && ReadBack(bus.chip, h, buffer[..]) && ret == bus.chip.answer(bus.Cycles())
  {
    hide Bus.Valid, Bus.Quiescent, Bus.Cycles, Bus.Asked, OthersKept, ReadBack, PageCycles, PageReadCycles, Strobes;
    var row := RowOf(block, page % 32);
    ReadMainArea(bus, row, buffer);
    ghost var h := old(bus.Cycles()) + PageReadCycles(row);
    if spareBuf != null {
      ReadBytes(bus, spareBuf);
      ReadBackAppend(bus.chip, h, buffer[..], spareBuf[..]);
      ret := spareBuf[5];
    } else {
      ret := SampleMark(bus, row);
    }
    bus.NfFceHigh();
  }

  /** Reading the bad-block byte with the chip already selected. */
  method SampleMark(bus: Bus, row: nat) returns (mark: byte)
    requires bus.Enabled()
    modifies bus.port, bus.outCellValue, bus.inCellValue
    ensures bus.Enabled() && bus.Cycles() == old(bus.Cycles()) + MarkReadCycles(row)
    ensures mark == bus.chip.answer(bus.Cycles())
  {
    hide Bus.Valid, Bus.Quiescent, Bus.Cycles, Bus.Asked, OthersKept, PageCycles;
    bus.NfCmd(0x50);
    AddressPage(bus, 5, row);
    bus.NfWaitRb();
    mark := bus.NfRdData();
  }

  lemma ReadBackAppend(chip: Chip, h: seq<BusEvent>, a: seq<byte>, b: seq<byte>)
    requires ReadBack(chip, h, a) && ReadBack(chip, h + Strobes(|a|), b)
    ensures ReadBack(chip, h, a + b) && h + Strobes(|a|) + Strobes(|b|) == h + Strobes(|a| + |b|)
  {
    assert h + Strobes(|a|) + Strobes(|b|) == h + Strobes(|a| + |b|);
    forall i | |a| <= i < |a + b|
      ensures (a + b)[i] == chip.answer(h + Strobes(i + 1))
    {
      assert h + Strobes(|a|) + Strobes(i - |a| + 1) == h + Strobes(i + 1);
    }
  }

  /** One of the two reads of NF_IsBadBlock. */
  method ReadMark(bus: Bus, row: nat) returns (mark: byte)
    requires bus.Quiescent()
    modifies bus.port, bus.outCellValue, bus.inCellValue
    ensures bus.Quiescent() && bus.Cycles() == old(bus.Cycles()) + MarkReadCycles(row)
    ensures mark == bus.chip.answer(bus.Cycles())
  {
    hide Bus.Valid, Bus.Quiescent, Bus.Cycles, Bus.Asked, OthersKept, MarkReadCycles;
    bus.NfFceLow();
    mark := SampleMark(bus, row);
    bus.NfFceHigh();
  }

  /** NF_IsBadBlock: the bad-block byte of the first page, or of the second when the first is 0xFF. */
  method NfIsBadBlock(bus: Bus, block: nat) returns (bad: byte)
    requires bus.Quiescent()
    modifies bus.port, bus.outCellValue, bus.inCellValue
    ensures bus.Quiescent()
    ensures var h1 := old(bus.Cycles()) + MarkReadCycles(RowOf(block, 0));
            var h2 := h1 + MarkReadCycles(RowOf(block, 1));
            && bus.Cycles() == h2
            && bad == if bus.chip.answer(h1) != 0xff then bus.chip.answer(h1) else bus.chip.answer(h2)
  {
    hide Bus.Valid, Bus.Quiescent, Bus.Cycles, Bus.Asked, OthersKept, MarkReadCycles;
    var data1 := ReadMark(bus, RowOf(block, 0));
    var data2 := ReadMark(bus, RowOf(block, 1));
    bad := if data1 != 0xff then data1 else data2;
  }

  /** NF_EraseBlock after the bad-block check. */
  method EraseGoodBlock(bus: Bus, block: nat) returns (code: nat)
    requires bus.Quiescent()
    modifies bus.port, bus.outCellValue, bus.inCellValue
    ensures bus.Quiescent()
    ensures var asked := old(bus.Cycles()) + EraseCycles(block) + [ReadStrobe];
            if bus.chip.answer(asked) % 2 == 1 then code == BAD_BLOCK_ERASE && bus.Cycles() == asked + MarkCycles(block)
            else code == BAD_BLOCK_OK && bus.Cycles() == asked
  {
    hide Bus.Valid, Bus.Quiescent, Bus.Cycles, Bus.Asked, OthersKept, MarkCycles;
    ghost var h := bus.Cycles();
    var row := RowOf(block, 0);
    bus.NfFceLow();
    bus.NfCmd(0x60);
    bus.NfAddr(row % 0x100);
    bus.NfAddr(row / 0x100 % 0x80);
    bus.NfCmd(0xd0);
    bus.NfWaitRb();
    bus.NfCmd(0x70);
    assert bus.Cycles() == h + EraseCycles(block);
    var status := bus.NfRdData();
    bus.NfFceHigh();
    if status % 2 == 1 {
      NfMarkBadBlock(bus, block);
      code := BAD_BLOCK_ERASE;
    } else {
      code := BAD_BLOCK_OK;
    }
  }

  /** NF_EraseBlock: a block marked bad is refused, except block 0; a block that fails to erase gets marked. */
  method NfEraseBlock(bus: Bus, block: nat) returns (code: nat)
    requires bus.Quiescent()
    modifies bus.port, bus.outCellValue, bus.inCellValue
    ensures bus.Quiescent()
    ensures Erased(bus.chip, old(bus.Cycles()), block, code, bus.Cycles())
  {
    hide Bus.Valid, Bus.Quiescent, Bus.Cycles, Bus.Asked, OthersKept, MarkCycles, MarkReadCycles, EraseCycles;
    var bad := NfIsBadBlock(bus, block);
    if block != 0 && bad != 0xff {
      code := BAD_BLOCK_FACTORY;
    } else {
      code := EraseGoodBlock(bus, block);
    }
  }

  /** The outcome and the cycles of an erase that starts after the history h. */
  ghost predicate Erased(chip: Chip, h: seq<BusEvent>, block: nat, code: nat, h': seq<BusEvent>) {
    var h1 := h + MarkReadCycles(RowOf(block, 0));
    var h2 := h1 + MarkReadCycles(RowOf(block, 1));
    var asked := h2 + EraseCycles(block) + [ReadStrobe];
    if block != 0 && (chip.answer(h1) != 0xff || chip.answer(h2) != 0xff) then
      code == BAD_BLOCK_FACTORY && h' == h2
    else if chip.answer(asked) % 2 == 1 then
      code == BAD_BLOCK_ERASE && h' == asked + MarkCycles(block)
    else
      code == BAD_BLOCK_OK && h' == asked
  }
}
