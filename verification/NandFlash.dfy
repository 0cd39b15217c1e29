/**
A model of the K9F2808 flash chip as an interpreter of bus cycles, and what the cycle sequences of NandPage.dfy
do to its memory.

The chip has 1024 blocks of 32 rows; a row holds 528 bytes. Programming can only clear bits, erasing a block
sets all its bits. The `weak` blocks fail to erase and the `dud` rows fail to program: they report it and keep their
contents.
 */
module NandFlash {
  import opened Bits
  import opened NandBus
  import opened NandPage

  const BLOCKS := 1024
  const ROWS := 32768
  const ROW_BYTES := 528
  const MARK_COLUMN := 517

  type Memory = m: seq<seq<byte>> | |m| == ROWS && forall r :: 0 <= r < ROWS ==> |m[r]| == ROW_BYTES
    witness seq(ROWS, r => seq(ROW_BYTES, c => 0))

  /** What is wrong with a chip: blocks that cannot be erased, and rows that cannot be programmed. */
  datatype Faults = Faults(weak: set<nat>, dud: set<nat>)

  /** The state of the chip's command interpreter. */
  datatype Flash = Flash(
    mem: Memory, cmd: byte, spare: bool, addr: seq<byte>, buf: seq<byte>,
    failed: bool, statusMode: bool, strobes: nat)

  function RowAddressed(lo: byte, hi: byte): (r: nat)
    ensures r < ROWS
  {
    lo + 0x100 * (hi % 0x80)
  }

  /** Programming buf from column col on: bits can only be cleared. */
  function Programmed(page: seq<byte>, col: nat, buf: seq<byte>): (p: seq<byte>)
    ensures |p| == |page|
  {
    seq(|page|, c requires 0 <= c < |page| =>
      if col <= c < col + |buf| then And(page[c], buf[c - col]) as byte else page[c])
  }

  function ErasedRow(): (p: seq<byte>)
    ensures |p| == ROW_BYTES
  {
    seq(ROW_BYTES, c => 0xff)
  }

  function WithBlockErased(mem: Memory, block: nat): Memory {
    seq(ROWS, r requires 0 <= r < ROWS => if r / 32 == block then ErasedRow() else mem[r])
  }

  /** The column an address selects: in the spare area under command 0x50. */
  function Column(f: Flash): nat
    requires |f.addr| >= 1
  {
    if f.spare then PAGE_BYTES + f.addr[0] % 16 else f.addr[0]
  }

  function OnCommand(f: Flash, faults: Faults, c: byte): Flash {
    if c == 0x00 then f.(cmd := c, spare := false, addr := [], strobes := 0, statusMode := false)
    else if c == 0x50 then f.(cmd := c, spare := true, addr := [], strobes := 0, statusMode := false)
    else if c == 0x80 then f.(cmd := c, addr := [], buf := [], statusMode := false)
    else if c == 0x60 then f.(cmd := c, addr := [], statusMode := false)
    else if c == 0x10 && f.cmd == 0x80 && |f.addr| == 3 then
      var row := RowAddressed(f.addr[1], f.addr[2]);
      if row in faults.dud then f.(cmd := c, failed := true)
      else f.(cmd := c, failed := false, mem := f.mem[row := Programmed(f.mem[row], Column(f), f.buf)])
    else if c == 0xd0 && f.cmd == 0x60 && |f.addr| == 2 then
      var block := RowAddressed(f.addr[0], f.addr[1]) / 32;
      if block in faults.weak then f.(cmd := c, failed := true)
      else f.(cmd := c, failed := false, mem := WithBlockErased(f.mem, block))
    else if c == 0x70 then f.(statusMode := true)
    else f
  }

  /** One bus cycle. */
  function Step(f: Flash, faults: Faults, e: BusEvent): Flash {
    match e
    case Command(c) => OnCommand(f, faults, c)
    case Address(b) => f.(addr := f.addr + [b], strobes := 0)
    case Data(b) => f.(buf := f.buf + [b])
    case ReadStrobe => f.(strobes := f.strobes + 1)
    case Conflict => f
  }

  function Run(f: Flash, faults: Faults, h: seq<BusEvent>): Flash
    decreases |h|
  {
    if h == [] then f else Run(Step(f, faults, h[0]), faults, h[1..])
  }

  /** The byte on the bus after a read strobe: the status, or the next byte of the addressed row. */
  function Output(f: Flash): byte {
    if f.statusMode then (if f.failed then 0xc1 else 0xc0)
    else if (f.cmd == 0x00 || f.cmd == 0x50) && |f.addr| == 3 && 1 <= f.strobes <= ROW_BYTES - Column(f) then
      f.mem[RowAddressed(f.addr[1], f.addr[2])][Column(f) + f.strobes - 1]
    else 0xff
  }

  /** A chip that answers like the flash f0. */
  ghost predicate Behaves(chip: Chip, f0: Flash, faults: Faults) {
    forall h: seq<BusEvent> :: chip.answer(h) == Output(Run(f0, faults, h))
  }

  lemma {:induction false} RunAppend(f: Flash, faults: Faults, g: seq<BusEvent>, h: seq<BusEvent>)
    ensures Run(f, faults, g + h) == Run(Run(f, faults, g), faults, h)
    decreases |g|
  {
    if g == [] {
      assert g + h == h;
    } else {
      assert (g + h)[0] == g[0] && (g + h)[1..] == g[1..] + h;
      RunAppend(Step(f, faults, g[0]), faults, g[1..], h);
    }
  }

  lemma {:induction false} RunData(f: Flash, faults: Faults, d: seq<byte>)
    ensures Run(f, faults, DataCycles(d)) == f.(buf := f.buf + d)
    decreases |d|
  {
    if d == [] {
      assert DataCycles(d) == [] && f.buf + d == f.buf;
    } else {
      var f1 := f.(buf := f.buf + [d[0]]);
      assert DataCycles(d)[0] == Data(d[0]) && DataCycles(d)[1..] == DataCycles(d[1..]);
      assert f.buf + d == f1.buf + d[1..];
      RunData(f1, faults, d[1..]);
    }
  }

  /** The row address cycles reach row r modulo the 32768 rows of the chip. */
  lemma RowReached(row: nat)
    ensures RowAddressed(row % 0x100, row / 0x100 % 0x80) == row % ROWS
  {
    var lo, hi := row % 0x100, row / 0x100;
    var q, r := hi / 0x80, hi % 0x80;
    assert row == 0x100 * hi + lo && hi == 0x80 * q + r;
    DivIs(row, ROWS, q, 0x100 * r + lo);
    DivIs(r, 0x80, 0, r);
  }

  /** Programming a row from a column on: a dud row stays as it is. */
  function WithProgram(mem: Memory, faults: Faults, row: nat, col: nat, data: seq<byte>): Memory {
    var r := row % ROWS;
    if r in faults.dud then mem else mem[r := Programmed(mem[r], col, data)]
  }

  // ---------------------------------------------------------------- the operations of NandPage on the memory

  /** Reading a bad-block byte changes no memory and yields column 517 of the row. */
  lemma MarkReadEffect(f: Flash, faults: Faults, row: nat)
    ensures var f' := Run(f, faults, MarkReadCycles(row));
            f'.mem == f.mem && Output(f') == f.mem[row % ROWS][MARK_COLUMN]
  {
    RowReached(row);
    var lo, hi := row % 0x100, row / 0x100 % 0x80;
    Run5(f, faults, Command(0x50), Address(5), Address(lo), Address(hi), ReadStrobe);
    assert MarkReadCycles(row) == [Command(0x50), Address(5), Address(lo), Address(hi), ReadStrobe];
  }

  lemma Run5(f: Flash, faults: Faults, a: BusEvent, b: BusEvent, c: BusEvent, d: BusEvent, e: BusEvent)
    ensures Run(f, faults, [a, b, c, d, e])
         == Step(Step(Step(Step(Step(f, faults, a), faults, b), faults, c), faults, d), faults, e)
  {
    var h := [a, b, c, d, e];
    assert h[1..] == [b, c, d, e] && h[1..][1..] == [c, d, e] && h[1..][1..][1..] == [d, e];
    assert [d, e][1..] == [e] && [e][1..] == [];
    hide Step;
    assert Run(f, faults, h) == Run(Step(f, faults, a), faults, [b, c, d, e]);
    var g := Step(Step(f, faults, a), faults, b);
    assert Run(Step(f, faults, a), faults, [b, c, d, e]) == Run(g, faults, [c, d, e]);
    assert Run(g, faults, [c, d, e]) == Run(Step(g, faults, c), faults, [d, e]);
    var k := Step(Step(g, faults, c), faults, d);
    assert Run(Step(g, faults, c), faults, [d, e]) == Run(k, faults, [e]);
    assert Run(k, faults, [e]) == Run(Step(k, faults, e), faults, []);
  }

  lemma Run1(f: Flash, faults: Faults, e: BusEvent)
    ensures Run(f, faults, [e]) == Step(f, faults, e)
  {
    hide Step;
    assert [e][1..] == [];
    assert Run(f, faults, [e]) == Run(Step(f, faults, e), faults, []);
  }

  lemma BlockReached(block: nat)
    ensures RowAddressed(RowOf(block, 0) % 0x100, RowOf(block, 0) / 0x100 % 0x80) / 32 == block % BLOCKS
  {
    hide RowAddressed;
    RowReached(RowOf(block, 0));
    DivIs(block, BLOCKS, block / BLOCKS, block % BLOCKS);
    DivIs(32 * block, ROWS, block / BLOCKS, 32 * (block % BLOCKS));
  }

  /** Erasing sets the block to 0xFF and reports success, unless the block is weak: then it reports a failure. */
  lemma EraseEffect(f: Flash, faults: Faults, block: nat)
    ensures var f' := Run(f, faults, EraseCycles(block) + [ReadStrobe]);
            var b := block % BLOCKS;
            && f'.mem == (if b in faults.weak then f.mem else WithBlockErased(f.mem, b))
            && (Output(f') % 2 == 1) == (b in faults.weak)
  {
    var lo, hi := RowOf(block, 0) % 0x100, RowOf(block, 0) / 0x100 % 0x80;
    BlockReached(block);
    hide Run, WithBlockErased, RowAddressed;
    assert EraseCycles(block) == [Command(0x60), Address(lo), Address(hi), Command(0xd0), Command(0x70)];
    RunAppend(f, faults, EraseCycles(block), [ReadStrobe]);
    Run5(f, faults, Command(0x60), Address(lo), Address(hi), Command(0xd0), Command(0x70));
    assert [] + [lo] + [hi] == [lo, hi];
    Run1(Run(f, faults, EraseCycles(block)), faults, ReadStrobe);
  }

  lemma Run3(f: Flash, faults: Faults, a: BusEvent, b: BusEvent, c: BusEvent)
    ensures Run(f, faults, [a, b, c]) == Step(Step(Step(f, faults, a), faults, b), faults, c)
  {
    hide Step;
    assert [a, b, c][1..] == [b, c] && [b, c][1..] == [c] && [c][1..] == [];
    assert Run(f, faults, [a, b, c]) == Run(Step(f, faults, a), faults, [b, c]);
    var g := Step(Step(f, faults, a), faults, b);
    assert Run(Step(f, faults, a), faults, [b, c]) == Run(g, faults, [c]);
    assert Run(g, faults, [c]) == Run(Step(g, faults, c), faults, []);
  }

  /** An area command, the input command and a page address leave an empty buffer aimed at a row. */
  lemma InputEffect(f: Flash, faults: Faults, area: byte, row: nat)
    requires area == 0x00 || area == 0x50
    ensures Run(f, faults, [Command(area), Command(0x80)] + PageCycles(0, row))
         == f.(cmd := 0x80, spare := area == 0x50, addr := [0, row % 0x100, row / 0x100 % 0x80], buf := [],
               strobes := 0, statusMode := false)
  {
    var lo, hi := row % 0x100, row / 0x100 % 0x80;
    assert [Command(area), Command(0x80)] + PageCycles(0, row)
        == [Command(area), Command(0x80), Address(0), Address(lo), Address(hi)];
    Run5(f, faults, Command(area), Command(0x80), Address(0), Address(lo), Address(hi));
    assert [] + [0] + [lo] + [hi] == [0, lo, hi];
  }

  /** The data and the program command, after the input phase. */
  lemma DataEffect(f: Flash, faults: Faults, row: nat, data: seq<byte>)
    requires f.cmd == 0x80 && f.addr == [0, row % 0x100, row / 0x100 % 0x80] && f.buf == []
    ensures var f' := Run(f, faults, DataCycles(data) + [Command(0x10), Command(0x70), ReadStrobe]);
            && f'.mem == WithProgram(f.mem, faults, row, if f.spare then PAGE_BYTES else 0, data)
            && f'.failed == (row % ROWS in faults.dud) && f'.statusMode
  {
    hide Programmed, RowAddressed, Run;
    RowReached(row);
    var tail := [Command(0x10), Command(0x70), ReadStrobe];
    RunAppend(f, faults, DataCycles(data), tail);
    RunData(f, faults, data);
    assert f.buf + data == data;
    Run3(f.(buf := data), faults, Command(0x10), Command(0x70), ReadStrobe);
    assert f.addr[1] == row % 0x100 && f.addr[2] == row / 0x100 % 0x80;
  }

  /** Programming an area of a row, and the status afterwards. */
  lemma AreaEffect(f: Flash, faults: Faults, area: byte, row: nat, data: seq<byte>)
    requires area == 0x00 || area == 0x50
    ensures var f' := Run(f, faults, AreaCycles(area, row, data) + [ReadStrobe]);
            && f'.mem == WithProgram(f.mem, faults, row, if area == 0x50 then PAGE_BYTES else 0, data)
            && (Output(f') % 2 == 1) == (row % ROWS in faults.dud)
  {
    hide Run, Programmed, Step, PageCycles;
    var head, tail := [Command(area), Command(0x80)] + PageCycles(0, row), [Command(0x10), Command(0x70), ReadStrobe];
    assert AreaCycles(area, row, data) + [ReadStrobe] == head + (DataCycles(data) + tail);
    InputEffect(f, faults, area, row);
    RunAppend(f, faults, head, DataCycles(data) + tail);
    DataEffect(Run(f, faults, head), faults, row, data);
  }

  /** A page write programs the row from column 0, and reports a failure exactly when the row is a dud. */
  lemma ProgramEffect(f: Flash, faults: Faults, row: nat, data: seq<byte>)
    ensures var f' := Run(f, faults, ProgramCycles(row, data) + [ReadStrobe]);
            && f'.mem == WithProgram(f.mem, faults, row, 0, data)
            && (Output(f') % 2 == 1) == (row % ROWS in faults.dud)
  {
    hide Run, WithProgram, Output, AreaCycles;
    AreaEffect(f, faults, 0x00, row, data);
  }

  /** Marking a block bad programs the spare area of its first row. */
  lemma MarkEffect(f: Flash, faults: Faults, block: nat)
    ensures Run(f, faults, MarkCycles(block)).mem == WithProgram(f.mem, faults, RowOf(block, 0), PAGE_BYTES, BAD_MARK)
  {
    hide Run, WithProgram, Output, AreaCycles;
    AreaEffect(f, faults, 0x50, RowOf(block, 0), BAD_MARK);
    RunAppend(f, faults, MarkCycles(block), [ReadStrobe]);
    Run1(Run(f, faults, MarkCycles(block)), faults, ReadStrobe);
  }

  // ---------------------------------------------------------------- reading a page

  /** The n-th strobe after a page has been selected yields byte n - 1 of the row. */
  lemma PageReadEffect(f: Flash, faults: Faults, row: nat, n: nat)
    requires 1 <= n <= ROW_BYTES
    ensures var f' := Run(f, faults, PageReadCycles(row) + Strobes(n));
            f'.mem == f.mem && Output(f') == f.mem[row % ROWS][n - 1]
  {
    hide Run, Step, RowAddressed;
    RowReached(row);
    RunAppend(f, faults, PageReadCycles(row), Strobes(n));
    SelectEffect(f, faults, row);
    StrobesEffect(Run(f, faults, PageReadCycles(row)), faults, n);
  }

  lemma SelectEffect(f: Flash, faults: Faults, row: nat)
    ensures Run(f, faults, PageReadCycles(row))
         == f.(cmd := 0x00, spare := false, addr := [0, row % 0x100, row / 0x100 % 0x80], strobes := 0,
               statusMode := false)
  {
    hide Run;
    var lo, hi := row % 0x100, row / 0x100 % 0x80;
    assert PageReadCycles(row) == [Command(0x00)] + [Address(0), Address(lo), Address(hi)];
    RunAppend(f, faults, [Command(0x00)], [Address(0), Address(lo), Address(hi)]);
    Run1(f, faults, Command(0x00));
    Run3(Run(f, faults, [Command(0x00)]), faults, Address(0), Address(lo), Address(hi));
    assert [] + [0] + [lo] + [hi] == [0, lo, hi];
  }

  lemma {:induction false} StrobesEffect(f: Flash, faults: Faults, n: nat)
    ensures Run(f, faults, Strobes(n)) == f.(strobes := f.strobes + n)
  {
    hide Run;
    if n == 0 {
      RunNothing(f, faults);
      assert Strobes(0) == [];
    } else {
      StrobesSnoc(n - 1);
      RunAppend(f, faults, Strobes(n - 1), [ReadStrobe]);
      StrobesEffect(f, faults, n - 1);
      Run1(Run(f, faults, Strobes(n - 1)), faults, ReadStrobe);
    }
  }

  lemma RunNothing(f: Flash, faults: Faults)
    ensures Run(f, faults, []) == f
  {
  }
}
