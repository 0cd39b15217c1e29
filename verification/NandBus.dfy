/**
NAND bus cycles built from boundary scans: devtools/sharpflash/pin2410.c and the pin-level half of
devtools/sharpflash/k9fxx08.c.

The flash chip is whatever listens on the pins: `Events` reads the bus cycles off the sequence of pin vectors
the scans have driven, and a `Chip` answers every such history with the byte it drives while nFRE is low and
with the number of polls until it is ready. All results hold for every chip.
 */
module NandBus {
  import opened Bits
  import opened Tap
  import opened Jtag

  // Boundary cells of devtools/sharpflash/pin2410.h.
  const DATA0_7_CON := 99
  const nWAIT := 167
  const CLE := 168
  const ALE := 169
  const nFWE := 170
  const nFRE := 171
  const nFCE := 172
  const NCON0 := 229

  /** dataOutCellIndex and dataInCellIndex for the low byte. */
  function DataOutCell(k: nat): nat
    requires k < 8
  {
    98 - 2 * k
  }

  function DataInCell(k: nat): nat
    requires k < 8
  {
    if k == 0 then 100 else 99 - 2 * k
  }

  // ---------------------------------------------------------------- what the chip sees

  datatype BusEvent = Command(b: byte) | Address(b: byte) | Data(b: byte) | ReadStrobe | Conflict

  /** The byte on D[7:0]. */
  function DataOut(p: Pins): byte
    requires |p| == CELLS
  {
    PowersOfTwo();
    FromBits((k: nat) => k < 8 && p[DataOutCell(k)], 8)
  }

  /** The levels of the control pins; `input` is DATA0_7_CON. */
  datatype Control = Control(input: bool, cle: bool, ale: bool, fwe: bool, fre: bool, fce: bool)

  function ControlOf(p: Pins): Control
    requires |p| == CELLS
  {
    Control(p[DATA0_7_CON], p[CLE], p[ALE], p[nFWE], p[nFRE], p[nFCE])
  }

  /** What the chip latches when nFWE rises. */
  function LatchedEvent(c: Control, b: byte): BusEvent {
    if c.input || (c.cle && c.ale) then Conflict
    else if c.cle then Command(b)
    else if c.ale then Address(b)
    else Data(b)
  }

  /** The bus cycles between two successive control settings: a write at a rising nFWE, a read at a falling nFRE. */
  function ControlEdges(c: Control, d: Control, b: byte): seq<BusEvent> {
    if d.fce then []
    else
      (if !c.fwe && d.fwe then [LatchedEvent(d, b)] else [])
      + (if c.fre && !d.fre then [if d.input then ReadStrobe else Conflict] else [])
  }

  function Edges(p: Pins, q: Pins): seq<BusEvent> {
    if |p| != CELLS || |q| != CELLS then [] else ControlEdges(ControlOf(p), ControlOf(q), DataOut(q))
  }

  /** The bus cycles in a sequence of pin vectors. */
  function Events(driven: seq<Pins>): seq<BusEvent> {
    var k := |driven| - 1;
    if k <= 0 then [] else Events(driven[..k]) + Edges(driven[k - 1], driven[k])
  }

  /** A chip: the byte it drives after a history that ends in a read strobe, and how many polls it stays busy. */
  datatype Chip = Chip(answer: seq<BusEvent> -> byte, busy: (seq<BusEvent>, nat) -> nat)

  /** The chip selected for reading drives D[7:0]; its ready line shows on nWAIT and NCON0; it is not busy for ever. */
  ghost predicate Wired(b: Board, chip: Chip) {
    && (forall driven: seq<Pins>, n: nat, k: nat ::
          k < 8 && Reading(driven)
          ==> b.level(driven, n, DataInCell(k)) == Bit(chip.answer(Events(driven)), k))
    && (forall driven: seq<Pins>, n: nat ::
          (b.level(driven, n, nWAIT) && b.level(driven, n, NCON0)) == (chip.busy(Events(driven), n) == 0))
    && (forall h: seq<BusEvent>, n: nat :: chip.busy(h, n) > 0 ==> chip.busy(h, n + 1) < chip.busy(h, n))
  }

  predicate Reading(driven: seq<Pins>) {
    && driven != [] && |driven[|driven| - 1]| == CELLS
    && !driven[|driven| - 1][nFCE] && !driven[|driven| - 1][nFRE] && driven[|driven| - 1][DATA0_7_CON]
  }

  // ---------------------------------------------------------------- the cells by number

  /** A write cycle by its cells: 98 - 2 k is data bit k, 168 is CLE, 169 is ALE, and nFWE rises in cell 170. */
  lemma WriteByCells(p: Pins, q: Pins, k: nat)
    requires |p| == |q| == CELLS && !q[172] && !p[170] && q[170] && q[171] && k < 8
    ensures var b := DataOut(q);
            && Bit(b, k) == q[98 - 2 * k]
            && Edges(p, q) == [if q[99] || (q[168] && q[169]) then Conflict
                               else if q[168] then Command(b) else if q[169] then Address(b) else Data(b)]
  {
    hide Bit;
    PowersOfTwo();
    var f := (j: nat) => j < 8 && q[DataOutCell(j)];
    BitFromBits(f, 8, k);
    assert f(k) == q[DataOutCell(k)];
  }

  /** A read cycle: nFRE falls in cell 171 while the data pins are inputs by cell 99. */
  lemma ReadByCells(p: Pins, q: Pins)
    requires |p| == |q| == CELLS && !q[172] && p[170] && p[171] && !q[171] && q[99]
    ensures Edges(p, q) == [ReadStrobe]
  {
    hide DataOut;
  }

  /** The answer comes back in cells 100, 97, 95, ..., 85, and the chip is ready when cells 167 and 229 are high. */
  lemma AnswerByCells(b: Board, chip: Chip, driven: seq<Pins>, n: nat, k: nat)
    requires Wired(b, chip) && k < 8 && driven != []
    requires var q := driven[|driven| - 1]; |q| == CELLS && !q[172] && !q[171] && q[99]
    ensures b.level(driven, n, if k == 0 then 100 else 99 - 2 * k) == Bit(chip.answer(Events(driven)), k)
    ensures (b.level(driven, n, 167) && b.level(driven, n, 229)) == (chip.busy(Events(driven), n) == 0)
  {
    hide Events, Bit;
    assert Reading(driven);
    assert DataInCell(k) == if k == 0 then 100 else 99 - 2 * k;
  }

  // ---------------------------------------------------------------- the pins

  predicate BusPin(i: int) {
    i == DATA0_7_CON || CLE <= i <= nFCE || (84 <= i <= 98 && i % 2 == 0)
  }

  /** The cells outside the NAND bus keep their values. */
  ghost predicate OthersKept(before: seq<char>, after: seq<char>) {
    |before| == |after| && forall i :: 0 <= i < |after| && !BusPin(i) ==> after[i] == before[i]
  }

  /** The byte a set of cell characters puts on D[7:0]. */
  predicate HoldsByte(cells: seq<char>, data: byte)
    requires |cells| == CELLS
  {
    forall k: nat | k < 8 :: cells[DataOutCell(k)] == if Bit(data, k) then HIGH else LOW
  }

  lemma DataOutHeld(cells: seq<char>, data: byte)
    requires |cells| == CELLS && HoldsByte(cells, data)
    ensures DataOut(Levels(cells)) == data
  {
    hide Bit;
    PowersOfTwo();
    var p := Levels(cells);
    var f := (k: nat) => k < 8 && p[DataOutCell(k)];
    forall k: nat | k < 8
      ensures Bit(DataOut(p), k) == Bit(data, k)
    {
      BitFromBits(f, 8, k);
      assert f(k) == p[DataOutCell(k)];
    }
    Extensionality(DataOut(p), data, 8);
  }

  /** S2410_SetDataByte. */
  method SetDataByte(outCellValue: array<char>, data: byte)
    requires outCellValue.Length == CELLS
    modifies outCellValue
    ensures HoldsByte(outCellValue[..], data)
    ensures forall k: nat | k < 8 :: outCellValue[98 - 2 * k] == if Bit(data, k) then HIGH else LOW
    ensures forall i :: 0 <= i < CELLS && !(84 <= i <= 98 && i % 2 == 0) ==> outCellValue[i] == old(outCellValue[i])
  {
    hide Bit, And, Pow2;
    var i := 0;
    while i < 8
      invariant 0 <= i <= 8
      invariant forall k: nat | k < i :: outCellValue[DataOutCell(k)] == if Bit(data, k) then HIGH else LOW
      invariant forall j :: 0 <= j < CELLS && !(84 <= j <= 98 && j % 2 == 0) ==> outCellValue[j] == old(outCellValue[j])
    {
      TestBit(data, i);
      if And(data, Pow2(i)) != 0 {
        outCellValue[DataOutCell(i)] := HIGH;
      } else {
        outCellValue[DataOutCell(i)] := LOW;
      }
      i := i + 1;
    }
  }

  /** S2410_GetDataByte. */
  method GetDataByte(inCellValue: array<char>) returns (data: byte)
    requires inCellValue.Length == CELLS
    ensures forall k: nat | k < 8 :: Bit(data, k) == (inCellValue[DataInCell(k)] == HIGH)
    ensures forall k: nat | 1 <= k < 8 :: Bit(data, k) == (inCellValue[99 - 2 * k] == HIGH)
    ensures Bit(data, 0) == (inCellValue[100] == HIGH)
  {
    hide Bit, Or, Pow2;
    PowersOfTwo();
    var acc: nat := 0;
    forall k: nat
      ensures !Bit(0, k)
    {
      ZeroBit(k);
    }
    var i := 0;
    while i < 8
      invariant 0 <= i <= 8 && acc < Pow2(8)
      invariant forall k: nat | k < 8 :: Bit(acc, k) == (k < i && inCellValue[DataInCell(k)] == HIGH)
    {
      if inCellValue[DataInCell(i)] == HIGH {
        ghost var before := acc;
        Pow2Grows(i, 8);
        OrXorBound(acc, Pow2(i), 8);
        acc := Or(acc, Pow2(i));
        forall k: nat | k < 8
          ensures Bit(acc, k) == (k < i + 1 && inCellValue[DataInCell(k)] == HIGH)
        {
          BitOr(before, Pow2(i), k);
          BitPow2(i, k);
        }
      }
      i := i + 1;
    }
    data := acc;
  }

  // ---------------------------------------------------------------- bus cycles

  lemma LastEvents(d: seq<Pins>)
    requires |d| >= 2
    ensures Events(d) == Events(d[..|d| - 1]) + Edges(d[|d| - 2], d[|d| - 1])
  {
    hide Edges;
  }

  lemma EventsSnoc(driven: seq<Pins>, v: Pins)
    requires driven != []
    ensures Events(driven + [v]) == Events(driven) + Edges(driven[|driven| - 1], v)
  {
    hide Edges;
    var d, k := driven + [v], |driven|;
    assert d[..k] == driven;
    LastEvents(d);
  }

  /** One boundary scan under EXTEST: the cells are sampled, then wr drives the pins. */
  lemma BoundaryScan(c: Core, b: Board, wr: seq<bool>)
    requires WellFormed(c, b) && c.ir == EXTEST && |wr| == CELLS
    ensures Captured(c, b) == SampledPins(c, b) && |Captured(c, b)| == CELLS
    ensures var c' := ScanData(c, b, wr);
            c'.ir == EXTEST && c'.latch == wr && c'.driven == c.driven + [wr] && c'.captures == c.captures + 1
  {
    assert EXTEST != IDCODE by { assert EXTEST[1] != IDCODE[1]; }
  }

  /** Every cell high: all strobes inactive and the chip not selected. */
  function AllHigh(): (p: Pins)
    ensures |p| == CELLS
  {
    seq(CELLS, i => true)
  }

  /** A vector with every pin high ends no bus cycle, whatever came before. */
  lemma HighVectorIsSilent(driven: seq<Pins>)
    ensures Events(driven + [AllHigh()]) == Events(driven)
    ensures (driven + [AllHigh()])[..|driven|] == driven
  {
    var d, k := driven + [AllHigh()], |driven|;
    assert d[..k] == driven;
    if k > 0 {
      assert Events(d) == Events(d[..k]) + Edges(d[k - 1], d[k]);
      assert Edges(d[k - 1], d[k]) == [];
    }
  }

  lemma Preload(c: Core, b: Board, wr: seq<bool>)
    requires WellFormed(c, b) && |wr| == CELLS
    ensures var c1 := ScanInstruction(c, SAMPLE_PRELOAD);
            && c1.ir == SAMPLE_PRELOAD && |Captured(c1, b)| == CELLS
            && ScanData(c1, b, wr).latch == wr
            && ScanData(c1, b, wr).driven == c.driven
  {
    assert SAMPLE_PRELOAD != IDCODE by { assert SAMPLE_PRELOAD[0] != IDCODE[0]; }
    assert SAMPLE_PRELOAD != EXTEST by { assert SAMPLE_PRELOAD[0] != EXTEST[0]; }
  }

  /** Loading EXTEST puts the latch on the pins. */
  lemma Takeover(c: Core)
    ensures var c' := ScanInstruction(c, EXTEST);
            c'.ir == EXTEST && c'.driven == c.driven + [c.latch]
  {
  }

  class Bus {
    const port: Port
    const outCellValue: array<char>
    const inCellValue: array<char>
    ghost const chip: Chip

    constructor (port: Port, ghost chip: Chip)
      ensures this.port == port && this.chip == chip && fresh(outCellValue) && fresh(inCellValue)
      ensures outCellValue.Length == inCellValue.Length == CELLS && outCellValue != inCellValue
    {
      this.port := port;
      this.chip := chip;
      outCellValue := new char[CELLS];
      inCellValue := new char[CELLS];
    }

    /**
     * S2410_InitCell and K9Fxx08_JtagInit, from any state of the controller: all pins high are preloaded into the
     * latch before EXTEST lets it drive them, so the chip sees no strobe. Only a controller that was left in the
     * middle of a scan may update its pins on the way to the first reset.
     */
    method Init()
      requires outCellValue.Length == inCellValue.Length == CELLS && outCellValue != inCellValue
      requires port.Valid() && Wired(port.board, chip)
      modifies port, outCellValue, inCellValue
      ensures Quiescent() && Asked().fce
      ensures Driven()[|Driven()| - 1] == AllHigh() && Cycles() == Events(Driven()[..|Driven()| - 1])
      ensures old(AtRest(port.dev)) ==> Driven() == old(Driven()) + [AllHigh()] && Cycles() == old(Cycles())
    {
      hide Wired, WellFormed, Captured, ScanInstruction, ScanData, Events;
      InitCell();
      RunTestIdleState(port);
      Takeover(port.dev.core);
      ghost var before := Driven();
      assert Levels("0000") == EXTEST;
      ShiftIRState(port, "0000");
      HighVectorIsSilent(before);
      outCellValue[CLE] := LOW;
      outCellValue[ALE] := LOW;
    }

    method InitCell()
      requires outCellValue.Length == inCellValue.Length == CELLS && outCellValue != inCellValue
      requires port.Valid()
      modifies port, outCellValue, inCellValue
      ensures port.Valid() && AtRest(port.dev) && port.dev.core.latch == AllHigh()
      ensures old(AtRest(port.dev)) ==> Driven() == old(Driven())
      ensures outCellValue[nFRE] == outCellValue[nFWE] == outCellValue[nFCE] == HIGH
    {
      hide WellFormed, Captured, ScanInstruction, ScanData;
      for i := 0 to CELLS
        modifies outCellValue, inCellValue
        invariant forall j :: 0 <= j < i ==> outCellValue[j] == HIGH
      {
        outCellValue[i] := HIGH;
        inCellValue[i] := 'u';
      }
      assert Levels(outCellValue[..]) == AllHigh();
      RunTestIdleState(port);
      Preload(port.dev.core, port.board, Levels(outCellValue[..]));
      assert Levels("1100") == SAMPLE_PRELOAD;
      ShiftIRState(port, "1100");
      ShiftDRState(port, outCellValue[..], inCellValue);
      for i := 0 to CELLS
        modifies outCellValue
      {
        outCellValue[i] := inCellValue[i];
      }
      InitPins();
    }

    /** The pin settings at the end of S2410_InitCell that concern the NAND bus. */
    method InitPins()
      requires outCellValue.Length == CELLS
      modifies outCellValue
      ensures outCellValue[nFRE] == outCellValue[nFWE] == outCellValue[nFCE] == HIGH
    {
      outCellValue[DATA0_7_CON] := HIGH;
      outCellValue[nFRE] := HIGH;
      outCellValue[nFWE] := HIGH;
      outCellValue[nFCE] := HIGH;
    }

    ghost predicate Valid()
      reads this, port, outCellValue
    {
      && outCellValue != inCellValue && outCellValue.Length == CELLS && inCellValue.Length == CELLS
      && port.Valid() && AtRest(port.dev) && port.dev.core.ir == EXTEST && Wired(port.board, chip)
      && Driven() != [] && |Driven()[|Driven()| - 1]| == CELLS
    }

    ghost function Driven(): seq<Pins>
      reads port
    {
      port.dev.core.driven
    }

    /** The bus cycles so far. */
    ghost function Cycles(): seq<BusEvent>
      reads port
    {
      Events(Driven())
    }

    /** The controls the cells ask for, and the controls on the pins. */
    ghost function Asked(): Control
      reads outCellValue
      requires outCellValue.Length == CELLS
    {
      ControlOf(Levels(outCellValue[..]))
    }

    ghost function OnPins(): Control
      reads this, port, outCellValue
      requires Valid()
    {
      ControlOf(Driven()[|Driven()| - 1])
    }

    /** Between cycles: both latch enables low and both strobes high, in the cells; both strobes high on the pins. */
    ghost predicate Quiescent()
      reads this, port, outCellValue
    {
      && Valid()
      && Asked() == Control(Asked().input, false, false, true, true, Asked().fce)
      && OnPins().fwe && OnPins().fre
    }

    /** Between cycles with the chip selected. */
    ghost predicate Enabled()
      reads this, port, outCellValue
    {
      Quiescent() && !Asked().fce
    }

    /** JTAG_ShiftDRStateNoTDO(outCellValue): the cells go to the pins. */
    method Scan()
      requires Valid()
      modifies port
      ensures Valid() && Driven() == old(Driven()) + [Levels(outCellValue[..])] && OnPins() == Asked()
      ensures Cycles() == old(Cycles()) + ControlEdges(old(OnPins()), Asked(), DataOut(Levels(outCellValue[..])))
    {
      hide Wired, WellFormed, ScanData, Captured, SampledPins, Events, ControlEdges, ControlOf, DataOut;
      BoundaryScan(port.dev.core, port.board, Levels(outCellValue[..]));
      EventsSnoc(Driven(), Levels(outCellValue[..]));
      ShiftDRStateNoTDO(port, outCellValue[..]);
    }

    /** JTAG_ShiftDRState(outCellValue, inCellValue): the cells are sampled before the new levels are driven. */
    method ScanAndSample()
      requires Valid()
      modifies port, inCellValue
      ensures Valid() && Driven() == old(Driven()) + [Levels(outCellValue[..])] && OnPins() == Asked()
      ensures Cycles() == old(Cycles()) + ControlEdges(old(OnPins()), Asked(), DataOut(Levels(outCellValue[..])))
      ensures port.dev.core.captures == old(port.dev.core.captures) + 1
      ensures forall i: nat | i < CELLS ::
                (inCellValue[i] == HIGH) == port.board.level(old(Driven()), old(port.dev.core.captures), i)
    {
      hide Wired, WellFormed, ScanData, Captured, Events, ControlEdges, ControlOf, DataOut;
      ghost var c := port.dev.core;
      BoundaryScan(port.dev.core, port.board, Levels(outCellValue[..]));
      EventsSnoc(Driven(), Levels(outCellValue[..]));
      ShiftDRState(port, outCellValue[..], inCellValue);
      assert inCellValue[..CELLS] == Chars(SampledPins(c, port.board));
      forall i: nat | i < CELLS
        ensures (inCellValue[i] == HIGH) == port.board.level(c.driven, c.captures, i)
      {
        assert inCellValue[i] == inCellValue[..CELLS][i];
      }
    }

    /** The common first step of a command and of an address cycle: the byte is set up with nFWE low. */
    method PresentByte(cle: char, ale: char, data: byte)
      requires Quiescent()
      modifies port, outCellValue
      ensures Valid() && HoldsByte(outCellValue[..], data) && Cycles() == old(Cycles())
      ensures OnPins() == Asked() == Control(false, cle == HIGH, ale == HIGH, false, true, false)
      ensures OthersKept(old(outCellValue[..]), outCellValue[..])
    {
      hide Wired, WellFormed, Events, DataOut, HoldsByte;
      outCellValue[DATA0_7_CON] := LOW;
      outCellValue[nFCE] := LOW;
      outCellValue[nFRE] := HIGH;
      outCellValue[nFWE] := LOW;
      outCellValue[ALE] := ale;
      outCellValue[CLE] := cle;
      SetDataByte(outCellValue, data);
      assert Asked() == Control(false, cle == HIGH, ale == HIGH, false, true, false);
      Scan();
    }

    /** The scan that ends a write: nFWE rises and the chip latches the byte the cells hold. */
    method RaiseWriteEnable(data: byte)
      requires Valid() && HoldsByte(outCellValue[..], data)
      requires OnPins() == Asked() && !Asked().input && !Asked().fwe && Asked().fre && !Asked().fce
      modifies port, outCellValue
      ensures Valid() && OnPins() == Asked() == old(Asked()).(fwe := true)
      ensures Cycles() == old(Cycles()) + [LatchedEvent(Asked(), data)]
      ensures OthersKept(old(outCellValue[..]), outCellValue[..])
    {
      hide Wired, WellFormed, Events, DataOut, LatchedEvent;
      outCellValue[nFWE] := HIGH;
      assert HoldsByte(outCellValue[..], data);
      DataOutHeld(outCellValue[..], data);
      assert Asked() == old(Asked()).(fwe := true);
      Scan();
    }

    /** The scan that ends a command or an address cycle: the latch enable falls and the data pins float. */
    method ReleaseLatch(latch: nat)
      requires Valid() && (latch == CLE || latch == ALE)
      requires OnPins() == Asked() == Control(false, latch == CLE, latch == ALE, true, true, false)
      modifies port, outCellValue
      ensures Enabled() && Cycles() == old(Cycles())
      ensures OthersKept(old(outCellValue[..]), outCellValue[..])
    {
      hide Wired, WellFormed, Events, DataOut, LatchedEvent;
      outCellValue[latch] := LOW;
      outCellValue[DATA0_7_CON] := HIGH;
      assert Asked() == Control(true, false, false, true, true, false);
      Scan();
    }

    /** NF_CMD. */
    method NfCmd(cmd: byte)
      requires Quiescent()
      modifies port, outCellValue
      ensures Enabled() && Cycles() == old(Cycles()) + [Command(cmd)]
      ensures OthersKept(old(outCellValue[..]), outCellValue[..])
    {
      hide Wired, WellFormed, Events, DataOut, HoldsByte, ControlOf, BusPin;
      PresentByte(HIGH, LOW, cmd);
      RaiseWriteEnable(cmd);
      ReleaseLatch(CLE);
    }

    /** NF_ADDR. */
    method NfAddr(addr: nat)
      requires Quiescent()
      modifies port, outCellValue
      ensures Enabled() && Cycles() == old(Cycles()) + [Address(addr % 0x100)]
      ensures OthersKept(old(outCellValue[..]), outCellValue[..])
    {
      hide Wired, WellFormed, Events, DataOut, HoldsByte, ControlOf, BusPin;
      PresentByte(LOW, HIGH, addr % 0x100);
      RaiseWriteEnable(addr % 0x100);
      ReleaseLatch(ALE);
    }

    /** NF_WRDATA. */
    method NfWrData(data: byte)
      requires Enabled()
      modifies port, outCellValue
      ensures Enabled() && Cycles() == old(Cycles()) + [Data(data)]
      ensures OthersKept(old(outCellValue[..]), outCellValue[..])
    {
      hide Wired, WellFormed, Events, DataOut, HoldsByte;
      outCellValue[DATA0_7_CON] := LOW;
      outCellValue[nFWE] := LOW;
      SetDataByte(outCellValue, data);
      assert Asked() == Control(false, false, false, false, true, false);
      Scan();
      RaiseWriteEnable(data);
    }

    /** NF_RDDATA: the sample is taken before the same scan raises nFRE, so it is what the chip drives. */
    method NfRdData() returns (data: byte)
      requires Enabled()
      modifies port, outCellValue, inCellValue
      ensures Enabled() && Cycles() == old(Cycles()) + [ReadStrobe]
      ensures data == chip.answer(Cycles())
      ensures OthersKept(old(outCellValue[..]), outCellValue[..])
    {
      hide Wired, WellFormed, Events, DataOut, Bit;
      outCellValue[DATA0_7_CON] := HIGH;
      outCellValue[nFRE] := LOW;
      assert Asked() == Control(true, false, false, true, false, false);
      Scan();
      ghost var strobed, n := Driven(), port.dev.core.captures;
      assert Reading(strobed);

      outCellValue[nFRE] := HIGH;
      assert Asked() == Control(true, false, false, true, true, false);
      ScanAndSample();
      assert Cycles() == Events(strobed);
      data := GetDataByte(inCellValue);
      AnsweredByte(port.board, chip, strobed, n, data, inCellValue[..]);
    }

    /** NF_nFCE_L and NF_nFCE_H cause no bus cycle. */
    method NfFceLow()
      requires Quiescent()
      modifies port, outCellValue
      ensures Enabled() && Cycles() == old(Cycles())
      ensures OthersKept(old(outCellValue[..]), outCellValue[..])
    {
      hide Wired, WellFormed, Events, DataOut;
      outCellValue[nFCE] := LOW;
      assert Asked() == old(Asked()).(fce := false);
      Scan();
    }

    method NfFceHigh()
      requires Quiescent()
      modifies port, outCellValue
      ensures Quiescent() && Asked().fce && Cycles() == old(Cycles())
      ensures OthersKept(old(outCellValue[..]), outCellValue[..])
    {
      hide Wired, WellFormed, Events, DataOut;
      outCellValue[nFCE] := HIGH;
      assert Asked() == old(Asked()).(fce := true);
      Scan();
    }

    /** NF_WAITRB: polls until the chip is ready, without causing a bus cycle. */
    method NfWaitRb()
      requires Quiescent()
      modifies port, inCellValue
      ensures Quiescent() && Cycles() == old(Cycles())
      ensures old(Enabled()) ==> Enabled()
    {
      hide Wired, WellFormed, Events, DataOut;
      var ready := false;
      while !ready
        invariant Quiescent() && Cycles() == old(Cycles())
        decreases !ready, chip.busy(Cycles(), port.dev.core.captures)
      {
        ghost var h, n := Driven(), port.dev.core.captures;
        BusyFalls(port.board, chip, h, n);
        ScanAndSample();
        assert Cycles() == Events(h);
        assert (inCellValue[nWAIT] == HIGH) == port.board.level(h, n, nWAIT);
        assert (inCellValue[NCON0] == HIGH) == port.board.level(h, n, NCON0);
        ready := inCellValue[nWAIT] == HIGH && inCellValue[NCON0] == HIGH;
      }
    }
  }

  lemma AnsweredByte(b: Board, chip: Chip, driven: seq<Pins>, n: nat, data: byte, cells: seq<char>)
    requires Wired(b, chip) && Reading(driven) && |cells| == CELLS
    requires forall i: nat | i < CELLS :: (cells[i] == HIGH) == b.level(driven, n, i)
    requires forall k: nat | k < 8 :: Bit(data, k) == (cells[DataInCell(k)] == HIGH)
    ensures data == chip.answer(Events(driven))
  {
    hide Bit, Events, Reading;
    forall k: nat | k < 8
      ensures Bit(data, k) == Bit(chip.answer(Events(driven)), k)
    {
      assert b.level(driven, n, DataInCell(k)) == Bit(chip.answer(Events(driven)), k);
    }
    PowersOfTwo();
    Extensionality(data, chip.answer(Events(driven)), 8);
  }

  /** A poll that does not find the chip ready brings it closer to being ready. */
  lemma BusyFalls(b: Board, chip: Chip, driven: seq<Pins>, n: nat)
    requires Wired(b, chip)
    ensures (b.level(driven, n, nWAIT) && b.level(driven, n, NCON0))
         || chip.busy(Events(driven), n + 1) < chip.busy(Events(driven), n)
  {
    hide Events;
  }
}
