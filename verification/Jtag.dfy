/** The driver functions of devtools/sharpflash/jtag.c over the device of Tap.dfy. */
module Jtag {
  import opened Bits
  import opened Tap

  const LOW := '0'
  const HIGH := '1'

  /** The levels a character string stands for: only HIGH is high. */
  function Levels(s: seq<char>): (l: seq<bool>)
    ensures |l| == |s| && forall i :: 0 <= i < |s| ==> l[i] == (s[i] == HIGH)
  {
    seq(|s|, i requires 0 <= i < |s| => s[i] == HIGH)
  }

  function Chars(l: seq<bool>): (s: seq<char>)
    ensures |s| == |l| && forall i :: 0 <= i < |l| ==> s[i] == if l[i] then HIGH else LOW
  {
    seq(|l|, i requires 0 <= i < |l| => if l[i] then HIGH else LOW)
  }

  /** At rest between scans: Run-Test/Idle with TCK left high. */
  ghost predicate AtRest(d: Device) {
    d.state == RunTestIdle && d.tck && d.tdo == Floating
  }

  // ---------------------------------------------------------------- specification of the scans

  /** The effect of a scan of a full data register: capture, replacement by wr, update. */
  function ScanData(c: Core, b: Board, wr: seq<bool>): Core {
    UpdateData(WithDataShift(Capture(c, b), wr))
  }

  function ScanInstruction(c: Core, wr: seq<bool>): Core {
    UpdateInstruction(c.(irShift := wr))
  }

  // ---------------------------------------------------------------- single clocks

  /** A clock that starts with TCK high: TDO and the latches change first, then the controller moves. */
  lemma ClockIs(d: Device, b: Board, tdi: bool, tms: bool)
    requires d.tck
    ensures Clock(d, b, tdi, tms)
         == var f := Falling(d); Device(Next(d.state, tms), true, f.tdo, Transfer(d.state, f.core, b, tdi))
  {
  }

  /** How many clocks with TMS high a state is away from Test-Logic-Reset. */
  function ResetDistance(s: TapState): nat {
    match s
    case TestLogicReset => 0
    case SelectIR => 1
    case SelectDR => 2
    case RunTestIdle => 3
    case UpdateDR => 3
    case UpdateIR => 3
    case Exit1DR => 4
    case Exit2DR => 4
    case Exit1IR => 4
    case Exit2IR => 4
    case _ => 5
  }

  /** Every clock with TMS high brings the controller closer to Test-Logic-Reset. */
  lemma ResetApproaches(s: TapState)
    ensures ResetDistance(Next(s, true)) == if s == TestLogicReset then 0 else ResetDistance(s) - 1
  {
  }

  lemma TransferKeepsForm(s: TapState, c: Core, b: Board, tdi: bool)
    requires WellFormed(c, b)
    ensures WellFormed(Transfer(s, c, b, tdi), b)
  {
  }

  lemma FallingKeepsForm(d: Device, b: Board)
    requires WellFormed(d.core, b)
    ensures WellFormed(Falling(d).core, b) && Falling(d).state == d.state && !Falling(d).tck
  {
  }

  lemma ClockKeepsForm(d: Device, b: Board, tdi: bool, tms: bool)
    requires WellFormed(d.core, b)
    ensures WellFormed(Clock(d, b, tdi, tms).core, b)
    ensures Clock(d, b, tdi, tms).state == Next(d.state, tms) && Clock(d, b, tdi, tms).tck
  {
    hide Falling, Transfer, WellFormed;
    FallingKeepsForm(d, b);
    var d1 := Drive(d, b, tdi, tms, false);
    TransferKeepsForm(d1.state, d1.core, b, tdi);
  }

  // ---------------------------------------------------------------- the phases of a scan

  /** In Shift-DR after i bits of wr: the first i captured bits have been read, wr[..i] has moved in. */
  function Shifting(c: Core, b: Board, wr: seq<bool>, i: nat): Device
    requires i <= |wr| == |Captured(c, b)|
  {
    var cap := Captured(c, b);
    Device(ShiftDR, true, if i == 0 then Floating else Level(cap[i - 1]),
           WithDataShift(Capture(c, b), cap[i..] + wr[..i]))
  }

  lemma ShiftStage(c: Core, s: seq<bool>, t: seq<bool>)
    ensures DataShift(WithDataShift(c, s)) == s
    ensures WithDataShift(WithDataShift(c, s), t) == WithDataShift(c, t)
  {
  }

  /** One bit leaves a register at the front, the next bit of wr enters at the back. */
  lemma Slide(cap: seq<bool>, wr: seq<bool>, i: nat)
    requires i < |wr| == |cap|
    ensures (cap[i..] + wr[..i])[0] == cap[i]
    ensures (cap[i..] + wr[..i])[1..] + [wr[i]] == cap[i + 1..] + wr[..i + 1]
  {
  }

  lemma CaptureStage(c: Core, b: Board)
    ensures WithDataShift(Capture(c, b), Captured(c, b)) == Capture(c, b)
  {
  }

  lemma ShiftingStart(d: Device, b: Board, wr: seq<bool>)
    requires AtRest(d) && |wr| == |Captured(d.core, b)|
    ensures var d1 := Clock(d, b, true, true);
            && d1 == Device(SelectDR, true, Floating, d.core)
            && Clock(Clock(d1, b, true, false), b, true, false) == Shifting(d.core, b, wr, 0)
  {
    hide Clock, Captured, Capture, WithDataShift;
    ClockIs(d, b, true, true);
    ShiftingFromSelect(d.core, b, wr);
  }

  lemma ShiftingFromSelect(c: Core, b: Board, wr: seq<bool>)
    requires |wr| == |Captured(c, b)|
    ensures var d1 := Device(SelectDR, true, Floating, c);
            Clock(Clock(d1, b, true, false), b, true, false) == Shifting(c, b, wr, 0)
  {
    hide Clock, Captured, Capture, WithDataShift;
    var d1 := Device(SelectDR, true, Floating, c);
    var d2 := Clock(d1, b, true, false);
    ClockIs(d1, b, true, false);
    ClockIs(d2, b, true, false);
    CaptureStage(c, b);
    assert Captured(c, b)[0..] + wr[..0] == Captured(c, b);
  }

  lemma ShiftingStep(c: Core, b: Board, wr: seq<bool>, i: nat, tms: bool)
    requires i < |wr| == |Captured(c, b)|
    ensures Clock(Shifting(c, b, wr, i), b, wr[i], tms)
         == Shifting(c, b, wr, i + 1).(state := if tms then Exit1DR else ShiftDR)
  {
    hide Clock, Captured, Capture, WithDataShift, DataShift;
    var d := Shifting(c, b, wr, i);
    var cap := Captured(c, b);
    ClockIs(d, b, wr[i], tms);
    ShiftStage(Capture(c, b), cap[i..] + wr[..i], cap[i + 1..] + wr[..i + 1]);
    Slide(cap, wr, i);
  }

  lemma ShownBit(c: Core, b: Board, wr: seq<bool>, i: nat)
    requires i < |wr| == |Captured(c, b)|
    ensures Shifting(c, b, wr, i + 1).tdo == Level(Captured(c, b)[i])
    ensures Shifting(c, b, wr, i + 1).state == ShiftDR
  {
  }

  lemma ShiftingEnd(c: Core, b: Board, wr: seq<bool>)
    requires 1 <= |wr| == |Captured(c, b)|
    ensures var d1 := Clock(Shifting(c, b, wr, |wr|).(state := Exit1DR), b, true, true);
            Clock(d1, b, true, false) == Device(RunTestIdle, true, Floating, ScanData(c, b, wr))
  {
    hide Clock, Captured, Capture, WithDataShift, UpdateData;
    var d0 := Shifting(c, b, wr, |wr|).(state := Exit1DR);
    var d1 := Clock(d0, b, true, true);
    ClockIs(d0, b, true, true);
    ClockIs(d1, b, true, false);
    assert Captured(c, b)[|wr|..] + wr[..|wr|] == wr;
  }

  // ---------------------------------------------------------------- the driver

  /** JTAG_Reset: six clocks with TMS high reach Test-Logic-Reset from any of the 16 states. */
  method Reset(port: Port)
    requires port.Valid()
    modifies port
    ensures port.Valid() && port.dev.core.ir == IDCODE
    ensures port.dev.state == TestLogicReset && port.dev.tck && port.dev.tdo == Floating
    ensures old(AtRest(port.dev)) ==> port.dev.core == old(port.dev.core).(ir := IDCODE)
  {
    hide Clock, WellFormed, Next, Transfer;
    ghost var b := port.board;
    ResetFromRest(port.dev, b);
    ClockKeepsForm(port.dev, b, true, true); ResetApproaches(port.dev.state);
    port.Pulse(true, true);
    ClockKeepsForm(port.dev, b, true, true); ResetApproaches(port.dev.state);
    port.Pulse(true, true);
    ClockKeepsForm(port.dev, b, true, true); ResetApproaches(port.dev.state);
    port.Pulse(true, true);
    ClockKeepsForm(port.dev, b, true, true); ResetApproaches(port.dev.state);
    port.Pulse(true, true);
    ClockKeepsForm(port.dev, b, true, true); ResetApproaches(port.dev.state);
    port.Pulse(true, true);
    ClockKeepsForm(port.dev, b, true, true); ResetClock(port.dev, b);
    port.Pulse(true, true);
  }

  /** From Run-Test/Idle a reset passes no capture, shift or update state. */
  lemma ResetFromRest(d: Device, b: Board)
    ensures AtRest(d) ==>
              var d3 := Clock(Clock(Clock(d, b, true, true), b, true, true), b, true, true);
              Clock(Clock(Clock(d3, b, true, true), b, true, true), b, true, true).core == d.core.(ir := IDCODE)
  {
    if AtRest(d) {
      hide Clock;
      ClockIs(d, b, true, true);
      var d1 := Clock(d, b, true, true);
      ClockIs(d1, b, true, true);
      var d2 := Clock(d1, b, true, true);
      ClockIs(d2, b, true, true);
      var d3 := Clock(d2, b, true, true);
      assert d3 == Device(TestLogicReset, true, Floating, d.core);
      ResetClock(d3, b);
      ResetClock(Clock(d3, b, true, true), b);
      ResetClock(Clock(Clock(d3, b, true, true), b, true, true), b);
    }
  }

  lemma ResetClock(d: Device, b: Board)
    requires d.tck && d.state == TestLogicReset
    ensures Clock(d, b, true, true) == Device(TestLogicReset, true, Floating, d.core.(ir := IDCODE))
  {
  }

  /** Leaving Test-Logic-Reset with TMS low. */
  lemma IdleClock(d: Device, b: Board)
    requires d.tck && d.tdo == Floating
    requires (d.state == TestLogicReset && d.core.ir == IDCODE) || d.state == RunTestIdle
    ensures Clock(d, b, true, false) == d.(state := RunTestIdle)
  {
  }

  /** JTAG_RunTestldleState: from any state to Run-Test/Idle with the identification register selected. */
  method RunTestIdleState(port: Port)
    requires port.Valid()
    modifies port
    ensures port.Valid() && AtRest(port.dev) && port.dev.core.ir == IDCODE
    ensures old(AtRest(port.dev)) ==> port.dev.core == old(port.dev.core).(ir := IDCODE)
  {
    hide Clock, WellFormed;
    ghost var b := port.board;
    Reset(port);
    IdleClock(port.dev, b);
    port.Pulse(true, false);
    IdleClock(port.dev, b);
    port.Pulse(true, false);
    IdleClock(port.dev, b);
    port.Pulse(true, false);
  }

  /** JTAG_ShiftIRState from Run-Test/Idle: the instruction is loaded least significant bit first. */
  method ShiftIRState(port: Port, wrIR: seq<char>)
    requires port.Valid() && AtRest(port.dev) && |wrIR| == 4
    modifies port
    ensures port.Valid() && AtRest(port.dev) && port.dev.core == ScanInstruction(old(port.dev.core), Levels(wrIR))
  {
    hide Clock, WellFormed, UpdateInstruction;
    ghost var c, b, wr := port.dev.core, port.board, Levels(wrIR);
    ShiftingIRStart(port.dev, b, wr);
    port.Pulse(true, true);   // Select-DR-Scan
    port.Pulse(true, true);   // Select-IR-Scan
    port.Pulse(true, false);  // Capture-IR
    port.Pulse(true, false);  // Shift-IR
    var size := |wrIR|;
    var i := 0;
    while i < size - 1
      invariant 0 <= i <= size - 1
      invariant port.dev == ShiftingIR(c, wr, i)
    {
      ShiftingIRStep(c, b, wr, i, false);
      port.Pulse(wrIR[i] == HIGH, false);
      i := i + 1;
    }
    ShiftingIRStep(c, b, wr, i, true);
    ShiftingIREnd(c, b, wr);
    port.Pulse(wrIR[i] == HIGH, true);  // Exit1-IR
    port.Pulse(true, true);   // Update-IR
    port.Pulse(true, false);  // Run-Test/Idle
    ScanInstructionKeepsForm(c, b, wr);
  }

  const CAPTURED_IR := [true, false, false, false]

  /** In Shift-IR after i bits of wr. */
  function ShiftingIR(c: Core, wr: seq<bool>, i: nat): Device
    requires i <= |wr| == 4
  {
    Device(ShiftIR, true, if i == 0 then Floating else Level(CAPTURED_IR[i - 1]),
           c.(irShift := CAPTURED_IR[i..] + wr[..i]))
  }

  lemma ShiftingIRStart(d: Device, b: Board, wr: seq<bool>)
    requires AtRest(d) && |wr| == 4
    ensures var d1 := Clock(d, b, true, true);
            var d2 := Clock(d1, b, true, true);
            var d3 := Clock(d2, b, true, false);
            Clock(d3, b, true, false) == ShiftingIR(d.core, wr, 0)
  {
    hide Clock;
    var d1 := Clock(d, b, true, true);
    var d2 := Clock(d1, b, true, true);
    var d3 := Clock(d2, b, true, false);
    ClockIs(d, b, true, true);
    ClockIs(d1, b, true, true);
    ClockIs(d2, b, true, false);
    ClockIs(d3, b, true, false);
    assert CAPTURED_IR[0..] + wr[..0] == CAPTURED_IR;
  }

  lemma ShiftingIRStep(c: Core, b: Board, wr: seq<bool>, i: nat, tms: bool)
    requires i < |wr| == 4
    ensures Clock(ShiftingIR(c, wr, i), b, wr[i], tms)
         == ShiftingIR(c, wr, i + 1).(state := if tms then Exit1IR else ShiftIR)
  {
    hide Clock;
    ClockIs(ShiftingIR(c, wr, i), b, wr[i], tms);
    Slide(CAPTURED_IR, wr, i);
  }

  lemma ShiftingIREnd(c: Core, b: Board, wr: seq<bool>)
    requires |wr| == 4
    ensures var d1 := Clock(ShiftingIR(c, wr, 4).(state := Exit1IR), b, true, true);
            && Clock(d1, b, true, false) == Device(RunTestIdle, true, Floating, ScanInstruction(c, wr))
            && Clock(d1, b, true, true) == Device(SelectDR, true, Floating, ScanInstruction(c, wr))
  {
    hide Clock, UpdateInstruction;
    var d0 := ShiftingIR(c, wr, 4).(state := Exit1IR);
    var d1 := Clock(d0, b, true, true);
    ClockIs(d0, b, true, true);
    ClockIs(d1, b, true, false);
    ClockIs(d1, b, true, true);
    assert CAPTURED_IR[4..] + wr[..4] == wr;
  }

  lemma ScanInstructionKeepsForm(c: Core, b: Board, wr: seq<bool>)
    requires WellFormed(c, b) && |wr| == 4
    ensures WellFormed(ScanInstruction(c, wr), b)
  {
  }

  lemma ScanDataKeepsForm(c: Core, b: Board, wr: seq<bool>)
    requires WellFormed(c, b) && |wr| == |Captured(c, b)|
    ensures WellFormed(ScanData(c, b, wr), b)
  {
  }

  /** JTAG_ShiftDRState from Run-Test/Idle: rd is the captured register bit for bit, and wr is latched. */
  method ShiftDRState(port: Port, wrDR: seq<char>, rdDR: array<char>)
    requires port.Valid() && AtRest(port.dev)
    requires |wrDR| == |Captured(port.dev.core, port.board)| <= rdDR.Length
    modifies port, rdDR
    ensures port.Valid() && AtRest(port.dev)
    ensures port.dev.core == ScanData(old(port.dev.core), port.board, Levels(wrDR))
    ensures rdDR[..|wrDR|] == Chars(Captured(old(port.dev.core), port.board))
    ensures rdDR[|wrDR|..] == old(rdDR[|wrDR|..])
  {
    hide Clock, Capture, WithDataShift, ScanData, WellFormed;
    ghost var c, b, wr := port.dev.core, port.board, Levels(wrDR);
    CapturedSize(c, b);
    hide Captured;
    ShiftingStart(port.dev, b, wr);
    port.Pulse(true, true);   // Select-DR-Scan
    port.Pulse(true, false);  // Capture-DR
    port.Pulse(true, false);  // Shift-DR
    var size := |wrDR|;
    var i := 0;
    while i < size - 1
      invariant 0 <= i <= size - 1
      invariant port.dev == Shifting(c, b, wr, i)
      invariant rdDR[..i] == Chars(Captured(c, b))[..i]
      invariant rdDR[size..] == old(rdDR[size..])
    {
      ShiftingStep(c, b, wr, i, false);
      port.Pulse(wrDR[i] == HIGH, false);
      rdDR[i] := port.GetTdo();
      i := i + 1;
    }
    ShiftingStep(c, b, wr, i, true);
    ShiftingEnd(c, b, wr);
    port.Pulse(wrDR[i] == HIGH, true);  // Exit1-DR
    rdDR[i] := port.GetTdo();
    port.Pulse(true, true);   // Update-DR
    port.Pulse(true, false);  // Run-Test/Idle
    ScanDataKeepsForm(c, b, wr);
  }

  lemma CapturedSize(c: Core, b: Board)
    requires WellFormed(c, b)
    ensures |Captured(c, b)| >= 1
  {
  }

  /** JTAG_ShiftDRStateNoTDO: the same effect on the device as JTAG_ShiftDRState. */
  method ShiftDRStateNoTDO(port: Port, wrDR: seq<char>)
    requires port.Valid() && AtRest(port.dev)
    requires |wrDR| == |Captured(port.dev.core, port.board)|
    modifies port
    ensures port.Valid() && AtRest(port.dev)
    ensures port.dev.core == ScanData(old(port.dev.core), port.board, Levels(wrDR))
  {
    hide Clock, Capture, WithDataShift, ScanData, WellFormed;
    ghost var c, b, wr := port.dev.core, port.board, Levels(wrDR);
    CapturedSize(c, b);
    hide Captured;
    ShiftingStart(port.dev, b, wr);
    port.Pulse(true, true);   // Select-DR-Scan
    port.Pulse(true, false);  // Capture-DR
    port.Pulse(true, false);  // Shift-DR
    var size := |wrDR|;
    var i := 0;
    while i < size - 1
      invariant 0 <= i <= size - 1
      invariant port.dev == Shifting(c, b, wr, i)
    {
      ShiftingStep(c, b, wr, i, false);
      port.Pulse(wrDR[i] == HIGH, false);
      i := i + 1;
    }
    ShiftingStep(c, b, wr, i, true);
    ShiftingEnd(c, b, wr);
    port.Pulse(wrDR[i] == HIGH, true);  // Exit1-DR
    port.Pulse(true, true);   // Update-DR
    port.Pulse(true, false);  // Run-Test/Idle
    ScanDataKeepsForm(c, b, wr);
  }

  /** Under the identification instruction a data scan captures the identification code and changes no pin. */
  lemma IdScan(c: Core, b: Board, wr: seq<bool>)
    requires WellFormed(c, b) && c.ir == IDCODE && |wr| == 32
    ensures |b.id| == 32 && Captured(c, b) == b.id
    ensures ScanData(c, b, wr) == c.(idShift := wr) && WellFormed(ScanData(c, b, wr), b)
  {
  }

  /** The word whose bit i is character i of id. */
  method PackId(id: array<char>) returns (id32: nat)
    requires id.Length == 32
    ensures id32 < Pow2(32)
    ensures forall i: nat | i < 32 :: Bit(id32, i) == (id[i] == HIGH)
  {
    hide Bit, Or, Pow2;
    id32 := 0;
    ghost var k := 0;
    while k < 32
      invariant 0 <= k <= 32
      invariant forall j: nat | j < k :: !Bit(0, j)
    {
      ZeroBit(k);
      k := k + 1;
    }
    ZeroBound(32);
    var i := 31;
    while i >= 0
      invariant -1 <= i <= 31 && id32 < Pow2(32)
      invariant forall j: nat | j < 32 :: Bit(id32, j) == (j > i && id[j] == HIGH)
    {
      if id[i] == HIGH {
        ghost var before := id32;
        Pow2Grows(i, 32);
        OrXorBound(id32, Pow2(i), 32);
        id32 := Or(id32, Pow2(i));
        forall j: nat | j < 32
          ensures Bit(id32, j) == (j > i - 1 && id[j] == HIGH)
        {
          BitOr(before, Pow2(i), j);
          BitPow2(i, j);
        }
      }
      i := i - 1;
    }
  }

  lemma ZeroBound(n: nat)
    ensures 0 < Pow2(n)
  {
  }

  /** The first half of JTAG_ReadId: reset, load "0111" least significant bit first, stop in Select-DR-Scan. */
  method LoadIdInstruction(port: Port)
    requires port.Valid()
    modifies port
    ensures port.Valid() && port.dev == Device(SelectDR, true, Floating, port.dev.core) && port.dev.core.ir == IDCODE
  {
    hide Clock, WellFormed, UpdateInstruction;
    ghost var b := port.board;
    Reset(port);
    IdleClock(port.dev, b);
    port.Pulse(true, false);
    IdleClock(port.dev, b);
    port.Pulse(true, false);
    IdleClock(port.dev, b);
    port.Pulse(true, false);
    IdleClock(port.dev, b);
    port.Pulse(true, false);  // Run-Test/Idle
    ghost var c := port.dev.core;
    ShiftingIRStart(port.dev, b, IDCODE);
    port.Pulse(true, true);   // Select-DR-Scan
    port.Pulse(true, true);   // Select-IR-Scan
    port.Pulse(true, false);  // Capture-IR
    port.Pulse(true, false);  // Shift-IR
    ShiftingIRStep(c, b, IDCODE, 0, false);
    port.Pulse(false, false);
    ShiftingIRStep(c, b, IDCODE, 1, false);
    port.Pulse(true, false);
    ShiftingIRStep(c, b, IDCODE, 2, false);
    port.Pulse(true, false);
    ShiftingIRStep(c, b, IDCODE, 3, true);
    port.Pulse(true, true);   // Exit1-IR
    ShiftingIREnd(c, b, IDCODE);
    port.Pulse(true, true);   // Update-IR
    port.Pulse(true, true);   // Select-DR-Scan
    ScanInstructionKeepsForm(c, b, IDCODE);
    ScannedInstruction(c, IDCODE);
  }

  lemma ScannedInstruction(c: Core, wr: seq<bool>)
    ensures ScanInstruction(c, wr).ir == wr
  {
  }

  /** The 32 clocks in which the identification code leaves the register. */
  method ShiftOutId(port: Port, id: array<char>, ghost c: Core, ghost ones: seq<bool>)
    requires |ones| == id.Length == 32 && Captured(c, port.board) == port.board.id && |port.board.id| == 32
    requires forall j :: 0 <= j < 32 ==> ones[j]
    requires port.dev == Shifting(c, port.board, ones, 0)
    modifies port, id
    ensures port.dev == Shifting(c, port.board, ones, 32).(state := Exit1DR)
    ensures forall j :: 0 <= j < 32 ==> id[j] == if port.board.id[j] then HIGH else LOW
  {
    hide Clock, Captured, Capture, WithDataShift, Shifting;
    ghost var b := port.board;
    var i := 0;
    while i <= 30
      invariant 0 <= i <= 31
      invariant port.dev == Shifting(c, b, ones, i)
      invariant forall j :: 0 <= j < i ==> id[j] == if b.id[j] then HIGH else LOW
    {
      ShiftingStep(c, b, ones, i, false);
      ShownBit(c, b, ones, i);
      port.Pulse(true, false);
      id[i] := port.GetTdo();
      i := i + 1;
    }
    ShiftingStep(c, b, ones, i, true);
    ShownBit(c, b, ones, i);
    port.Pulse(true, true);   // Exit1-DR
    id[i] := port.GetTdo();
  }

  /** JTAG_ReadId: from any of the 16 states, the device's identification code, ending in Run-Test/Idle. */
  method ReadId(port: Port) returns (id32: nat)
    requires port.Valid()
    modifies port
    ensures port.Valid() && AtRest(port.dev) && port.dev.core.ir == [false, true, true, true]
    ensures id32 < Pow2(32)
    ensures forall i: nat | i < 32 :: Bit(id32, i) == port.board.id[i]
  {
    hide Clock, Captured, Capture, WithDataShift, ScanData, WellFormed, Bit, Pow2, Shifting;
    ghost var b := port.board;
    var id := new char[32];
    LoadIdInstruction(port);
    ghost var c, ones := port.dev.core, seq(32, i => true);
    IdScan(c, b, ones);
    ShiftingFromSelect(c, b, ones);
    port.Pulse(true, false);  // Capture-DR
    port.Pulse(true, false);  // Shift-DR
    ShiftOutId(port, id, c, ones);
    ShiftingEnd(c, b, ones);
    port.Pulse(true, true);   // Update-DR
    port.Pulse(true, false);  // Run-Test/Idle
    IdleClock(port.dev, b);
    port.Pulse(true, false);
    IdleClock(port.dev, b);
    port.Pulse(true, false);
    id32 := PackId(id);
  }
}
