/**
A boundary-scan device as the parallel-port JTAG driver sees it: the 16-state test access port controller of
section 6.1 of IEEE Std 1149.1-2001 with its instruction register, an identification register, a bypass
register and a boundary-scan register whose update stage drives the pins of the chip.

The controller moves on rising edges of TCK. In a capture state the rising edge loads the selected register, in
a shift state it shifts it one cell towards TDO. On falling edges TDO changes (it is driven in the shift states
only) and, in an update state, the shifted value is latched.
 */
module Tap {

  datatype TapState =
    | TestLogicReset | RunTestIdle
    | SelectDR | CaptureDR | ShiftDR | Exit1DR | PauseDR | Exit2DR | UpdateDR
    | SelectIR | CaptureIR | ShiftIR | Exit1IR | PauseIR | Exit2IR | UpdateIR

  function Next(s: TapState, tms: bool): TapState {
    match s
    case TestLogicReset => if tms then TestLogicReset else RunTestIdle
    case RunTestIdle => if tms then SelectDR else RunTestIdle
    case SelectDR => if tms then SelectIR else CaptureDR
    case CaptureDR => if tms then Exit1DR else ShiftDR
    case ShiftDR => if tms then Exit1DR else ShiftDR
    case Exit1DR => if tms then UpdateDR else PauseDR
    case PauseDR => if tms then Exit2DR else PauseDR
    case Exit2DR => if tms then UpdateDR else ShiftDR
    case UpdateDR => if tms then SelectDR else RunTestIdle
    case SelectIR => if tms then TestLogicReset else CaptureIR
    case CaptureIR => if tms then Exit1IR else ShiftIR
    case ShiftIR => if tms then Exit1IR else ShiftIR
    case Exit1IR => if tms then UpdateIR else PauseIR
    case PauseIR => if tms then Exit2IR else PauseIR
    case Exit2IR => if tms then UpdateIR else ShiftIR
    case UpdateIR => if tms then SelectDR else RunTestIdle
  }

  /** Boundary-scan cells of the S3C2410. */
  const CELLS := 427

  /** TDO floats outside the shift states. */
  datatype Tdo = Floating | Level(high: bool)

  datatype Register = IdRegister | BypassRegister | BoundaryRegister

  // Instruction codes, least significant bit first.
  const EXTEST := [false, false, false, false]
  const IDCODE := [false, true, true, true]
  const SAMPLE_PRELOAD := [true, true, false, false]

  function Selected(ir: seq<bool>): Register {
    if ir == IDCODE then IdRegister
    else if ir == EXTEST || ir == SAMPLE_PRELOAD then BoundaryRegister
    else BypassRegister
  }

  /** The levels on one set of pins, one per boundary cell. */
  type Pins = seq<bool>

  /**
   * The registers of the device. `latch` is the update stage of the boundary register; `driven` lists, in
   * order, every pin vector the latch has put on the pins under EXTEST; `captures` counts boundary captures.
   */
  datatype Core = Core(
    ir: seq<bool>, irShift: seq<bool>,
    idShift: seq<bool>, bypassShift: seq<bool>, cells: seq<bool>,
    latch: Pins, driven: seq<Pins>, captures: nat)

  /** The device: its controller, the two lines with a memory, and its registers. */
  datatype Device = Device(state: TapState, tck: bool, tdo: Tdo, core: Core)

  /** The surroundings: the identification code, and the level of every cell at the n-th capture after `driven`. */
  datatype Board = Board(id: seq<bool>, level: (seq<Pins>, nat, nat) -> bool)

  ghost predicate WellFormed(c: Core, b: Board) {
    && |c.ir| == 4 && |c.irShift| == 4 && |c.idShift| == 32 && |c.bypassShift| == 1
    && |c.cells| == CELLS && |c.latch| == CELLS && |b.id| == 32
  }

  /** The shift stage of the selected data register. */
  function DataShift(c: Core): seq<bool> {
    match Selected(c.ir)
    case IdRegister => c.idShift
    case BypassRegister => c.bypassShift
    case BoundaryRegister => c.cells
  }

  function WithDataShift(c: Core, s: seq<bool>): Core {
    match Selected(c.ir)
    case IdRegister => c.(idShift := s)
    case BypassRegister => c.(bypassShift := s)
    case BoundaryRegister => c.(cells := s)
  }

  /** The level of every cell at the next boundary capture. */
  function SampledPins(c: Core, b: Board): Pins {
    seq(CELLS, i requires 0 <= i < CELLS => b.level(c.driven, c.captures, i))
  }

  /** What a capture loads into the selected data register. */
  function Captured(c: Core, b: Board): seq<bool> {
    match Selected(c.ir)
    case IdRegister => b.id
    case BypassRegister => [false]
    case BoundaryRegister => SampledPins(c, b)
  }

  function Capture(c: Core, b: Board): Core {
    var c' := WithDataShift(c, Captured(c, b));
    if Selected(c.ir) == BoundaryRegister then c'.(captures := c.captures + 1) else c'
  }

  function Shifted(s: seq<bool>, tdi: bool): seq<bool> {
    if s == [] then [] else s[1..] + [tdi]
  }

  /** The latch drives the pins under EXTEST. */
  function Latched(c: Core, v: Pins): Core {
    if c.ir == EXTEST then c.(latch := v, driven := c.driven + [v]) else c.(latch := v)
  }

  function UpdateData(c: Core): Core {
    if Selected(c.ir) == BoundaryRegister then Latched(c, c.cells) else c
  }

  /** A new instruction; EXTEST puts the preloaded latch on the pins. */
  function UpdateInstruction(c: Core): Core {
    Latched(c.(ir := c.irShift), c.latch)
  }

  function Head(s: seq<bool>): Tdo {
    if s == [] then Floating else Level(s[0])
  }

  function Falling(d: Device): Device {
    match d.state
    case ShiftDR => d.(tck := false, tdo := Head(DataShift(d.core)))
    case ShiftIR => d.(tck := false, tdo := Head(d.core.irShift))
    case UpdateDR => d.(tck := false, tdo := Floating, core := UpdateData(d.core))
    case UpdateIR => d.(tck := false, tdo := Floating, core := UpdateInstruction(d.core))
    case TestLogicReset => d.(tck := false, tdo := Floating, core := d.core.(ir := IDCODE))
    case _ => d.(tck := false, tdo := Floating)
  }

  /** The register transfer of a rising edge in state s. */
  function Transfer(s: TapState, c: Core, b: Board, tdi: bool): Core {
    match s
    case CaptureDR => Capture(c, b)
    case ShiftDR => WithDataShift(c, Shifted(DataShift(c), tdi))
    case CaptureIR => c.(irShift := [true, false, false, false])
    case ShiftIR => c.(irShift := Shifted(c.irShift, tdi))
    case _ => c
  }

  function Rising(d: Device, b: Board, tdi: bool, tms: bool): Device {
    Device(Next(d.state, tms), true, d.tdo, Transfer(d.state, d.core, b, tdi))
  }

  /** One write of the parallel port's data lines. */
  function Drive(d: Device, b: Board, tdi: bool, tms: bool, tck: bool): Device {
    if d.tck && !tck then Falling(d)
    else if !d.tck && tck then Rising(d, b, tdi, tms)
    else d
  }

  /** A full clock: the lines are set up with TCK low, then TCK goes high. */
  function Clock(d: Device, b: Board, tdi: bool, tms: bool): Device {
    Drive(Drive(d, b, tdi, tms, false), b, tdi, tms, true)
  }

  /** The parallel port with the device behind it. */
  class Port {
    var dev: Device
    const board: Board

    ghost predicate Valid()
      reads this
    {
      WellFormed(dev.core, board)
    }

    /** JTAG_SET. */
    method Set(tdi: bool, tms: bool, tck: bool)
      modifies this
      ensures dev == Drive(old(dev), board, tdi, tms, tck)
    {
      dev := Drive(dev, board, tdi, tms, tck);
    }

    /** JTAG_GET_TDO: '1' for a high line; a floating line is pulled up. */
    method GetTdo() returns (c: char)
      ensures c == TdoChar(dev.tdo)
    {
      c := TdoChar(dev.tdo);
    }

    /** The pair of writes that every step of the driver consists of. */
    method Pulse(tdi: bool, tms: bool)
      modifies this
      ensures dev == Clock(old(dev), board, tdi, tms)
    {
      Set(tdi, tms, false);
      Set(tdi, tms, true);
    }
  }

  function TdoChar(t: Tdo): char {
    if t == Level(false) then '0' else '1'
  }
}
