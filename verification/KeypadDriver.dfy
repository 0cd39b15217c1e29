/**
The state machine of kernel/linux_bast/reciva/reciva_keypad_generic.c: row interrupts, the debounce timer and the
LCD's requests for the pins, in any order.
 */
module KeypadDriver {
  import opened KeyLog
  import opened Keypad

  /**
   The row interrupt that arrives while interrupts are being enabled or disabled one by one: `line` fires right
   after (or before) line number `step` is treated, if it is enabled then.
   */
  datatype Race = Race(step: nat, line: nat)

  /** The lowest row that reads low. */
  function Lowest(low: seq<bool>): (r: nat)
    requires true in low
    ensures r < |low| && low[r] && forall j :: 0 <= j < r ==> !low[j]
  {
    if low[0] then 0 else 1 + Lowest(low[1..])
  }

  lemma LowestIs(low: seq<bool>, r: nat)
    requires r < |low| && low[r] && forall j :: 0 <= j < r ==> !low[j]
    ensures true in low && Lowest(low) == r
  {
  }

  class Driver {
    const numRows: nat
    const numCols: nat
    const pinsShared: bool
    var state: KeyState
    var gpio: nat
    var column: nat
    var key: Key
    var releaseDetectCount: nat
    var interruptRan: bool
    /** How often each row interrupt has been disabled and not enabled again. */
    var depth: seq<nat>
    var timerPending: bool
    /** The columns that the pins drive low, and the copy that survives the LCD. */
    var driven: set<nat>
    var columnLevels: set<nat>
    /** Whether the LCD has the pins, and whether it has had them since the current scan was started. */
    ghost var held: bool
    ghost var lent: bool
    var log: seq<Event>

    ghost predicate Configured()
      reads this
    {
      3 <= numRows <= 4 && 3 <= numCols <= 4 && |depth| == numRows
    }

    /** Every row interrupt is disabled d times. */
    ghost predicate Level(d: nat)
      reads this
    {
      Configured() && forall l :: 0 <= l < numRows ==> depth[l] == d
    }

    /** A scan that has been started is at its first column; otherwise all columns are to be driven. */
    ghost predicate Remembered()
      reads this
    {
      if state == IdentifyButton then column == numCols - 1 && columnLevels == {column}
      else columnLevels == AllColumns(numCols)
    }

    /** What the pins drive while the LCD does not have them. */
    ghost predicate Driven()
      reads this
      requires Configured()
    {
      driven == if state == IdentifyButton then FirstColumns(numCols, lent) else AllColumns(numCols)
    }

    /** A scan has just been started. */
    ghost predicate ScanStarted()
      reads this
    {
      Configured() && state == IdentifyButton && Remembered() && Driven() && !lent
    }

    /**
     Who owns what: the row interrupts are enabled exactly when the driver is idle and has the pins, and the timer
     runs exactly when it is busy and has the pins.
     */
    ghost predicate Owned()
      reads this
    {
      && Level(if state == Idle && !held then 0 else 1)
      && timerPending == (state != Idle && !held)
      && (held ==> pinsShared) && Remembered() && (!held ==> Driven())
      && (held && state == IdentifyButton ==> lent)
    }

    ghost predicate Valid()
      reads this
    {
      Owned() && Stands(log, state, key, releaseDetectCount)
    }

    constructor (numRows: nat, numCols: nat, pinsShared: bool)
      requires 3 <= numRows <= 4 && 3 <= numCols <= 4
      ensures Valid() && state == Idle && !held && !lent && log == [] && !interruptRan
      ensures gpio == 0 && column == 0 && key == NoKey && releaseDetectCount == 0
      ensures this.numRows == numRows && this.numCols == numCols && this.pinsShared == pinsShared
    {
      this.numRows, this.numCols, this.pinsShared := numRows, numCols, pinsShared;
      state, gpio, column, key, releaseDetectCount, interruptRan := Idle, 0, 0, NoKey, 0, false;
      depth := seq(numRows, i => 0);
      timerPending, held, lent, log := false, false, false, [];
      driven, columnLevels := AllColumns(numCols), AllColumns(numCols);
    }

    /** set_columns. */
    method SetColumns(low: set<nat>)
      modifies `driven, `columnLevels
      ensures driven == columnLevels == low
    {
      driven, columnLevels := low, low;
    }

    /** setup_gpio_output: every column becomes an output at low level, whatever the columns are meant to be. */
    method SetupGpioOutput()
      modifies `driven
      ensures driven == AllColumns(numCols)
    {
      driven := AllColumns(numCols);
    }

    /** disable_interrupts, where no interrupt can interfere. */
    method DisableInterrupts()
      requires Configured()
      modifies `depth
      ensures Configured() && forall l :: 0 <= l < numRows ==> depth[l] == old(depth[l]) + 1
    {
      var l := 0;
      while l < numRows
        invariant l <= numRows && Configured()
        invariant forall j :: 0 <= j < numRows ==> depth[j] == old(depth[j]) + if j < l then 1 else 0
      {
        depth := depth[l := depth[l] + 1];
        l := l + 1;
      }
    }

    /** gp_state_machine in the state IDLE. */
    method StartScan()
      requires Configured() && state == Idle
      modifies `depth, `timerPending, `column, `state, `driven, `columnLevels, `lent
      ensures ScanStarted() && timerPending
      ensures forall l :: 0 <= l < numRows ==> depth[l] == old(depth[l]) + 1
    {
      DisableInterrupts();
      timerPending := true;
      column := numCols - 1;
      state := IdentifyButton;
      lent := false;
      SetColumns({column});
    }

    /** reciva_gpio_int_handler. */
    method IntHandler(row: nat)
      requires Configured()
      modifies `depth, `timerPending, `column, `state, `driven, `columnLevels, `lent, `gpio, `interruptRan
      ensures Configured() && interruptRan
      ensures old(state) == Idle ==>
                && ScanStarted() && timerPending && gpio == row
                && forall l :: 0 <= l < numRows ==> depth[l] == old(depth[l]) + 1
      ensures old(state) != Idle ==>
                && state == old(state) && column == old(column) && columnLevels == old(columnLevels)
                && driven == old(driven) && timerPending == old(timerPending) && depth == old(depth)
                && gpio == old(gpio) && lent == old(lent)
    {
      interruptRan := true;
      if state == Idle {
        gpio := row;
        StartScan();
      }
    }

    /** A row interrupt, which the processor takes only when it is enabled. */
    method RowInterrupt(line: nat)
      requires Valid() && line < numRows && depth[line] == 0
      modifies `depth, `timerPending, `column, `state, `driven, `columnLevels, `lent, `gpio, `interruptRan
      ensures Valid() && state == IdentifyButton && gpio == 8 + line && !lent
    {
      IntHandler(FIRST_ROW + line);
    }

    /** Whether the race is won by the interrupt while the lines up to number l have been enabled. */
    ghost predicate Fires(race: Race)
      reads this
    {
      race.line <= race.step < numRows
    }

    /** enable_interrupts while the driver is idle: a row interrupt may come as soon as its line is enabled. */
    method EnableInterrupts(race: Race)
      requires Level(1) && state == Idle && !timerPending
      modifies `depth, `timerPending, `column, `state, `driven, `columnLevels, `lent, `gpio, `interruptRan
      ensures Fires(race) ==>
                && Level(1) && ScanStarted() && timerPending && interruptRan && gpio == FIRST_ROW + race.line
      ensures !Fires(race) ==>
                && Level(0) && state == Idle && !timerPending && driven == old(driven)
                && columnLevels == old(columnLevels) && interruptRan == old(interruptRan) && gpio == old(gpio)
    {
      var l := 0;
      while l < numRows
        invariant l <= numRows && Configured()
        invariant Fires(race) && race.step < l ==>
                    && (forall j :: 0 <= j < numRows ==> depth[j] == if j < l then 1 else 2)
                    && ScanStarted() && timerPending && interruptRan && gpio == FIRST_ROW + race.line
        invariant !(Fires(race) && race.step < l) ==>
                    && (forall j :: 0 <= j < numRows ==> depth[j] == if j < l then 0 else 1)
                    && state == Idle && !timerPending && driven == old(driven)
                    && columnLevels == old(columnLevels) && interruptRan == old(interruptRan) && gpio == old(gpio)
      {
        depth := depth[l := depth[l] - 1];
        if l == race.step && race.line <= l {
          IntHandler(FIRST_ROW + race.line);
        }
        l := l + 1;
      }
    }

    ghost function Configuration(): Config {
      Config(numRows, numCols, pinsShared)
    }

    /** The view of the driver; what its state makes irrelevant is left at 0 or false. */
    ghost function Seen(): View
      reads this
    {
      View(state, gpio, key, if state == ReleasePending then releaseDetectCount else 0,
           held, lent && state == IdentifyButton, log)
    }

    /** What the scan reports when it is carried out now. */
    ghost function ScanNow(board: Board): Option<nat>
      reads this
      requires Configured()
    {
      Scan(board, gpio, numCols, 0, numCols - 1, FirstColumns(numCols, lent))
    }

    /** The loop that drives one column after the other. */
    method ScanColumns(board: Board) returns (keypressDetected: bool)
      requires Configured() && state == IdentifyButton && Remembered() && Driven()
      modifies `column, `driven, `columnLevels, `key
      ensures driven == columnLevels == AllColumns(numCols)
      ensures old(ScanNow(board)) == if keypressDetected then Some(column) else None
      ensures key == if keypressDetected then Key(gpio, column) else old(key)
    {
      hide AllColumns;
      keypressDetected := false;
      var i := 0;
      ghost var result := Scan(board, gpio, numCols, 0, column, driven);
      while i < 4 && !keypressDetected
        invariant i <= 4
        invariant !keypressDetected && i > 0 ==>
                    driven == columnLevels == if i < numCols then {column} else AllColumns(numCols)
        invariant !keypressDetected ==> column == if i < numCols then numCols - 1 - i else 0
        invariant keypressDetected ==> driven == columnLevels == AllColumns(numCols)
        invariant key == if keypressDetected then Key(gpio, column) else old(key)
        invariant result == if keypressDetected then Some(column) else Scan(board, gpio, numCols, i, column, driven)
        decreases 4 - i, !keypressDetected
      {
        if board(3 * i, driven, gpio) && board(3 * i + 1, driven, gpio) && board(3 * i + 2, driven, gpio) {
          keypressDetected := true;
          key := Key(gpio, column);
          SetColumns(AllColumns(numCols));
        } else {
          if column >= 1 {
            SetColumns({});
            column := column - 1;
            SetColumns({column});
          } else {
            SetColumns(AllColumns(numCols));
          }
          i := i + 1;
        }
      }
    }

    /** gp_state_machine in the state IDENTIFY_BUTTON. */
    method ScanForKey(board: Board)
      requires Configured() && state == IdentifyButton && Remembered() && Driven() && !timerPending
      requires Stands(log, state, key, releaseDetectCount)
      modifies `column, `driven, `columnLevels, `key, `log, `timerPending, `releaseDetectCount, `state
      ensures timerPending && Remembered() && Driven() && Stands(log, state, key, releaseDetectCount)
      ensures match old(ScanNow(board))
              case Some(c) =>
                state == ReleasePending && log == old(log) + [KeyDown(Key(gpio, c))] && key == Key(gpio, c)
              case None => state == ReleaseDetected && log == old(log) + [ScanFailed] && key == old(key)
      ensures releaseDetectCount == 0
    {
      hide Stands, Scan;
      var keypressDetected := ScanColumns(board);
      timerPending := true;
      releaseDetectCount := 0;
      if keypressDetected {
        KeyFound(log, old(key), key, old(releaseDetectCount));
        state := ReleasePending;
        log := log + [KeyDown(key)];
      } else {
        NoKeyFound(log, key, old(releaseDetectCount));
        state := ReleaseDetected;
        log := log + [ScanFailed];
      }
    }

    /** gp_state_machine in the state RELEASE_PENDING. */
    method AwaitRelease(released: bool)
      requires state == ReleasePending && Stands(log, state, key, releaseDetectCount) && !timerPending
      modifies `releaseDetectCount, `state, `timerPending, `log
      ensures timerPending && log == old(log) + [Sample(released)] && Stands(log, state, key, releaseDetectCount)
      ensures releaseDetectCount == if released then old(releaseDetectCount) + 1 else 0
      ensures state == if releaseDetectCount > 2 then ReleaseDetected else ReleasePending
    {
      hide Stands;
      ReleasesBound(log, key, releaseDetectCount);
      Sampled(log, key, releaseDetectCount, released);
      releaseDetectCount := if released then releaseDetectCount + 1 else 0;
      if releaseDetectCount > 2 {
        state := ReleaseDetected;
      }
      timerPending := true;
      log := log + [Sample(released)];
    }

    /** gp_state_machine in the state RELEASE_DETECTED. */
    method BackToIdle(race: Race)
      requires Level(1) && state == ReleaseDetected && !timerPending && !held && Remembered() && Driven()
      requires Stands(log, state, key, releaseDetectCount)
      modifies this
      ensures Valid() && !held && log == old(log) + [KeyUp(key)] && key == old(key)
      ensures state == if Fires(race) then IdentifyButton else Idle
      ensures gpio == if Fires(race) then FIRST_ROW + race.line else old(gpio)
      ensures Fires(race) ==> !lent
    {
      hide Stands;
      KeyReleased(log, key, releaseDetectCount);
      IdleOrScanning(log + [KeyUp(key)], key, releaseDetectCount);
      state := Idle;
      EnableInterrupts(race);
      log := log + [KeyUp(key)];
    }

    /** The timer: gp_state_machine in whatever state the driver is. */
    method TimerExpires(board: Board, released: bool, race: Race)
      requires Valid() && timerPending
      modifies this
      ensures Valid() && !held
      ensures old(state) != ReleaseDetected ==> gpio == old(gpio)
      ensures old(state) == IdentifyButton ==>
                && releaseDetectCount == 0
                && match old(ScanNow(board))
                   case Some(c) =>
                     state == ReleasePending && log == old(log) + [KeyDown(Key(gpio, c))] && key == Key(gpio, c)
                   case None => state == ReleaseDetected && log == old(log) + [ScanFailed] && key == old(key)
      ensures old(state) == ReleasePending ==>
                && releaseDetectCount == (if released then old(releaseDetectCount) + 1 else 0)
                && state == (if releaseDetectCount > 2 then ReleaseDetected else ReleasePending)
                && log == old(log) + [Sample(released)] && key == old(key)
      ensures old(state) == ReleaseDetected ==>
                && state == (if Fires(race) then IdentifyButton else Idle)
                && gpio == (if Fires(race) then 8 + race.line else old(gpio)) && (Fires(race) ==> !lent)
                && log == old(log) + [KeyUp(key)] && key == old(key)
    {
      hide Stands, Scan;
      timerPending := false;
      match state
      case IdentifyButton => ScanForKey(board);
      case ReleasePending => AwaitRelease(released);
      case ReleaseDetected => BackToIdle(race);
    }

    // -------------------------------------------------------------- sharing the pins with the LCD

    /** rkg_access_request. */
    method AccessRequest()
      requires Valid() && !held
      modifies `depth, `timerPending, `held, `lent
      ensures Valid() && held == pinsShared
      ensures pinsShared ==> Level(1) && !timerPending
      ensures lent == (old(lent) || (pinsShared && state == IdentifyButton))
    {
      if pinsShared {
        if state == Idle {
          DisableInterrupts();
        } else {
          timerPending := false;
        }
        held := true;
        lent := lent || state == IdentifyButton;
      }
    }

    /** The LCD driver puts its own levels on the pins. */
    method LcdDrives(low: set<nat>)
      requires Valid() && held
      modifies `driven
      ensures Valid() && held && driven == low
    {
      driven := low;
    }

    /** Either idle, or in a scan that has just been started. */
    ghost predicate Settled()
      reads this
    {
      && Configured() && Remembered() && Driven() && timerPending == (state != Idle)
      && (state != Idle ==> ScanStarted())
    }

    /** Whether the interrupt comes before its line is disabled. */
    ghost predicate Strikes(race: Race)
      reads this
    {
      race.step <= race.line < numRows
    }

    /** disable_interrupts in process context: a row interrupt may come before its line is disabled. */
    method DisableRacing(race: Race)
      requires Settled() && interruptRan == (state != Idle)
      requires Level(if state == Idle then 0 else 1)
      modifies `depth, `timerPending, `column, `state, `driven, `columnLevels, `lent, `gpio, `interruptRan
      ensures Settled() && interruptRan == (state != Idle)
      ensures Level(if state == Idle then 1 else 2)
      ensures (state != Idle) == (old(state) != Idle || Strikes(race))
      ensures gpio == if old(state) == Idle && Strikes(race) then FIRST_ROW + race.line else old(gpio)
    {
      var l := 0;
      while l < numRows
        invariant l <= numRows && Configured()
        invariant Settled() && interruptRan == (state != Idle)
        invariant (state != Idle) == (old(state) != Idle || (Strikes(race) && race.step < l))
        invariant gpio == if old(state) == Idle && Strikes(race) && race.step < l then FIRST_ROW + race.line
                          else old(gpio)
        invariant forall j :: 0 <= j < numRows ==>
                    depth[j] == (if j < l then 1 else 0) + (if state == Idle then 0 else 1)
      {
        if l == race.step && l <= race.line < numRows && depth[race.line] == 0 {
          IntHandler(FIRST_ROW + race.line);
        }
        depth := depth[l := depth[l] + 1];
        l := l + 1;
      }
    }

    /** enable_interrupts that only balances an earlier disable_interrupts. */
    method EnableBalanced()
      requires Level(2)
      modifies `depth
      ensures Level(1)
    {
      var l := 0;
      while l < numRows
        invariant l <= numRows && Configured()
        invariant forall j :: 0 <= j < numRows ==> depth[j] == if j < l then 1 else 2
      {
        depth := depth[l := depth[l] - 1];
        l := l + 1;
      }
    }

    /** The line on which check_for_keypress finds a key: the lowest one that reads low, unless another one strikes. */
    ghost function FoundLine(low: seq<bool>, race: Race): nat
      requires true in low
      reads this
    {
      if Strikes(race) then race.line else Lowest(low)
    }

    /** check_for_keypress: `low` is what it reads, the rows that are low. */
    method CheckForKeypress(low: seq<bool>, race: Race)
      requires |low| == numRows && Settled() && interruptRan == (state != Idle)
      requires Level(if state == Idle then 0 else 1)
      modifies `depth, `timerPending, `column, `state, `driven, `columnLevels, `lent, `gpio, `interruptRan
      ensures Settled() && Level(if state == Idle then 0 else 1)
      ensures (state != Idle) == (old(state) != Idle || true in low)
      ensures gpio == if old(state) == Idle && true in low then 8 + FoundLine(low, race) else old(gpio)
    {
      var n := 0;
      while n < numRows && !low[n]
        invariant 0 <= n <= numRows && forall j :: 0 <= j < n ==> !low[j]
      {
        n := n + 1;
      }
      if n < numRows {
        LowestIs(low, n);
        DisableRacing(race);
        if !interruptRan {
          IntHandler(FIRST_ROW + n);
        }
        EnableBalanced();
      }
    }

    /** The end of reciva_keypad_init: a key that is down already starts a scan. */
    method CheckAtInit(low: seq<bool>, race: Race)
      requires Valid() && !held && |low| == numRows && Settled() && interruptRan == (state != Idle)
      modifies `depth, `timerPending, `column, `state, `driven, `columnLevels, `lent, `gpio, `interruptRan
      ensures Valid() && (state == IdentifyButton) == (old(state) != Idle || true in low)
      ensures gpio == if old(state) == Idle && true in low then 8 + FoundLine(low, race) else old(gpio)
    {
      hide Stands;
      IdleOrScanning(log, key, releaseDetectCount);
      CheckForKeypress(low, race);
    }

    /** The line that a release with something on the rows goes on to scan. */
    ghost function ResumedLine(low: seq<bool>, enabling: Race, disabling: Race): nat
      requires Fires(enabling) || true in low
      reads this
    {
      if Fires(enabling) then enabling.line else FoundLine(low, disabling)
    }

    /** The part of rkg_access_release for an idle driver. */
    method ResumeIdle(low: seq<bool>, enabling: Race, disabling: Race)
      requires Level(1) && state == Idle && !timerPending && Remembered() && Driven() && |low| == numRows
      modifies `depth, `timerPending, `column, `state, `driven, `columnLevels, `lent, `gpio, `interruptRan
      ensures Settled() && Level(if state == Idle then 0 else 1)
      ensures (state != Idle) == (Fires(enabling) || true in low)
      ensures gpio == if Fires(enabling) || true in low then 8 + ResumedLine(low, enabling, disabling) else old(gpio)
    {
      interruptRan := false;
      EnableInterrupts(enabling);
      CheckForKeypress(low, disabling);
    }

    /**
     rkg_access_release. Row interrupts may come while they are being enabled again, and while
     check_for_keypress disables them; a key that is down when the pins come back is not lost. The columns come back
     all low, because setup_gpio_output undoes the set_columns before it.
     */
    method AccessRelease(low: seq<bool>, enabling: Race, disabling: Race)
      requires Valid() && held == pinsShared && |low| == numRows
      modifies this
      ensures Valid() && !held && log == old(log) && key == old(key)
      ensures old(state) != Idle || !pinsShared ==> state == old(state) && gpio == old(gpio) && lent == old(lent)
      ensures old(state) != Idle ==> releaseDetectCount == old(releaseDetectCount)
      ensures old(state) == Idle && pinsShared ==>
                if Fires(enabling) || true in low
                then state == IdentifyButton && !lent && gpio == 8 + ResumedLine(low, enabling, disabling)
                else state == Idle && gpio == old(gpio)
    {
      hide Stands;
      if pinsShared {
        SetColumns(columnLevels);
        SetupGpioOutput();
        held := false;
        if state == Idle {
          IdleOrScanning(log, key, releaseDetectCount);
          ResumeIdle(low, enabling, disabling);
        } else {
          timerPending := true;
        }
      }
    }
  }

  /** What can happen to the driver. */
  datatype Input =
    | RowInterrupt(line: nat)
    | Timer(board: Board, released: bool, race: Race)
    | Request
    | LcdDrives(columns: set<nat>)
    | Release(low: seq<bool>, enabling: Race, disabling: Race)

  // ---------------------------------------------------------------- runs

  datatype Config = Config(rows: nat, cols: nat, shared: bool)

  /** What the future of the driver depends on, and its log. */
  datatype View = View(state: KeyState, gpio: nat, key: Key, releases: int, held: bool, lent: bool, log: seq<Event>)

  /** A row interrupt has started a scan. */
  function Scanning(v: View, line: nat): View {
    v.(state := IdentifyButton, gpio := 8 + line, lent := false)
  }

  /** What the timer leads to. */
  function AfterTimer(c: Config, v: View, board: Board, released: bool, race: Race): View
    requires c.cols >= 1
  {
    match v.state
    case Idle => v
    case IdentifyButton =>
      (match Scan(board, v.gpio, c.cols, 0, c.cols - 1, FirstColumns(c.cols, v.lent))
       case Some(column) =>
         var key := Key(v.gpio, column);
         v.(state := ReleasePending, key := key, lent := false, log := v.log + [KeyDown(key)])
       case None => v.(state := ReleaseDetected, lent := false, log := v.log + [ScanFailed]))
    case ReleasePending =>
      var n := if released then v.releases + 1 else 0;
      if n == 3 then v.(state := ReleaseDetected, releases := 0, log := v.log + [Sample(released)])
      else v.(releases := n, log := v.log + [Sample(released)])
    case ReleaseDetected =>
      var w := v.(state := Idle, log := v.log + [KeyUp(v.key)]);
      if race.line <= race.step < c.rows then Scanning(w, race.line) else w
  }

  /** What giving the pins back leads to. */
  function AfterRelease(c: Config, v: View, low: seq<bool>, enabling: Race, disabling: Race): View {
    var w := v.(held := false);
    if v.state != Idle then w
    else if enabling.line <= enabling.step < c.rows then Scanning(w, enabling.line)
    else if true !in low then w
    else Scanning(w, if disabling.step <= disabling.line < c.rows then disabling.line else Lowest(low))
  }

  /** One input; one that cannot come now changes nothing. */
  function AfterInput(c: Config, v: View, x: Input): View
    requires c.cols >= 1
  {
    match x
    case RowInterrupt(line) => if v.state == Idle && !v.held && line < c.rows then Scanning(v, line) else v
    case Timer(board, released, race) => if v.held then v else AfterTimer(c, v, board, released, race)
    case Request => if c.shared && !v.held then v.(held := true, lent := v.state == IdentifyButton) else v
    case LcdDrives(_) => v
    case Release(low, enabling, disabling) =>
      if v.held && |low| == c.rows then AfterRelease(c, v, low, enabling, disabling) else v
  }

  function AfterInputs(c: Config, v: View, inputs: seq<Input>): View
    requires c.cols >= 1
  {
    if inputs == [] then v else AfterInput(c, AfterInputs(c, v, inputs[..|inputs| - 1]), inputs[|inputs| - 1])
  }

  /** The timer, when it is pending. */
  method TakeTimer(d: Driver, board: Board, released: bool, race: Race)
    requires d.Valid() && d.timerPending
    modifies d
    ensures d.Valid() && !d.held && d.Seen() == AfterTimer(d.Configuration(), old(d.Seen()), board, released, race)
    ensures |d.log| >= |old(d.log)| && d.log[..|old(d.log)|] == old(d.log)
  {
    hide Stands, Scan;
    if d.state == ReleasePending { ReleasesOf(d); }
    d.TimerExpires(board, released, race);
  }

  /** The release of the pins. */
  method TakeRelease(d: Driver, low: seq<bool>, enabling: Race, disabling: Race)
    requires d.Valid() && d.held && |low| == d.numRows
    modifies d
    ensures d.Valid() && !d.held && d.log == old(d.log)
    ensures d.Seen() == AfterRelease(d.Configuration(), old(d.Seen()), low, enabling, disabling)
  {
    hide Stands;
    d.AccessRelease(low, enabling, disabling);
  }

  /** One input to the driver; `requested` says whether a request has not been followed by a release yet. */
  method Take(d: Driver, x: Input, requested: bool) returns (requested': bool)
    requires d.Valid() && d.held == (requested && d.pinsShared)
    modifies d
    ensures d.Valid() && d.held == (requested' && d.pinsShared)
    ensures d.Seen() == AfterInput(d.Configuration(), old(d.Seen()), x)
    ensures |d.log| >= |old(d.log)| && d.log[..|old(d.log)|] == old(d.log)
  {
    hide Stands, AfterRelease, Scan;
    requested' := requested;
    match x {
      case RowInterrupt(line) =>
        if line < d.numRows && d.depth[line] == 0 { d.RowInterrupt(line); }
      case Timer(board, released, race) =>
        if d.timerPending { TakeTimer(d, board, released, race); }
      case Request =>
        if !requested {
          d.AccessRequest();
          requested' := true;
        }
      case LcdDrives(columns) =>
        if requested && d.pinsShared { d.LcdDrives(columns); }
      case Release(low, enabling, disabling) =>
        if requested && |low| == d.numRows {
          if d.pinsShared {
            TakeRelease(d, low, enabling, disabling);
          } else {
            d.AccessRelease(low, enabling, disabling);
          }
          requested' := false;
        }
    }
  }

  lemma ReleasesOf(d: Driver)
    requires d.Valid() && d.state == ReleasePending
    ensures 0 <= d.releaseDetectCount <= 2
  {
    ReleasesBound(d.log, d.key, d.releaseDetectCount);
  }

  /**
   Every run: row interrupts come when they are enabled, the timer when it is pending, and requests and releases
   alternate. Whatever else is asked for does not happen. Ownership and the history of the reports hold throughout.
   */
  method Run(d: Driver, inputs: seq<Input>) returns (requested: bool)
    requires d.Valid() && !d.held
    modifies d
    ensures d.Valid() && d.held == (requested && d.pinsShared)
    ensures d.Seen() == AfterInputs(d.Configuration(), old(d.Seen()), inputs)
    ensures forall l :: 0 <= l < d.numRows ==> (d.depth[l] == if d.state == Idle && !d.held then 0 else 1)
    ensures d.timerPending <==> d.state != Idle && !d.held
    ensures History(d.log) && |d.log| >= |old(d.log)| && d.log[..|old(d.log)|] == old(d.log)
  {
    hide Stands, Scan, AfterInput;
    requested := false;
    for i := 0 to |inputs|
      invariant d.Valid() && d.held == (requested && d.pinsShared)
      invariant d.Seen() == AfterInputs(d.Configuration(), old(d.Seen()), inputs[..i])
      invariant |d.log| >= |old(d.log)| && d.log[..|old(d.log)|] == old(d.log)
    {
      assert inputs[..i + 1][..i] == inputs[..i];
      requested := Take(d, inputs[i], requested);
    }
    assert inputs[..|inputs|] == inputs;
    LoggedHistory(d.log, d.state, d.key, d.releaseDetectCount);
  }

  lemma LoggedHistory(log: seq<Event>, state: KeyState, key: Key, releases: int)
    requires Stands(log, state, key, releases)
    ensures History(log)
  {
    hide History;
  }

  /**
   A scan of a matrix at rest, in any run: the key it reports is the highest-numbered pressed one of the row, or none,
   if and only if the pins were not lent to the LCD during the scan, or the key in the last column is pressed, or no
   key of the row is.
   */
  method ScanAtRest(d: Driver, board: Board, ghost pressed: set<Key>, race: Race) returns (event: Event)
    requires d.Valid() && d.timerPending && d.state == IdentifyButton && Rests(board, pressed, d.gpio)
    modifies d
    ensures d.Valid() && d.log == old(d.log) + [event]
    ensures (event == match Highest(pressed, old(d.gpio), d.numCols)
                      case Some(c) => KeyDown(Key(old(d.gpio), c))
                      case None => ScanFailed)
       <==> !old(d.lent) || Key(old(d.gpio), d.numCols - 1) in pressed
            || Highest(pressed, old(d.gpio), d.numCols) == None
  {
    hide Stands, Scan, Rests, Highest;
    ScanIsRight(board, pressed, d.gpio, d.numCols, d.lent);
    d.TimerExpires(board, false, race);
    event := d.log[|d.log| - 1];
  }

  /**
   A key that is down when an idle driver gets its pins back, and stays down, is not lost: whatever row interrupts come
   meanwhile, the next timer logs the highest pressed key of the row that is found.
   */
  method LostKeypress(d: Driver, low: seq<bool>, enabling: Race, disabling: Race,
                      board: Board, ghost pressed: set<Key>, race: Race)
    requires d.Valid() && d.held && d.state == Idle && |low| == d.numRows && true in low
    requires Rests(board, pressed, 8 + d.ResumedLine(low, enabling, disabling))
    modifies d
    ensures d.Valid() && !d.held
    ensures var row := 8 + old(d.ResumedLine(low, enabling, disabling));
            d.log == old(d.log) + [match Highest(pressed, row, d.numCols)
                                   case Some(c) => KeyDown(Key(row, c))
                                   case None => ScanFailed]
  {
    hide Stands, Scan, Rests, Highest;
    ghost var row := 8 + d.ResumedLine(low, enabling, disabling);
    d.AccessRelease(low, enabling, disabling);
    assert d.timerPending && d.gpio == row;
    StableScan(board, pressed, row, d.numCols);
    d.TimerExpires(board, false, race);
  }

  /** The only key down is that of row 2 in column 1, and no interrupt comes while the pins are handed back. */
  method LostKeypressOfRow2(d: Driver, low: seq<bool>, board: Board)
    requires d.Valid() && d.held && d.state == Idle && d.numRows == 4 && d.numCols == 3
    requires low == [false, false, true, false] && Rests(board, {Key(10, 1)}, 10)
    modifies d
    ensures d.log == old(d.log) + [KeyDown(Key(10, 1))]
  {
    hide Stands, Scan, Rests;
    var quiet := Race(4, 0);
    assert low[2];
    LowestIs(low, 2);
    assert d.ResumedLine(low, quiet, quiet) == 2;
    assert Highest({Key(10, 1)}, 10, 3) == Some(1);
    LostKeypress(d, low, quiet, quiet, board, {Key(10, 1)}, quiet);
  }

  /** The LCD uses the pins while a scan waits for its timer. */
  method LendPins(d: Driver)
    requires d.Valid() && d.state == IdentifyButton && !d.held && d.pinsShared && d.numRows == 4
    modifies d
    ensures d.Valid() && d.state == IdentifyButton && !d.held && d.lent && d.log == old(d.log) && d.gpio == old(d.gpio)
  {
    hide Stands;
    d.AccessRequest();
    d.LcdDrives({1});
    d.AccessRelease([true, false, false, false], Race(4, 0), Race(4, 0));
  }

  /** Only the key of row 0 in column 0 is pressed, and the LCD uses the pins while the scan waits for its timer. */
  method LentScanReportsWrongKey(board: Board) returns (log: seq<Event>)
    requires Rests(board, {Key(8, 0)}, 8)
    ensures log == [KeyDown(Key(8, 2))]
  {
    hide Stands, Scan, Rests;
    var d := new Driver(4, 3, true);
    var quiet := Race(4, 0);
    d.RowInterrupt(0);
    LendPins(d);
    LentScan(board, {Key(8, 0)}, 8, 3);
    assert Highest({Key(8, 0)}, 8, 3) == Some(0);
    d.TimerExpires(board, false, quiet);
    log := d.log;
  }

  /** A key of row 0 in column 2 goes down. */
  method PressKey(d: Driver)
    requires d.Valid() && d.state == Idle && !d.held && d.numCols == 3
    modifies d
    ensures d.Valid() && d.state == ReleasePending && !d.held && d.releaseDetectCount == 0
    ensures d.key == Key(FIRST_ROW, 2) && d.log == old(d.log) + [KeyDown(d.key)]
  {
    hide Stands;
    var board: Board, quiet := (k, low, row) => 2 in low && row == FIRST_ROW, Race(4, 0);
    d.RowInterrupt(0);
    d.TimerExpires(board, false, quiet);
  }

  /** It is released. */
  method ReleaseKey(d: Driver)
    requires d.Valid() && d.state == ReleasePending && !d.held && d.releaseDetectCount == 0 && d.numCols == 3
    modifies d
    ensures d.Valid() && d.state == Idle && !d.held && d.key == old(d.key)
    ensures d.log == old(d.log) + [Sample(true), Sample(true), Sample(true), KeyUp(d.key)]
  {
    hide Stands, Scan;
    var board: Board, quiet := (k, low, row) => false, Race(4, 0);
    d.TimerExpires(board, true, quiet);
    d.TimerExpires(board, true, quiet);
    d.TimerExpires(board, true, quiet);
    d.TimerExpires(board, true, quiet);
  }

  /** A contact bounce raises the interrupt and is gone before the columns are scanned. */
  method BounceOnce(d: Driver)
    requires d.Valid() && d.state == Idle && !d.held && d.numCols == 3
    modifies d
    ensures d.log == old(d.log) + [ScanFailed, KeyUp(old(d.key))]
  {
    hide Stands;
    var board: Board, quiet := (k, low, row) => false, Race(4, 0);
    d.RowInterrupt(0);
    StableScan(board, {}, FIRST_ROW, 3);
    d.TimerExpires(board, true, quiet);
    d.TimerExpires(board, true, quiet);
  }

  /** A key-down is not always followed by exactly one key-up: a later bounce reports the same key up once more. */
  method SpuriousKeyUp() returns (log: seq<Event>)
    ensures var k := Key(FIRST_ROW, 2);
            log == [KeyDown(k), Sample(true), Sample(true), Sample(true), KeyUp(k), ScanFailed, KeyUp(k)]
  {
    var d := new Driver(4, 3, true);
    PressKey(d);
    ReleaseKey(d);
    BounceOnce(d);
    log := d.log;
  }

  lemma ReleasesBound(log: seq<Event>, key: Key, releases: int)
    requires Stands(log, ReleasePending, key, releases)
    ensures releases <= 2
  {
    hide History, Released, SinceDown, Ups, Failures, LastKey;
  }

  lemma IdleOrScanning(log: seq<Event>, key: Key, releases: int)
    ensures Stands(log, Idle, key, releases) == Stands(log, IdentifyButton, key, releases)
  {
  }
}
