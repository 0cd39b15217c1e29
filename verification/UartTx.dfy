/**
The bit-banged transmitter of kernel/linux_bast/reciva/reciva_uart.c: a ring buffer that a writer fills and a
timer interrupt empties bit by bit. It refines a first-in first-out line of 8N1 frames.
 */
module UartTx {
  import opened Bits
  import opened Ring

  const FRAME_BITS := 10

  // ---------------------------------------------------------------- the frames on the line

  function DataBits(b: byte): (l: seq<bool>)
    ensures |l| == 8
  {
    seq(8, i requires 0 <= i < 8 => Bit(b, i))
  }

  /** Start bit low, eight data bits least significant first, stop bit high. */
  function Frame(b: byte): (l: seq<bool>)
    ensures |l| == FRAME_BITS
  {
    [false] + DataBits(b) + [true]
  }

  function Frames(bytes: seq<byte>): (l: seq<bool>)
    ensures |l| == FRAME_BITS * |bytes|
  {
    if bytes == [] then [] else Frames(bytes[..|bytes| - 1]) + Frame(bytes[|bytes| - 1])
  }

  lemma FramesSnoc(bytes: seq<byte>, b: byte)
    ensures Frames(bytes + [b]) == Frames(bytes) + Frame(b)
  {
    assert (bytes + [b])[..|bytes|] == bytes;
  }

  lemma FrameLevels(b: byte, i: nat)
    requires i < 8
    ensures Frame(b)[0] == false && Frame(b)[1 + i] == Bit(b, i) && Frame(b)[9] == true
  {
  }

  /** Level j of frame k. */
  lemma {:induction false} FrameAt(bytes: seq<byte>, k: nat, j: nat)
    requires k < |bytes| && j < FRAME_BITS
    ensures FRAME_BITS * k + j < |Frames(bytes)|
    ensures Frames(bytes)[FRAME_BITS * k + j] == Frame(bytes[k])[j]
  {
    if k < |bytes| - 1 {
      FrameAt(bytes[..|bytes| - 1], k, j);
    }
  }

  lemma {:induction false} FramesAppend(a: seq<byte>, b: seq<byte>)
    ensures Frames(a + b) == Frames(a) + Frames(b)
    decreases |b|
  {
    hide Frame;
    if b == [] {
      assert a + b == a;
    } else {
      var c, z := b[..|b| - 1], b[|b| - 1];
      assert a + b == a + c + [z];
      FramesAppend(a, c);
      FramesSnoc(a + c, z);
    }
  }

  // ---------------------------------------------------------------- reading frames off a line

  /** The byte of the ten levels of a frame. */
  function FrameByte(l: seq<bool>): byte
    requires |l| == FRAME_BITS
  {
    PowersOfTwo();
    FromBits((i: nat) => i < 8 && l[1 + i], 8)
  }

  /** A hardware receiver: it skips the idle high line, and drops a frame whose stop bit is low. */
  function Deframe(l: seq<bool>): seq<byte> {
    if l == [] then []
    else if l[0] then Deframe(l[1..])
    else if |l| < FRAME_BITS then []
    else (if l[9] then [FrameByte(l[..FRAME_BITS])] else []) + Deframe(l[FRAME_BITS..])
  }

  lemma FrameByteOf(b: byte)
    ensures FrameByte(Frame(b)) == b
  {
    hide Bit;
    PowersOfTwo();
    var l := Frame(b);
    var f := (i: nat) => i < 8 && l[1 + i];
    forall i: nat | i < 8
      ensures Bit(FrameByte(l), i) == Bit(b, i)
    {
      BitFromBits(f, 8, i);
      assert f(i) == Bit(b, i);
    }
    Extensionality(FrameByte(l), b, 8);
  }

  /** The receiver reads back exactly the framed bytes. */
  lemma {:induction false} DeframeFrames(bytes: seq<byte>)
    ensures Deframe(Frames(bytes)) == bytes
  {
    if bytes != [] {
      var b, rest := bytes[0], bytes[1..];
      assert bytes == [b] + rest;
      FramesAppend([b], rest);
      assert Frames([b]) == Frame(b) by { FramesSnoc([], b); assert [] + [b] == [b]; }
      var l := Frames(bytes);
      assert l[..FRAME_BITS] == Frame(b) && l[FRAME_BITS..] == Frames(rest);
      assert l[0] == Frame(b)[0] && l[9] == Frame(b)[9];
      FrameByteOf(b);
      DeframeFrames(rest);
    }
  }

  lemma Extends(l: seq<bool>, whole: seq<bool>)
    requires l <= whole && |l| < |whole|
    ensures l + [whole[|l|]] <= whole
  {
  }

  // ---------------------------------------------------------------- the transmitter

  // ---------------------------------------------------------------- how much a write can queue

  /** The levels still to come on the line, and whether the timer runs. */
  datatype Load = Load(pending: int, running: bool)

  /** The load after k timer interrupts, none of which comes once the timer has stopped. */
  function Ticked(l: Load, k: nat): Load {
    if !l.running then l else if k < l.pending then Load(l.pending - k, true) else Load(0, false)
  }

  /** The ring has a free slot: a byte is in the ring until the last level of its frame is out. */
  predicate HasRoom(l: Load) {
    (l.pending + FRAME_BITS - 1) / FRAME_BITS < BUF_SIZE - 1
  }

  /** How many bytes a write accepts when interrupts[i] timer interrupts come before byte i. */
  function Amount(l: Load, interrupts: seq<nat>): (n: nat)
    ensures n <= |interrupts|
    decreases |interrupts|
  {
    if interrupts == [] then 0
    else
      var t := Ticked(l, interrupts[0]);
      if HasRoom(t) then 1 + Amount(t.(pending := t.pending + FRAME_BITS), interrupts[1..]) else 0
  }

  /** The load after its loop. */
  function Loaded(l: Load, interrupts: seq<nat>): Load
    decreases |interrupts|
  {
    if interrupts == [] then l
    else
      var t := Ticked(l, interrupts[0]);
      if HasRoom(t) then Loaded(t.(pending := t.pending + FRAME_BITS), interrupts[1..]) else t
  }

  lemma RoundLoad(l: Load, interrupts: seq<nat>, n: nat)
    requires n < |interrupts|
    ensures var t := Ticked(l, interrupts[n]);
            var t' := t.(pending := t.pending + FRAME_BITS);
            && Amount(l, interrupts[n..]) == (if HasRoom(t) then 1 + Amount(t', interrupts[n + 1..]) else 0)
            && Loaded(l, interrupts[n..]) == if HasRoom(t) then Loaded(t', interrupts[n + 1..]) else t
  {
    hide Ticked, HasRoom;
    assert interrupts[n..][1..] == interrupts[n + 1..];
  }

  lemma NothingLeft(l: Load, interrupts: seq<nat>)
    ensures Amount(l, interrupts[|interrupts|..]) == 0 && Loaded(l, interrupts[|interrupts|..]) == l
  {
  }

  /** The load after the write, which starts the timer if it has accepted anything. */
  function Written(l: Load, interrupts: seq<nat>): Load {
    var t := Loaded(l, interrupts);
    if Amount(l, interrupts) > 0 then t.(running := true) else t
  }

  /** A write accepts at least what there is room for, and no more when no level goes out meanwhile. */
  lemma {:induction false} AmountBounds(l: Load, interrupts: seq<nat>)
    requires l.running ==> l.pending > 0
    ensures var room := BUF_SIZE - 1 - (l.pending + FRAME_BITS - 1) / FRAME_BITS;
            && Amount(l, interrupts) >= Min(|interrupts|, room)
            && (!l.running || (forall i :: 0 <= i < |interrupts| ==> interrupts[i] == 0) ==>
                  Amount(l, interrupts) == if room < 0 then 0 else Min(|interrupts|, room))
    decreases |interrupts|
  {
    if interrupts != [] {
      var t := Ticked(l, interrupts[0]);
      AmountBounds(t.(pending := t.pending + FRAME_BITS), interrupts[1..]);
    }
  }

  /** Without interrupts the load grows by the frames of what is accepted. */
  lemma {:induction false} LoadedQuietly(l: Load, interrupts: seq<nat>)
    requires l.running ==> l.pending > 0
    requires forall i :: 0 <= i < |interrupts| ==> interrupts[i] == 0
    ensures Loaded(l, interrupts) == l.(pending := l.pending + FRAME_BITS * Amount(l, interrupts))
    decreases |interrupts|
  {
    if interrupts != [] {
      assert Ticked(l, interrupts[0]) == l;
      LoadedQuietly(l.(pending := l.pending + FRAME_BITS), interrupts[1..]);
    }
  }

  // ---------------------------------------------------------------- the transmitter

  datatype NextBit = StopBit | StartBit | DataBit

  class Transmitter {
    const buf: array<byte>
    var rdIndex: nat
    var wrIndex: nat
    var nextBit: NextBit
    var bitOffset: nat
    var timerRunning: bool
    /** Every level the TXD pin has been set to. */
    var line: seq<bool>
    /** Every byte the ring has accepted. */
    ghost var accepted: seq<byte>

    /** The bytes completely sent. */
    ghost function Sent(): nat
      reads this
    {
      |line| / FRAME_BITS
    }

    /** The position in the current frame. */
    ghost function Phase(): nat
      reads this
    {
      match nextBit
      case StartBit => 0
      case DataBit => 1 + bitOffset
      case StopBit => 9
    }

    /** The bytes in the ring. */
    ghost function Queue(): seq<byte>
      reads this, buf
      requires buf.Length == BUF_SIZE && rdIndex < BUF_SIZE && wrIndex < BUF_SIZE
    {
      Contents(buf[..], rdIndex, wrIndex)
    }

    /** The line has carried a prefix of the frames of the accepted bytes; the ring holds what is left. */
    ghost predicate LineValid()
      reads this, buf
    {
      && buf.Length == BUF_SIZE && rdIndex < BUF_SIZE && wrIndex < BUF_SIZE && bitOffset < 8
      && Sent() <= |accepted| && Queue() == accepted[Sent()..]
      && |line| % FRAME_BITS == Phase()
      && (nextBit != StartBit ==> rdIndex != wrIndex)
      && line <= Frames(accepted)
    }

    /** In addition, the timer runs only while there is something to send. */
    ghost predicate Valid()
      reads this, buf
    {
      LineValid() && (timerRunning ==> rdIndex != wrIndex)
    }

    /** A start bit has gone out ahead of its byte: no byte is left, and the timer has stopped. */
    ghost predicate Early()
      reads this, buf
    {
      && buf.Length == BUF_SIZE && rdIndex == wrIndex < BUF_SIZE && nextBit == DataBit && bitOffset == 0
      && line == Frames(accepted) + [false] && !timerRunning
    }

    constructor ()
      ensures Valid() && fresh(buf) && accepted == [] && line == [] && !timerRunning && nextBit == StartBit
      ensures rdIndex == wrIndex == bitOffset == 0
    {
      buf := new byte[BUF_SIZE];
      rdIndex, wrIndex, nextBit, bitOffset, timerRunning := 0, 0, StartBit, 0, false;
      accepted, line := [], [];
    }

    /** One round of the loop of reciva_uart_write_internal; an early start bit becomes that of the new byte. */
    method Append(b: byte)
      requires (Valid() || Early()) && Next(wrIndex) != rdIndex
      modifies this`wrIndex, this`accepted, buf
      ensures Valid() && accepted == old(accepted) + [b] && wrIndex == Next(old(wrIndex)) && rdIndex != wrIndex
    {
      hide Frames, Contents;
      FramesSnoc(accepted, b);
      Push(buf[..], rdIndex, wrIndex, b);
      if Early() { EarlyIsFirst(b); }
      ghost var before := buf[..];
      buf[wrIndex] := b;
      assert buf[..] == before[wrIndex := b];
      wrIndex := Next(wrIndex);
      accepted := accepted + [b];
    }

    /** The early start bit is the first level of the next byte's frame. */
    lemma EarlyIsFirst(b: byte)
      requires Early()
      ensures Queue() == [] && Sent() == |accepted| && |line| % FRAME_BITS == 1
      ensures line <= Frames(accepted) + Frame(b)
    {
      hide Frames;
    }

    /** kick_uart_send_ticker: right only while there is something to send. */
    method Kick()
      requires Valid()
      modifies this`timerRunning
      ensures timerRunning && LineValid() && (Valid() <==> rdIndex != wrIndex)
    {
      hide Frames, Contents;
      if !timerRunning {
        timerRunning := true;
      }
    }

    /** The level that clock_bit_out sets. */
    ghost function LevelNow(): bool
      requires buf.Length == BUF_SIZE && rdIndex < BUF_SIZE
      reads this, buf
    {
      match nextBit
      case StartBit => false
      case DataBit => Bit(buf[rdIndex], bitOffset)
      case StopBit => true
    }

    /** It is the next level of the frames of the accepted bytes. */
    lemma NextLevel()
      requires LineValid() && rdIndex != wrIndex
      ensures line + [LevelNow()] <= Frames(accepted)
      ensures Contents(buf[..], Next(rdIndex), wrIndex) == accepted[Sent() + 1..]
    {
      hide Frames, Frame, DataBits;
      var sent := Sent();
      assert |line| == FRAME_BITS * sent + Phase() && accepted[sent..][0] == buf[rdIndex];
      assert accepted[sent..][1..] == accepted[sent + 1..];
      FrameAt(accepted, sent, Phase());
      FrameLevels(buf[rdIndex], bitOffset);
      Extends(line, Frames(accepted));
    }

    /** clock_bit_out: while there is a byte to send, the next level of the frames of the accepted bytes goes out. */
    method ClockBitOut()
      requires buf.Length == BUF_SIZE && rdIndex < BUF_SIZE && bitOffset < 8
      modifies this`rdIndex, this`nextBit, this`bitOffset, this`line
      ensures line == old(line) + [old(LevelNow())]
      ensures old(LineValid() && rdIndex != wrIndex) ==> LineValid()
      ensures old(nextBit) == StartBit ==> nextBit == DataBit && bitOffset == 0 && rdIndex == old(rdIndex)
    {
      hide Frames, Contents, Bit;
      if LineValid() && rdIndex != wrIndex { NextLevel(); }
      match nextBit
      case StartBit =>
        line := line + [false];
        nextBit := DataBit;
        bitOffset := 0;
      case DataBit =>
        line := line + [Bit(buf[rdIndex], bitOffset)];
        bitOffset := bitOffset + 1;
        if bitOffset == 8 {
          bitOffset := 0;
          nextBit := StopBit;
        }
      case StopBit =>
        line := line + [true];
        nextBit := StartBit;
        rdIndex := Next(rdIndex);
    }

    /** The levels still to come on the line. */
    ghost function Pending(): int
      reads this
    {
      FRAME_BITS * |accepted| - |line|
    }

    /** The ring is empty exactly when every level of every accepted byte has been on the line. */
    lemma PendingLevels()
      requires LineValid()
      ensures Pending() >= 0 && (rdIndex == wrIndex <==> Pending() == 0)
    {
      hide Frames;
      assert |line| == FRAME_BITS * Sent() + Phase();
    }

    /** uart_tx_interrupt: one level goes out, and the timer stays on exactly while something is left. */
    method Tick()
      requires Valid() && timerRunning
      modifies this`rdIndex, this`nextBit, this`bitOffset, this`line, this`timerRunning
      ensures Valid() && old(line) <= line
      ensures Pending() == old(Pending()) - 1 && timerRunning == (Pending() > 0)
    {
      hide Frames, Contents;
      ClockBitOut();
      PendingLevels();
      timerRunning := rdIndex != wrIndex;
    }

    /** What the future of the line depends on. */
    ghost function CurrentLoad(): Load
      reads this
    {
      Load(Pending(), timerRunning)
    }

    /** The bytes in the ring are those whose last level is still to come. */
    lemma RingLoad()
      requires Valid() || Early()
      ensures Count(rdIndex, wrIndex) == (Pending() + FRAME_BITS - 1) / FRAME_BITS
      ensures HasRoom(CurrentLoad()) <==> Next(wrIndex) != rdIndex
      ensures Early() ==> Pending() == -1
    {
      hide Frames;
      if Valid() {
        assert |line| == FRAME_BITS * Sent() + Phase() && Count(rdIndex, wrIndex) == |Queue()| == |accepted| - Sent();
      }
    }

    /** Up to k timer interrupts; none arrive once the timer has been stopped. */
    method Ticks(k: nat)
      requires Valid()
      modifies this`rdIndex, this`nextBit, this`bitOffset, this`line, this`timerRunning
      ensures CurrentLoad() == Ticked(old(CurrentLoad()), k)
      ensures Valid() && old(line) <= line && Count(rdIndex, wrIndex) <= old(Count(rdIndex, wrIndex))
      ensures old(timerRunning) ==>
                && Pending() == (if k < old(Pending()) then old(Pending()) - k else 0)
                && timerRunning == (Pending() > 0)
      ensures !old(timerRunning) ==> line == old(line) && !timerRunning
    {
      hide Frames, Contents;
      PendingLevels();
      var n := 0;
      while n < k && timerRunning
        invariant n <= k && Valid() && old(line) <= line
        invariant old(timerRunning) ==> Pending() == old(Pending()) - n >= 0 && timerRunning == (Pending() > 0)
        invariant !old(timerRunning) ==> line == old(line) && !timerRunning
        decreases k - n
      {
        Tick();
        n := n + 1;
      }
      assert |Queue()| == |accepted| - Sent();
    }

    /** A running transmitter left alone sends every accepted byte, in one interrupt per pending level, and stops. */
    method Drain() returns (interrupts: nat)
      requires Valid() && timerRunning
      modifies this`rdIndex, this`nextBit, this`bitOffset, this`line, this`timerRunning
      ensures Valid() && !timerRunning && interrupts == old(Pending())
      ensures line == Frames(accepted) && rdIndex == wrIndex
    {
      hide Contents;
      interrupts := 0;
      PendingLevels();
      while timerRunning
        invariant Valid() && timerRunning == (Pending() > 0) && Pending() >= 0
        invariant interrupts == old(Pending()) - Pending()
        decreases Pending()
      {
        Tick();
        PendingLevels();
        interrupts := interrupts + 1;
      }
      assert |line| == |Frames(accepted)|;
    }

    /** One round of the loop of reciva_uart_write_internal, after k timer interrupts: false when the ring is full. */
    method WriteRound(b: byte, k: nat) returns (ok: bool)
      requires Valid() || Early()
      modifies this, buf
      ensures Valid() && old(line) <= line
      ensures if ok then rdIndex != wrIndex else Count(rdIndex, wrIndex) == BUF_SIZE - 1
      ensures accepted == if ok then old(accepted) + [b] else old(accepted)
      ensures var t := Ticked(old(CurrentLoad()), k);
              ok == HasRoom(t) && CurrentLoad() == if ok then t.(pending := t.pending + FRAME_BITS) else t
      ensures !old(timerRunning) ==> line == old(line) && !timerRunning
      ensures k == 0 ==> line == old(line)
    {
      hide Frames, Contents;
      if timerRunning && k > 0 {
        Ticks(k);
      }
      RingLoad();
      ok := Next(wrIndex) != rdIndex;
      if ok {
        Append(b);
      }
    }

    /** The loop of reciva_uart_write_internal. */
    method QueueBytes(data: seq<byte>, interrupts: seq<nat>) returns (amountWritten: nat)
      requires (Valid() || Early()) && |interrupts| == |data|
      modifies this, buf
      ensures Valid() || (data == [] && old(Early()) && Early())
      ensures amountWritten <= |data| && accepted == old(accepted) + data[..amountWritten]
      ensures amountWritten == Amount(old(CurrentLoad()), interrupts)
      ensures CurrentLoad() == Loaded(old(CurrentLoad()), interrupts)
      ensures old(line) <= line && (!old(timerRunning) ==> line == old(line))
      ensures (forall i :: 0 <= i < |data| ==> interrupts[i] == 0) ==> line == old(line)
      ensures rdIndex < BUF_SIZE && wrIndex < BUF_SIZE
      ensures amountWritten < |data| ==> Count(rdIndex, wrIndex) == BUF_SIZE - 1
      ensures 0 < amountWritten == |data| ==> rdIndex != wrIndex
    {
      hide Valid, Early, Frames, Contents, Ticked, HasRoom, Amount, Loaded;
      assert interrupts[0..] == interrupts;
      amountWritten := 0;
      var full := false;
      ghost var load := CurrentLoad();
      Indexes();
      while amountWritten < |data| && !full
        invariant amountWritten <= |data| && rdIndex < BUF_SIZE && wrIndex < BUF_SIZE
        invariant if amountWritten == 0 && !full then unchanged(this) && unchanged(buf) else Valid()
        invariant accepted == old(accepted) + data[..amountWritten]
        invariant old(line) <= line && (!load.running ==> line == old(line) && !timerRunning)
        invariant (forall i :: 0 <= i < |data| ==> interrupts[i] == 0) ==> line == old(line)
        invariant if full then
                    && amountWritten == Amount(load, interrupts) && CurrentLoad() == Loaded(load, interrupts)
                    && Count(rdIndex, wrIndex) == BUF_SIZE - 1
                  else
                    && Amount(load, interrupts) == amountWritten + Amount(CurrentLoad(), interrupts[amountWritten..])
                    && Loaded(load, interrupts) == Loaded(CurrentLoad(), interrupts[amountWritten..])
                    && (amountWritten > 0 ==> rdIndex != wrIndex)
        decreases |data| - amountWritten, !full
      {
        RoundLoad(CurrentLoad(), interrupts, amountWritten);
        var ok := WriteRound(data[amountWritten], interrupts[amountWritten]);
        Indexes();
        if ok {
          assert data[..amountWritten + 1] == data[..amountWritten] + [data[amountWritten]];
          amountWritten := amountWritten + 1;
        } else {
          full := true;
        }
      }
      NothingLeft(CurrentLoad(), interrupts);
    }

    /**
     * reciva_uart_write_internal. Timer interrupts may arrive before every round of the loop, as many as
     * `interrupts` says; the last append and the kick are one step.
     */
    method WriteInternal(data: seq<byte>, interrupts: seq<nat>) returns (amountWritten: nat)
      requires (Valid() || Early()) && |interrupts| == |data|
      modifies this, buf
      ensures Valid() || (data == [] && old(Early()) && Early())
      ensures amountWritten <= |data| && accepted == old(accepted) + data[..amountWritten]
      ensures amountWritten == Amount(old(CurrentLoad()), interrupts)
      ensures CurrentLoad() == Written(old(CurrentLoad()), interrupts)
      ensures old(line) <= line && (!old(timerRunning) ==> line == old(line))
      ensures amountWritten < |data| ==> Count(rdIndex, wrIndex) == BUF_SIZE - 1
      ensures amountWritten > 0 ==> Pending() > 0 && timerRunning
      ensures amountWritten >= Min(|data|, BUF_SIZE - 1 - old(Count(rdIndex, wrIndex)))
      ensures !old(timerRunning) || (forall i :: 0 <= i < |data| ==> interrupts[i] == 0) ==>
                amountWritten == Min(|data|, BUF_SIZE - 1 - old(Count(rdIndex, wrIndex)))
      ensures (forall i :: 0 <= i < |data| ==> interrupts[i] == 0) ==> line == old(line)
    {
      hide LineValid, Early, Frames, Contents, Ticked, HasRoom, Amount, Loaded;
      Indexes();
      RingLoad();
      RunningLoad();
      AmountBounds(CurrentLoad(), interrupts);
      amountWritten := QueueBytes(data, interrupts);
      if amountWritten > 0 {
        Kick();
        PendingLevels();
      }
    }

    /**
     * The end of reciva_uart_write_internal with k timer interrupts between the last append and the kick: the timer
     * ends up running on an empty ring exactly when it was running before and they are enough to drain it.
     */
    method AppendThenKick(b: byte, k: nat)
      requires (Valid() || Early()) && Next(wrIndex) != rdIndex
      modifies this, buf
      ensures LineValid() && timerRunning && accepted == old(accepted) + [b]
      ensures Valid() <==> !old(timerRunning) || k < old(Pending()) + FRAME_BITS
    {
      hide Frames, Contents;
      Append(b);
      PendingLevels();
      Ticks(k);
      PendingLevels();
      Kick();
    }

    /**
     The interrupt of a timer that runs on an empty ring: a start bit goes out ahead of its byte, and no more. The line
     stays low until the next byte is accepted. In the sequence of levels it is that byte's start bit; levels carry no
     time here, and a receiver that samples the line by its own clock sees a break until then.
     */
    method StrayInterrupt()
      requires LineValid() && timerRunning && rdIndex == wrIndex
      modifies this`rdIndex, this`nextBit, this`bitOffset, this`line, this`timerRunning
      ensures Early()
    {
      hide Frames, Contents, Bit;
      PendingLevels();
      assert line == Frames(accepted);
      ClockBitOut();
      timerRunning := rdIndex != wrIndex;
    }

    lemma RunningLoad()
      requires Valid() || Early()
      ensures timerRunning ==> Pending() > 0
    {
      hide Frames;
      if Valid() { PendingLevels(); }
    }

    lemma Indexes()
      requires Valid() || Early()
      ensures rdIndex < BUF_SIZE && wrIndex < BUF_SIZE && buf.Length == BUF_SIZE
    {
    }
  }

  function Min(a: int, b: int): int {
    if a < b then a else b
  }
}
