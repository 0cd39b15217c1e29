/**
The receiving half of kernel/linux_bast/reciva/reciva_uart.c: received bytes go into a ring buffer, and every
carriage return hands the line before it to the registered driver.
 */
module UartRx {
  import opened Bits
  import opened Ring

  const CR: byte := 13

  // ---------------------------------------------------------------- lines

  /** The complete lines of a stream, without their carriage returns. */
  function Lines(s: seq<byte>): seq<seq<byte>> {
    if s == [] then []
    else
      var t := s[..|s| - 1];
      if s[|s| - 1] == CR then Lines(t) + [Partial(t)] else Lines(t)
  }

  /** What has arrived since the last carriage return. */
  function Partial(s: seq<byte>): seq<byte> {
    if s == [] then []
    else
      var t := s[..|s| - 1];
      if s[|s| - 1] == CR then [] else Partial(t) + [s[|s| - 1]]
  }

  // ---------------------------------------------------------------- the receiver as a function

  /** The ring and what has been handed to the driver. */
  datatype State = State(buf: seq<byte>, rd: nat, wr: nat, delivered: seq<seq<byte>>)

  ghost predicate WellFormed(s: State) {
    |s.buf| == BUF_SIZE && s.rd < BUF_SIZE && s.wr < BUF_SIZE
  }

  /** The bytes the copy loop of send_msg_to_rx_driver takes: up to a carriage return or the write index. */
  function Taken(buf: seq<byte>, rd: nat, wr: nat): (t: seq<byte>)
    requires |buf| == BUF_SIZE && rd < BUF_SIZE && wr < BUF_SIZE
    ensures |t| <= Count(rd, wr)
    decreases Count(rd, wr)
  {
    if buf[rd] == CR || rd == wr then [] else [buf[rd]] + Taken(buf, Next(rd), wr)
  }

  /** Where that loop stops. */
  function Stop(buf: seq<byte>, rd: nat, wr: nat): (i: nat)
    requires |buf| == BUF_SIZE && rd < BUF_SIZE && wr < BUF_SIZE
    ensures i < BUF_SIZE
    decreases Count(rd, wr)
  {
    if buf[rd] == CR || rd == wr then rd else Stop(buf, Next(rd), wr)
  }

  /** send_msg_to_rx_driver. */
  function SendMessage(s: State): (s': State)
    requires WellFormed(s)
    ensures WellFormed(s')
  {
    var i := Stop(s.buf, s.rd, s.wr);
    s.(rd := if s.buf[i] == CR then Next(i) else i, delivered := s.delivered + [Taken(s.buf, s.rd, s.wr)])
  }

  /** process_uart_rx_data with a driver registered. */
  function Process(s: State, data: byte): (s': State)
    requires WellFormed(s)
    ensures WellFormed(s')
  {
    var s1 := s.(buf := s.buf[s.wr := data], wr := Next(s.wr));
    if data == CR then SendMessage(s1) else s1
  }

  function Run(s: State, stream: seq<byte>): (s': State)
    requires WellFormed(s)
    ensures WellFormed(s')
  {
    if stream == [] then s else Process(Run(s, stream[..|stream| - 1]), stream[|stream| - 1])
  }

  // ---------------------------------------------------------------- the methods

  class Receiver {
    const buf: array<byte>
    var rdIndex: nat
    var wrIndex: nat
    /** What the driver has been given. */
    ghost var delivered: seq<seq<byte>>

    ghost predicate Valid()
      reads this
    {
      buf.Length == BUF_SIZE && rdIndex < BUF_SIZE && wrIndex < BUF_SIZE
    }

    ghost function Abs(): (s: State)
      reads this, buf
      requires Valid()
      ensures WellFormed(s)
    {
      State(buf[..], rdIndex, wrIndex, delivered)
    }

    constructor ()
      ensures Valid() && rdIndex == wrIndex && delivered == [] && fresh(buf)
    {
      buf := new byte[BUF_SIZE];
      rdIndex, wrIndex := 0, 0;
      delivered := [];
    }

    /** The copy loop of send_msg_to_rx_driver. */
    method TakeLine() returns (bytes: seq<byte>)
      requires Valid()
      modifies this`rdIndex
      ensures Valid() && bytes == Taken(buf[..], old(rdIndex), wrIndex)
      ensures rdIndex == Stop(buf[..], old(rdIndex), wrIndex)
    {
      bytes := [];
      while buf[rdIndex] != CR && rdIndex != wrIndex
        invariant Valid()
        invariant bytes + Taken(buf[..], rdIndex, wrIndex) == Taken(buf[..], old(rdIndex), wrIndex)
        invariant Stop(buf[..], rdIndex, wrIndex) == Stop(buf[..], old(rdIndex), wrIndex)
        decreases Count(rdIndex, wrIndex)
      {
        bytes := bytes + [buf[rdIndex]];
        rdIndex := Next(rdIndex);
      }
      assert bytes + [] == bytes;
    }

    /** send_msg_to_rx_driver. */
    method SendMsgToRxDriver() returns (message: seq<byte>)
      requires Valid()
      modifies this`rdIndex, this`delivered
      ensures Valid() && Abs() == SendMessage(old(Abs()))
      ensures delivered == old(delivered) + [message]
    {
      hide Taken, Stop;
      message := TakeLine();
      if buf[rdIndex] == CR {
        rdIndex := Next(rdIndex);
      }
      delivered := delivered + [message];
    }

    /** process_uart_rx_data: the line, when the byte completes one. */
    method ProcessUartRxData(data: byte) returns (message: seq<byte>, complete: bool)
      requires Valid()
      modifies this, buf
      ensures Valid() && Abs() == Process(old(Abs()), data)
      ensures complete == (data == '\r' as int)
      ensures delivered == if complete then old(delivered) + [message] else old(delivered)
    {
      hide Taken, Stop;
      message := [];
      complete := data == CR;
      ghost var before := buf[..];
      buf[wrIndex] := data;
      assert buf[..] == before[wrIndex := data];
      wrIndex := Next(wrIndex);
      if complete {
        message := SendMsgToRxDriver();
      }
    }
  }

  // ---------------------------------------------------------------- line splitting

  /** Every complete line leaves room in the ring for its carriage return and the slot that is never used. */
  ghost predicate LinesFit(stream: seq<byte>) {
    forall k :: 0 <= k < |Lines(stream)| ==> |Lines(stream)[k]| <= BUF_SIZE - 2
  }

  /** The unread ring is the current partial line, as long as that fits; all complete lines have been delivered. */
  ghost predicate Synced(s: State, before: seq<seq<byte>>, stream: seq<byte>) {
    && WellFormed(s) && s.delivered == before + Lines(stream)
    && Count(s.rd, s.wr) == |Partial(stream)| % BUF_SIZE
    && (|Partial(stream)| < BUF_SIZE ==> Contents(s.buf, s.rd, s.wr) == Partial(stream))
  }

  lemma {:induction false} PartialHasNoCr(stream: seq<byte>)
    ensures forall i :: 0 <= i < |Partial(stream)| ==> Partial(stream)[i] != CR
  {
    if stream != [] { PartialHasNoCr(stream[..|stream| - 1]); }
  }

  /** A ring that holds a line and its carriage return yields the line and ends up empty. */
  lemma {:induction false} TakenLine(buf: seq<byte>, rd: nat, wr: nat, line: seq<byte>)
    requires |buf| == BUF_SIZE && rd < BUF_SIZE && wr < BUF_SIZE && Contents(buf, rd, wr) == line + [CR]
    requires forall i :: 0 <= i < |line| ==> line[i] != CR
    ensures Taken(buf, rd, wr) == line && buf[Stop(buf, rd, wr)] == CR && Next(Stop(buf, rd, wr)) == wr
    decreases |line|
  {
    assert Contents(buf, rd, wr)[0] == buf[rd] && Contents(buf, rd, wr)[1..] == Contents(buf, Next(rd), wr);
    if line == [] {
      assert Contents(buf, Next(rd), wr) == [];
    } else {
      assert (line + [CR])[1..] == line[1..] + [CR];
      TakenLine(buf, Next(rd), wr, line[1..]);
    }
  }

  lemma LinesSnoc(stream: seq<byte>, c: byte)
    ensures Lines(stream + [c]) == if c == CR then Lines(stream) + [Partial(stream)] else Lines(stream)
    ensures Partial(stream + [c]) == if c == CR then [] else Partial(stream) + [c]
  {
    assert (stream + [c])[..|stream|] == stream;
  }

  lemma SyncedChar(s: State, before: seq<seq<byte>>, stream: seq<byte>, c: byte)
    requires Synced(s, before, stream) && c != CR
    ensures Synced(Process(s, c), before, stream + [c])
  {
    hide Contents, Taken, Stop, Lines, Partial;
    LinesSnoc(stream, c);
    if |Partial(stream)| <= BUF_SIZE - 2 {
      Push(s.buf, s.rd, s.wr, c);
    }
  }

  lemma SyncedCr(s: State, before: seq<seq<byte>>, stream: seq<byte>)
    requires Synced(s, before, stream) && |Partial(stream)| <= BUF_SIZE - 2
    ensures Synced(Process(s, CR), before, stream + [CR])
  {
    hide Contents, Taken, Stop, Lines, Partial;
    LinesSnoc(stream, CR);
    Push(s.buf, s.rd, s.wr, CR);
    PartialHasNoCr(stream);
    var s1 := s.(buf := s.buf[s.wr := CR], wr := Next(s.wr));
    TakenLine(s1.buf, s1.rd, s1.wr, Partial(stream));
    EmptyContents(s1.buf, s1.wr);
    assert before + Lines(stream) + [Partial(stream)] == before + (Lines(stream) + [Partial(stream)]);
  }

  lemma EmptyContents(buf: seq<byte>, i: nat)
    requires |buf| == BUF_SIZE && i < BUF_SIZE
    ensures Contents(buf, i, i) == []
  {
  }

  /** A carriage return that ends a line too long for the ring delivers something else. */
  lemma LongLineLost(s: State, before: seq<seq<byte>>, stream: seq<byte>)
    requires Synced(s, before, stream) && |Partial(stream)| > BUF_SIZE - 2
    ensures Process(s, CR).delivered[|s.delivered|] != Partial(stream)
  {
    hide Contents, Taken, Stop, Lines, Partial;
    var s1 := s.(buf := s.buf[s.wr := CR], wr := Next(s.wr));
    assert |Taken(s1.buf, s1.rd, s1.wr)| <= Count(s1.rd, s1.wr);
  }

  /** Every carriage return delivers one message, and deliveries are never taken back. */
  lemma {:induction false} DeliveriesGrow(s: State, stream: seq<byte>)
    requires WellFormed(s)
    ensures s.delivered <= Run(s, stream).delivered
    ensures |Run(s, stream).delivered| == |s.delivered| + |Lines(stream)|
    decreases |stream|
  {
    hide Taken, Stop, Partial;
    if stream != [] { DeliveriesGrow(s, stream[..|stream| - 1]); }
  }

  /**
   * Line splitting: starting in step, the messages delivered are the lines of the stream, each once and in order,
   * exactly when every complete line has at most 1022 characters.
   */
  lemma {:induction false} DeliversLines(s: State, stream: seq<byte>)
    requires WellFormed(s) && s.rd == s.wr
    ensures (Run(s, stream).delivered == s.delivered + Lines(stream)) == LinesFit(stream)
    ensures LinesFit(stream) ==> Synced(Run(s, stream), s.delivered, stream)
    decreases |stream|
  {
    hide Process, Taken, Stop, Partial;
    if stream == [] {
      EmptyStream(s);
    } else {
      var t, c := stream[..|stream| - 1], stream[|stream| - 1];
      assert stream == t + [c];
      DeliversLines(s, t);
      LinesSnoc(t, c);
      DeliveriesGrow(s, t);
      DeliveriesGrow(s, stream);
      OneMore(Run(s, t), c);
      if LinesFit(t) {
        if c == CR && |Partial(t)| > BUF_SIZE - 2 {
          LongLineLost(Run(s, t), s.delivered, t);
          assert Lines(stream)[|Lines(t)|] == Partial(t);
        } else if c == CR {
          SyncedCr(Run(s, t), s.delivered, t);
        } else {
          SyncedChar(Run(s, t), s.delivered, t, c);
        }
      } else {
        var k :| 0 <= k < |Lines(t)| && |Lines(t)[k]| > BUF_SIZE - 2;
        assert Lines(stream)[k] == Lines(t)[k];
        assert Lines(t) <= Lines(stream);
        assert s.delivered + Lines(t) == (s.delivered + Lines(stream))[..|s.delivered| + |Lines(t)|];
      }
    }
  }

  /** No string that is delivered is as long as the ring. */
  lemma {:induction false} DeliveriesAreShort(s: State, stream: seq<byte>, k: nat)
    requires WellFormed(s) && |s.delivered| <= k < |Run(s, stream).delivered|
    ensures |Run(s, stream).delivered[k]| < BUF_SIZE
    decreases |stream|
  {
    hide Taken, Stop, Contents;
    if stream != [] {
      var t := Run(s, stream[..|stream| - 1]);
      DeliveriesGrow(s, stream[..|stream| - 1]);
      if k < |t.delivered| { DeliveriesAreShort(s, stream[..|stream| - 1], k); }
    }
  }

  lemma EmptyStream(s: State)
    requires WellFormed(s) && s.rd == s.wr
    ensures Lines([]) == [] && Synced(s, s.delivered, []) && Run(s, []) == s
  {
    assert s.delivered + [] == s.delivered;
  }

  lemma OneMore(s: State, c: byte)
    requires WellFormed(s)
    ensures s.delivered <= Process(s, c).delivered
    ensures |Process(s, c).delivered| == |s.delivered| + BitValue(c == CR)
  {
  }
}
