/**
End to end: the messages written on one side of the serial line become the commands on the other side.
 */
module SerialLink {
  import opened Bits
  import opened Ring
  import opened UartTx
  import opened UartRx
  import opened SerialDriver

  /** The commands the driver makes of a sequence of lines. */
  function CommandsOf(lines: seq<seq<byte>>): seq<seq<byte>> {
    if lines == [] then []
    else
      CommandsOf(lines[..|lines| - 1])
      + match CommandOf(CString(lines[|lines| - 1] + [0]))
        case NoCommand => []
        case Command(data) => [data]
  }

  lemma CommandsSnoc(lines: seq<seq<byte>>, line: seq<byte>)
    ensures CommandsOf(lines + [line])
         == CommandsOf(lines) + match CommandOf(CString(line + [0])) case NoCommand => [] case Command(data) => [data]
  {
    hide CommandOf, CString;
    assert (lines + [line])[..|lines|] == lines;
  }

  method FeedByte(rx: Receiver, data: byte, commands: seq<seq<byte>>) returns (commands': seq<seq<byte>>)
    requires rx.Valid()
    modifies rx, rx.buf
    ensures rx.Valid() && rx.Abs() == Process(old(rx.Abs()), data)
    ensures old(rx.delivered) <= rx.delivered
    ensures forall d0 :: d0 <= old(rx.delivered) && commands == CommandsOf(old(rx.delivered)[|d0|..]) ==>
              commands' == CommandsOf(rx.delivered[|d0|..])
  {
    hide Process, CommandOf, CString, CommandsOf;
    commands' := commands;
    ghost var d := rx.delivered;
    var line, complete := rx.ProcessUartRxData(data);
    if complete {
      var command := OnLine(line);
      if command.Command? {
        commands' := commands + [command.data];
      }
      forall d0 | d0 <= d && commands == CommandsOf(d[|d0|..])
        ensures commands' == CommandsOf(rx.delivered[|d0|..])
      {
        CommandsSnoc(d[|d0|..], line);
        assert rx.delivered[|d0|..] == d[|d0|..] + [line];
      }
    }
  }

  /** Bytes arriving at the receiver one by one, every complete line going to the driver. */
  method Feed(rx: Receiver, stream: seq<byte>) returns (commands: seq<seq<byte>>)
    requires rx.Valid()
    modifies rx, rx.buf
    ensures rx.Valid() && rx.Abs() == Run(old(rx.Abs()), stream)
    ensures old(rx.delivered) <= rx.delivered && commands == CommandsOf(rx.delivered[|old(rx.delivered)|..])
  {
    hide Process, CommandOf, CString;
    commands := [];
    ghost var d0 := rx.delivered;
    for i := 0 to |stream|
      invariant rx.Valid() && rx.Abs() == Run(old(rx.Abs()), stream[..i])
      invariant d0 <= rx.delivered && commands == CommandsOf(rx.delivered[|d0|..])
    {
      assert stream[..i + 1][..i] == stream[..i];
      commands := FeedByte(rx, stream[i], commands);
    }
    assert stream[..|stream|] == stream;
  }

  /** Text without a carriage return ends no line. */
  lemma {:induction false} TextAppended(a: seq<byte>, text: seq<byte>)
    requires CR !in text
    ensures Lines(a + text) == Lines(a) && Partial(a + text) == Partial(a) + text
  {
    hide Lines, Partial;
    if text == [] {
      assert a + text == a && Partial(a) + text == Partial(a);
    } else {
      var t, c := text[..|text| - 1], text[|text| - 1];
      assert a + text == a + t + [c];
      TextAppended(a, t);
      LinesSnoc(a + t, c);
      assert Partial(a) + text == Partial(a) + t + [c];
    }
  }

  /** What the first n bytes of an encoded line add to a stream of complete lines. */
  lemma LineAppended(a: seq<byte>, data: seq<byte>, n: nat)
    requires n <= |Line(data)|
    ensures n < |Line(data)| ==> Lines(a + Line(data)[..n]) == Lines(a)
    ensures n == |Line(data)| ==>
              && Lines(a + Line(data)[..n]) == Lines(a) + [Partial(a) + HexText(data)]
              && Partial(a + Line(data)[..n]) == []
  {
    hide HexText, Lines, Partial;
    HexTextHasNoControls(data);
    assert CR !in HexText(data);
    if n < |Line(data)| {
      assert Line(data)[..n] == HexText(data)[..n];
      TextAppended(a, HexText(data)[..n]);
    } else {
      assert a + Line(data)[..n] == a + HexText(data) + [CR];
      TextAppended(a, HexText(data));
      LinesSnoc(a + HexText(data), CR);
    }
  }

  /** What the receiver makes of the first n bytes of an encoded line. */
  lemma ReceivedLine(s: State, data: seq<byte>, n: nat)
    requires WellFormed(s) && s.rd == s.wr && n <= |Line(data)|
    ensures n < |Line(data)| ==> Run(s, Line(data)[..n]).delivered == s.delivered
    ensures n == |Line(data)| && |data| <= 511 ==>
              var s' := Run(s, Line(data)); s'.delivered == s.delivered + [HexText(data)] && s'.rd == s'.wr
  {
    hide Run, HexText, Lines, Partial;
    EmptyStream(s);
    LineAppended([], data, n);
    assert [] + Line(data)[..n] == Line(data)[..n] && [] + HexText(data) == HexText(data);
    NothingPartial();
    if n == |Line(data)| { assert Line(data)[..n] == Line(data); }
    DeliversLines(s, Line(data)[..n]);
  }

  lemma NothingPartial()
    ensures Partial([]) == [] && Lines([]) == []
  {
  }

  /** An idle transmitter: nothing queued, and the line carries complete frames only. */
  ghost predicate Idle(tx: Transmitter)
    reads tx, tx.buf
  {
    tx.Valid() && !tx.timerRunning && tx.rdIndex == tx.wrIndex
  }

  /** Queues a line on an idle transmitter and lets the line drain; returns the levels that went out. */
  method Transmit(tx: Transmitter, data: seq<byte>) returns (levels: seq<bool>, n: nat)
    requires Idle(tx) && data != []
    modifies tx, tx.buf
    ensures Idle(tx) && n == Min(|data|, BUF_SIZE - 1) && levels == Frames(data[..n])
  {
    hide Frames, Contents, Amount, Written;
    tx.PendingLevels();
    ghost var a0, l0 := tx.accepted, tx.line;
    var before := |tx.line|;
    assert l0 == Frames(a0);
    n := tx.WriteInternal(data, seq(|data|, i => 0));
    FramesAppend(a0, data[..n]);
    var ticks := tx.Drain();
    levels := tx.line[before..];
  }

  lemma NoLines()
    ensures CommandsOf([]) == []
  {
  }

  /** What the receiving side makes of the first n bytes of an encoded line, which a ring can hold. */
  lemma Outcome(s: State, s': State, message: seq<byte>, n: nat)
    requires WellFormed(s) && s.rd == s.wr && n == Min(|Line(message)|, BUF_SIZE - 1)
    requires s' == Run(s, Line(message)[..n])
    ensures s.delivered <= s'.delivered
    ensures CommandsOf(s'.delivered[|s.delivered|..]) == if 1 <= |message| <= 511 then [message] else []
    ensures |message| <= 511 ==> s'.rd == s'.wr
  {
    hide Run, HexText, CommandOf, CString, CommandsOf, Lines, Partial;
    NoLines();
    ReceivedLine(s, message, n);
    DeliveriesGrow(s, Line(message)[..n]);
    LineIsCommand(message);
    assert Line(message)[..|Line(message)|] == Line(message);
    if |message| <= 511 {
      assert s'.delivered[|s.delivered|..] == [HexText(message)];
      CommandsSnoc([], HexText(message));
      assert [] + [HexText(message)] == [HexText(message)];
    } else {
      assert s'.delivered[|s.delivered|..] == [];
    }
  }

  /**
   * write_data on one side, the serial line, and the receiving driver on the other, all of them idle before. A message
   * arrives as exactly one command with exactly its bytes if it has 1 to 511 bytes, and causes no command if not.
   */
  method Deliver(tx: Transmitter, rx: Receiver, message: seq<byte>) returns (commands: seq<seq<byte>>)
    requires Idle(tx) && rx.Valid() && rx.rdIndex == rx.wrIndex && tx.buf != rx.buf
    modifies tx, tx.buf, rx, rx.buf
    ensures Idle(tx) && rx.Valid()
    ensures commands == if 1 <= |message| <= 511 then [message] else []
    ensures |message| <= 511 ==> rx.rdIndex == rx.wrIndex
  {
    hide Frames, Contents, Run, HexText, Deframe, CommandsOf;
    var asciiBuf := EncodeLine(message);
    var levels, n := Transmit(tx, asciiBuf[..]);
    DeframeFrames(Line(message)[..n]);
    ghost var s := rx.Abs();
    commands := Feed(rx, Deframe(levels));
    Outcome(s, rx.Abs(), message, n);
  }

  // ---------------------------------------------------------------- many messages, one behind the other

  /** One write_data: the timer interrupts before each byte of its line is queued, and after the call. */
  datatype Write = Write(message: seq<byte>, interrupts: seq<nat>, after: nat)

  ghost predicate WellTimed(ws: seq<Write>) {
    forall w :: w in ws ==> |w.interrupts| == |Line(w.message)|
  }

  /** The transmitter's load after some writes: what the ring holds depends on nothing else. */
  function LoadAfter(ws: seq<Write>): Load
    decreases |ws|
  {
    if ws == [] then Load(0, false)
    else
      var w := ws[|ws| - 1];
      Ticked(Written(LoadAfter(ws[..|ws| - 1]), w.interrupts), w.after)
  }

  /** The ring has room for the whole line of write k when it is queued. */
  predicate Fits(ws: seq<Write>, k: nat)
    requires k < |ws|
  {
    Amount(LoadAfter(ws[..k]), ws[k].interrupts) == |Line(ws[k].message)|
  }

  predicate AllFit(ws: seq<Write>) {
    forall k :: 0 <= k < |ws| ==> Fits(ws, k)
  }

  /** The part of the line of one more write that is queued. */
  function Accepted(ws: seq<Write>, w: Write): seq<byte>
    requires |w.interrupts| == |Line(w.message)|
  {
    Line(w.message)[..Amount(LoadAfter(ws), w.interrupts)]
  }

  /** What the transmitter accepts: write_data does not look at how much of a line has been queued. */
  function Stream(ws: seq<Write>): seq<byte>
    requires WellTimed(ws)
    decreases |ws|
  {
    if ws == [] then []
    else
      var t, w := ws[..|ws| - 1], ws[|ws| - 1];
      Stream(t) + Accepted(t, w)
  }

  function Messages(ws: seq<Write>): (m: seq<seq<byte>>)
    ensures |m| == |ws|
  {
    seq(|ws|, k requires 0 <= k < |ws| => ws[k].message)
  }

  function Texts(ms: seq<seq<byte>>): (t: seq<seq<byte>>)
    ensures |t| == |ms|
  {
    seq(|ms|, k requires 0 <= k < |ms| => HexText(ms[k]))
  }

  lemma WritesSnoc(t: seq<Write>, w: Write)
    requires WellTimed(t) && |w.interrupts| == |Line(w.message)|
    ensures WellTimed(t + [w])
    ensures LoadAfter(t + [w]) == Ticked(Written(LoadAfter(t), w.interrupts), w.after)
    ensures Stream(t + [w]) == Stream(t) + Accepted(t, w)
  {
    hide Amount, Written, Line, Ticked, LoadAfter, Accepted;
    LoadSnoc(t, w);
    assert (t + [w])[..|t|] == t && (t + [w])[|t|] == w;
    assert WellTimed(t + [w]);
  }

  lemma LoadSnoc(t: seq<Write>, w: Write)
    ensures LoadAfter(t + [w]) == Ticked(Written(LoadAfter(t), w.interrupts), w.after)
  {
    hide Written, Ticked;
    assert (t + [w])[..|t|] == t;
  }

  lemma MessagesSnoc(t: seq<Write>, w: Write)
    ensures Messages(t + [w]) == Messages(t) + [w.message]
    ensures Texts(Messages(t + [w])) == Texts(Messages(t)) + [HexText(w.message)]
  {
    hide HexText;
  }

  lemma FitsSnoc(t: seq<Write>, w: Write)
    ensures AllFit(t + [w]) <==> AllFit(t) && Amount(LoadAfter(t), w.interrupts) == |Line(w.message)|
  {
    hide Amount, LoadAfter, Line;
    var ws := t + [w];
    assert ws[..|t|] == t;
    forall k | 0 <= k < |t|
      ensures Fits(ws, k) == Fits(t, k)
    {
      assert ws[..k] == t[..k];
    }
    assert Fits(ws, |t|) <==> Amount(LoadAfter(t), w.interrupts) == |Line(w.message)|;
  }

  /** The stream has a line for every write that fits, and exactly the texts of the messages when all of them fit. */
  lemma {:induction false} StreamLines(ws: seq<Write>)
    requires WellTimed(ws)
    ensures |Lines(Stream(ws))| <= |ws| && (|Lines(Stream(ws))| == |ws| <==> AllFit(ws))
    ensures AllFit(ws) ==> Lines(Stream(ws)) == Texts(Messages(ws)) && Partial(Stream(ws)) == []
    decreases |ws|
  {
    hide Lines, Partial, Line, HexText, AllFit, LoadAfter, Amount, Stream, Texts, Messages, Written, Ticked;
    if ws == [] {
      NoWrites();
    } else {
      var t, w := ws[..|ws| - 1], ws[|ws| - 1];
      assert ws == t + [w];
      assert w in ws && forall x :: x in t ==> x in ws;
      StreamLines(t);
      WritesSnoc(t, w);
      MessagesSnoc(t, w);
      FitsSnoc(t, w);
      LineAppended(Stream(t), w.message, Amount(LoadAfter(t), w.interrupts));
      assert [] + HexText(w.message) == HexText(w.message);
    }
  }

  lemma NoWrites()
    ensures Stream([]) == [] && Lines([]) == [] && Partial([]) == [] && Texts(Messages([])) == [] && AllFit([])
  {
  }

  /** A line makes at most one command, and a line shorter than the ring one of 1 to 511 bytes. */
  lemma {:induction false} CommandsBound(lines: seq<seq<byte>>)
    requires forall k :: 0 <= k < |lines| ==> |lines[k]| < BUF_SIZE
    ensures |CommandsOf(lines)| <= |lines|
    ensures forall k :: 0 <= k < |CommandsOf(lines)| ==> 1 <= |CommandsOf(lines)[k]| <= 511
  {
    hide CString, HexValue;
    if lines != [] {
      var t, x := lines[..|lines| - 1], lines[|lines| - 1];
      assert forall k :: 0 <= k < |t| ==> t[k] == lines[k];
      CommandsBound(t);
      ShortCommands(x);
    }
  }

  /** The texts of messages make these messages. */
  lemma {:induction false} CommandsOfTexts(ms: seq<seq<byte>>)
    requires forall k :: 0 <= k < |ms| ==> ms[k] != []
    ensures CommandsOf(Texts(ms)) == ms
  {
    hide CommandOf, CString, HexText;
    if ms != [] {
      var t, m := ms[..|ms| - 1], ms[|ms| - 1];
      assert forall k :: 0 <= k < |t| ==> t[k] == ms[k];
      CommandsOfTexts(t);
      assert ms == t + [m] && Texts(ms) == Texts(t) + [HexText(m)];
      CommandsSnoc(Texts(t), HexText(m));
      LineIsCommand(m);
    }
  }

  /** The receiver makes exactly the messages of the stream if and only if each fits the ring and has 1 to 511 bytes. */
  lemma StreamDelivers(s: State, ws: seq<Write>)
    requires WellFormed(s) && s.rd == s.wr && WellTimed(ws)
    ensures s.delivered <= Run(s, Stream(ws)).delivered
    ensures CommandsOf(Run(s, Stream(ws)).delivered[|s.delivered|..]) == Messages(ws)
       <==> AllFit(ws) && forall k :: 0 <= k < |ws| ==> 1 <= |ws[k].message| <= 511
  {
    hide Run, Lines, Partial, HexText, AllFit, Stream, CommandsOf;
    var stream := Stream(ws);
    var s' := Run(s, stream);
    DeliveriesGrow(s, stream);
    StreamLines(ws);
    var lines := s'.delivered[|s.delivered|..];
    forall k | 0 <= k < |lines|
      ensures |lines[k]| < BUF_SIZE
    {
      DeliveriesAreShort(s, stream, |s.delivered| + k);
    }
    CommandsBound(lines);
    if CommandsOf(lines) == Messages(ws) {
      forall k | 0 <= k < |ws|
        ensures 1 <= |ws[k].message| <= 511
      {
        assert ws[k].message == CommandsOf(lines)[k];
      }
    }
    if AllFit(ws) && forall k :: 0 <= k < |ws| ==> 1 <= |ws[k].message| <= 511 {
      DeliversLines(s, stream);
      assert lines == Lines(stream);
      CommandsOfTexts(Messages(ws));
    }
  }

  /** One write_data, and the timer interrupts after it. */
  method WriteOne(tx: Transmitter, w: Write)
    requires tx.Valid() && |w.interrupts| == |Line(w.message)|
    modifies tx, tx.buf
    ensures tx.Valid() && old(tx.line) <= tx.line
    ensures tx.accepted == old(tx.accepted) + Line(w.message)[..Amount(old(tx.CurrentLoad()), w.interrupts)]
    ensures tx.CurrentLoad() == Ticked(Written(old(tx.CurrentLoad()), w.interrupts), w.after)
  {
    hide Frames, Contents, Amount, Written, Ticked, HexText;
    var asciiBuf := EncodeLine(w.message);
    var n := tx.WriteInternal(asciiBuf[..], w.interrupts);
    tx.Ticks(w.after);
  }

  /** Queues line after line, whether or not earlier ones are still being sent. */
  method WriteAll(tx: Transmitter, ws: seq<Write>)
    requires Idle(tx) && WellTimed(ws)
    modifies tx, tx.buf
    ensures tx.Valid() && tx.accepted == old(tx.accepted) + Stream(ws) && tx.CurrentLoad() == LoadAfter(ws)
    ensures old(tx.line) <= tx.line
  {
    hide Frames, Contents, Amount, Written, Ticked, Line, Stream, LoadAfter, Transmitter.LineValid;
    tx.PendingLevels();
    NoLoad();
    assert ws[..0] == [] && tx.accepted + [] == tx.accepted;
    for i := 0 to |ws|
      invariant tx.Valid() && tx.accepted == old(tx.accepted) + Stream(ws[..i]) && old(tx.line) <= tx.line
      invariant tx.CurrentLoad() == LoadAfter(ws[..i])
    {
      assert ws[..i + 1] == ws[..i] + [ws[i]] && ws[i] in ws;
      WritesSnoc(ws[..i], ws[i]);
      WriteOne(tx, ws[i]);
    }
    assert ws[..|ws|] == ws;
  }

  lemma NoLoad()
    ensures LoadAfter([]) == Load(0, false) && Stream([]) == []
  {
  }

  /** The timer runs exactly while there is something to send. */
  lemma {:induction false} LoadRuns(ws: seq<Write>)
    requires WellTimed(ws)
    ensures var l := LoadAfter(ws); l.running == (l.pending > 0) && l.pending >= 0
    decreases |ws|
  {
    hide Amount, Loaded;
    if ws != [] {
      var t, w := ws[..|ws| - 1], ws[|ws| - 1];
      LoadRuns(t);
      WrittenRuns(LoadAfter(t), w.interrupts);
    }
  }

  lemma WrittenRuns(l: Load, interrupts: seq<nat>)
    requires l.running == (l.pending > 0) && l.pending >= 0
    ensures var t := Written(l, interrupts); t.running == (t.pending > 0) && t.pending >= 0
  {
    if interrupts != [] {
      var t := Ticked(l, interrupts[0]);
      if HasRoom(t) { LoadedGrows(t.(pending := t.pending + FRAME_BITS), interrupts[1..]); }
    }
  }

  /** After a byte has been accepted something is left to send at the end of the loop, or it has no more room. */
  lemma {:induction false} LoadedGrows(l: Load, interrupts: seq<nat>)
    requires l.pending >= FRAME_BITS
    ensures Loaded(l, interrupts).pending > 0
    decreases |interrupts|
  {
    if interrupts != [] {
      var t := Ticked(l, interrupts[0]);
      if HasRoom(t) { LoadedGrows(t.(pending := t.pending + FRAME_BITS), interrupts[1..]); }
    }
  }

  /**
   * Any number of messages, each queued while any part of the earlier ones is still being sent, with timer interrupts
   * at any point. In the end the commands on the other side are exactly the messages, once and in order, if and only
   * if the ring had room for each line when it was queued and each message has 1 to 511 bytes.
   */
  method DeliverAll(tx: Transmitter, rx: Receiver, ws: seq<Write>) returns (commands: seq<seq<byte>>)
    requires Idle(tx) && rx.Valid() && rx.rdIndex == rx.wrIndex && tx.buf != rx.buf && WellTimed(ws)
    modifies tx, tx.buf, rx, rx.buf
    ensures Idle(tx) && rx.Valid()
    ensures commands == Messages(ws) <==> AllFit(ws) && forall k :: 0 <= k < |ws| ==> 1 <= |ws[k].message| <= 511
  {
    hide Frames, Contents, Run, Deframe, CommandsOf, Stream, LoadAfter, AllFit, Messages;
    tx.PendingLevels();
    ghost var a0, l0 := tx.accepted, tx.line;
    assert l0 == Frames(a0);
    var before := |tx.line|;
    WriteAll(tx, ws);
    LoadRuns(ws);
    if tx.timerRunning {
      var ticks := tx.Drain();
    }
    tx.PendingLevels();
    FramesAppend(a0, Stream(ws));
    DeframeFrames(Stream(ws));
    assert tx.line[before..] == Frames(Stream(ws));
    StreamDelivers(rx.Abs(), ws);
    commands := Feed(rx, Deframe(tx.line[before..]));
  }

  /** A write that no timer interrupt disturbs. */
  function Undisturbed(message: seq<byte>): Write {
    Write(message, seq(2 * |message| + 1, i => 0), 0)
  }

  /** On an idle transmitter such a line fits, and stays pending. */
  lemma FirstLine(message: seq<byte>)
    requires |message| <= 511
    ensures var w := Undisturbed(message);
            && Amount(Load(0, false), w.interrupts) == |w.interrupts|
            && LoadAfter([w]) == Load(FRAME_BITS * (2 * |message| + 1), true)
  {
    hide Amount, Loaded;
    var w := Undisturbed(message);
    AmountBounds(Load(0, false), w.interrupts);
    LoadedQuietly(Load(0, false), w.interrupts);
    LoadSnoc([], w);
    assert [] + [w] == [w];
  }

  /** A line behind that many bytes fits if there is room for both. */
  lemma SecondLine(message: seq<byte>, ahead: nat)
    requires 0 < ahead < BUF_SIZE
    ensures var w := Undisturbed(message);
            Amount(Load(FRAME_BITS * ahead, true), w.interrupts) == |w.interrupts|
            <==> ahead + |w.interrupts| <= BUF_SIZE - 1
  {
    hide Amount;
    AmountBounds(Load(FRAME_BITS * ahead, true), Undisturbed(message).interrupts);
  }

  /** Two messages written back to back both get through if and only if they have at most 510 bytes together. */
  lemma BackToBack(m0: seq<byte>, m1: seq<byte>)
    requires |m0| <= 511
    ensures var ws := [Undisturbed(m0), Undisturbed(m1)];
            WellTimed(ws) && (AllFit(ws) <==> |m0| + |m1| <= 510)
  {
    hide Amount, LoadAfter, HexText;
    var w0, w1 := Undisturbed(m0), Undisturbed(m1);
    var ws := [w0, w1];
    assert ws[..0] == [] && ws[..1] == [w0];
    NoLoad();
    FirstLine(m0);
    SecondLine(m1, 2 * |m0| + 1);
    assert Fits(ws, 0);
    assert Fits(ws, 1) <==> |m0| + |m1| <= 510;
  }
}
