/**
kernel/linux_bast/reciva/reciva_i2c_master.c against the slave: a command, the read of its reply's length, and the
read of the reply, for every moment at which the application behind the slave may reply.
 */
module I2cLink {
  import opened Bits
  import opened Ring
  import opened I2cSlave

  /** The length that the two-byte read reports: the count of a ring, cut to a char. */
  function ReportedLength(reply: seq<byte>): byte {
    |reply| % 0x100
  }

  lemma LowByteOfCount(n: nat)
    ensures n % BUF_SIZE % 0x100 == n % 0x100 <= n % BUF_SIZE
  {
    var q, r := n / BUF_SIZE, n % BUF_SIZE;
    DivIs(n, 0x100, 4 * q + r / 0x100, r % 0x100);
  }

  // ---------------------------------------------------------------- an exchange, event by event

  /*
   The bus events of the two reads of a cycle are numbered: 0 is the first read address, 1 and 2 are the length bytes,
   3 is the second read address, and 4 + i is byte i of the reply. `end` is the byte at whose turn the slave stops: it
   goes back to receive mode, and the bus, which nobody drives, reads as 0xFF.
   */

  /** What the master gets in its second read when the slave stops at byte `end`. */
  function Got(reply: seq<byte>, end: nat, count: nat): (g: seq<byte>)
    ensures |g| == count
  {
    var kept := Kept(reply);
    seq(count, k requires 0 <= k < count => if k >= end then 0xff else if k < |kept| then kept[k] else 0)
  }

  /** While the reply is being read: the next byte is number i. */
  ghost predicate Sending(t: Transfer, reply: seq<byte>, i: nat, end: nat, exit: bool) {
    var kept := Kept(reply);
    && t.phase == DataReadPending
    && (i < end ==>
          && t.count == i + 1 && t.exit == exit && t.unit.mode == SlaveTransmit && t.unit.enabled
          && [t.unit.ds] + t.unread == if i < |kept| then kept[i..] else [0])
    && (i >= end ==> t.count == end && !t.exit && t.unit.mode == SlaveReceive && t.unit.enabled == !exit)
  }

  /** The slave after e events. */
  ghost predicate Stage(t: Transfer, reply: seq<byte>, e: nat, end: nat, exit: bool) {
    && !t.unit.pending
    && (e <= 3 ==> t.unread == Kept(reply) && t.unit.enabled && t.exit == exit)
    && (e <= 2 ==> t.phase == LengthReqPending)
    && (e == 0 || e == 3 ==> t.unit.mode == SlaveReceive)
    && (e == 1 ==> t.unit.mode == SlaveTransmit && t.count == 1 && t.unit.ds == 0)
    && (e == 2 ==> t.unit.mode == SlaveTransmit && t.count == 2 && t.unit.ds == ReportedLength(reply))
    && (e == 3 ==> t.phase == DataReadPending && t.count == 0)
    && (e >= 4 ==> Sending(t, reply, e - 4, end, exit))
  }

  /** A read address takes the slave to the next stage. */
  lemma AddressStage(t: Transfer, reply: seq<byte>, e: nat, end: nat, exit: bool, length: nat)
    requires Stage(t, reply, e, end, exit) && (e == 0 || (e == 3 && (0 < length <==> 0 < end)))
    ensures Stage(TxStep(t.(unit := Unit(t.unit.ds, SlaveTransmit, true, true)), true, true, length),
                  reply, e + 1, end, exit)
  {
    hide Kept;
    assert Kept(reply)[0..] == Kept(reply);
  }

  /** So does a length byte that the master takes. */
  lemma LengthByteStage(t: Transfer, reply: seq<byte>, e: nat, end: nat, exit: bool, length: nat)
    requires Stage(t, reply, e, end, exit) && 1 <= e <= 2
    ensures Stage(TxStep(t.(unit := Unit(t.unit.ds, SlaveTransmit, t.unit.enabled, true)), false, true, length),
                  reply, e + 1, end, exit)
  {
    hide Kept, Sending;
    LowByteOfCount(|reply|);
  }

  /** And a byte of the reply. */
  lemma DataByteStage(t: Transfer, reply: seq<byte>, i: nat, end: nat, exit: bool, length: nat)
    requires Stage(t, reply, i + 4, end, exit) && i < end && (i + 1 < length <==> i + 1 < end)
    ensures Stage(TxStep(t.(unit := Unit(t.unit.ds, SlaveTransmit, t.unit.enabled, true)), false, true, length),
                  reply, i + 5, end, exit)
    ensures t.unit.ds == Got(reply, end, i + 1)[i]
  {
    hide Kept;
    RestOfReply(t, reply, i);
    SendingNext(t.(unit := Unit(t.unit.ds, SlaveTransmit, t.unit.enabled, true)), reply, i, end, exit, length);
  }

  /** The next byte of the reply, or its end. */
  lemma SendingNext(t: Transfer, reply: seq<byte>, i: nat, end: nat, exit: bool, length: nat)
    requires t.phase == DataReadPending && t.count == i + 1 && t.exit == exit
    requires t.unit.mode == SlaveTransmit && t.unit.enabled && i < end && (i + 1 < length <==> i + 1 < end)
    requires t.unread == if i + 1 < |Kept(reply)| then Kept(reply)[i + 1..] else []
    ensures Sending(DataStep(t, length), reply, i + 1, end, exit) && !DataStep(t, length).unit.pending
  {
    hide Kept;
    var kept := Kept(reply);
    if i + 1 < |kept| {
      FirstAndRest(kept[i + 1..]);
    }
  }

  lemma FirstAndRest(s: seq<byte>)
    requires s != []
    ensures [s[0]] + s[1..] == s
  {
  }

  lemma RestOfReply(t: Transfer, reply: seq<byte>, i: nat)
    requires [t.unit.ds] + t.unread == if i < |Kept(reply)| then Kept(reply)[i..] else [0]
    ensures t.unit.ds == if i < |Kept(reply)| then Kept(reply)[i] else 0
    ensures t.unread == if i + 1 < |Kept(reply)| then Kept(reply)[i + 1..] else []
  {
    hide Kept;
    var kept := Kept(reply);
    assert t.unit.ds == ([t.unit.ds] + t.unread)[0];
    assert t.unread == ([t.unit.ds] + t.unread)[1..];
    if i < |kept| {
      assert kept[i..][1..] == kept[i + 1..];
    }
  }

  /** The slave's stop moves with its idea of the length, as long as it has not stopped. */
  lemma EndMoves(t: Transfer, reply: seq<byte>, e: nat, end: nat, end': nat, exit: bool)
    requires Stage(t, reply, e, end, exit) && (e >= 4 ==> e - 4 < end && e - 4 < end')
    ensures Stage(t, reply, e, end', exit)
    ensures e >= 4 ==> Got(reply, end, e - 4) == Got(reply, end', e - 4)
  {
    hide Kept;
  }

  lemma GotSnoc(reply: seq<byte>, end: nat, count: nat)
    ensures Got(reply, end, count + 1) == Got(reply, end, count) + [Got(reply, end, count + 1)[count]]
  {
    hide Kept;
  }

  /**
   When a reply arrives whole: it has at most 255 bytes, and the slave does not stop before its end, or the bytes it
   withholds are what an idle bus reads as.
   */
  lemma WholeReply(reply: seq<byte>, end: nat)
    ensures Got(reply, end, ReportedLength(reply)) == reply
       <==> |reply| <= 255 && forall k :: end <= k < |reply| ==> reply[k] == 0xff
    ensures ReportedLength(reply) == |reply| <==> |reply| <= 255
  {
    if |reply| <= 255 {
      KeptWhole(reply);
      var g := Got(reply, end, |reply|);
      assert forall k :: 0 <= k < |reply| ==> g[k] == if k >= end then 0xff else reply[k];
      if g == reply {
        forall k | end <= k < |reply|
          ensures reply[k] == 0xff
        {
          assert g[k] == reply[k];
        }
      }
    }
  }

  lemma EndsAlike(reply: seq<byte>, end: nat, end': nat, count: nat)
    requires end == end' || (count <= end && count <= end')
    ensures Got(reply, end, count) == Got(reply, end', count)
  {
    hide Kept;
  }

  lemma NothingGot(reply: seq<byte>, end: nat)
    ensures Got(reply, end, 0) == []
  {
  }

  lemma NotDriven(reply: seq<byte>, end: nat, count: nat)
    requires end < count
    ensures Got(reply, end, count)[count - 1] == 0xff
  {
  }

  lemma ReadyKept(t: Transfer, address: bool, length: nat)
    ensures TxStep(t, address, true, length).ready == t.ready
  {
  }

  /** A master that waits gets the first length byte when the reply is in place. */
  lemma Waiting(t: Transfer, reply: seq<byte>, exit: bool, end: nat)
    requires t.phase == LengthReqPending && t.unread == Kept(reply) && t.exit == exit
    requires t.unit.mode == SlaveTransmit && t.unit.enabled
    ensures Stage(TxStep(t, true, true, end), reply, 1, end, exit)
  {
    hide Kept;
  }

  lemma NotArrived(t: Transfer, reply: seq<byte>, end: nat, exit: bool)
    requires t.phase == LengthReqPending && t.unread == Kept(reply) && t.exit == exit
    requires t.unit.mode == SlaveReceive && t.unit.enabled && !t.unit.pending
    ensures Stage(t, reply, 0, end, exit)
  {
    hide Kept;
  }

  /** The slave after the last byte that the master takes. */
  lemma Finished(t: Transfer, reply: seq<byte>, e: nat, end: nat, exit: bool)
    requires Stage(t, reply, e, end, exit) && e >= 4
    ensures e - 4 >= end ==>
              t.unit.mode == SlaveReceive && !t.unit.pending && !t.exit && t.unit.enabled == !exit
    ensures e - 4 < end ==> t.unit.mode == SlaveTransmit && t.unit.enabled && t.exit == exit
  {
    hide Kept;
  }

  /** The byte at which the slave stops in a cycle, `stale` being the length of the previous reply. */
  function StopsAt(reply: seq<byte>, stale: nat, at: nat, window: nat): nat {
    if at > |reply| && window >= 4 + stale then stale else |reply|
  }

  /** The reply arrives whole. */
  predicate ArrivesWhole(reply: seq<byte>, stale: nat, at: nat, window: nat) {
    && |reply| <= 255
    && (at <= |reply| || window < 4 + stale || forall k :: stale <= k < |reply| ==> reply[k] == 0xff)
  }

  /**
   The slave is back in receive mode at the end of the exchange: it has stopped at the stale length, or the reported
   length is that of the reply and tx_length was set before the last bus event.
   */
  predicate StopsInTime(reply: seq<byte>, stale: nat, at: nat, window: nat) {
    || (at > |reply| && window >= 4 + stale && stale <= ReportedLength(reply))
    || (|reply| <= 255 && (at <= |reply| || window < 4 + |reply|))
  }

  /** A first reply of one byte whose data is asked for before tx_length is set: the master reads an idle bus. */
  lemma StaleLengthLosesReply()
    ensures Got([0x01], StopsAt([0x01], 0, 2, 4), 1) == [0xff]
  {
  }

  class Master {
    const rxBuffer: array<byte>
    var rxLength: nat
    var rxDataValid: bool

    ghost predicate Valid()
      reads this
    {
      rxBuffer.Length == BUF_SIZE && rxLength <= BUF_SIZE
    }

    constructor ()
      ensures Valid() && fresh(rxBuffer) && !rxDataValid && rxLength == 0
    {
      rxBuffer := new byte[BUF_SIZE];
      rxLength, rxDataValid := 0, false;
    }

    /** i2c_master_send; a slave that does not listen does not acknowledge. */
    method Send(s: Slave, command: seq<byte>) returns (ok: bool)
      requires s.Valid()
      modifies s, s.rx`wrIndex, s.rx.buf, s.tx`rdIndex
      ensures s.Valid() && ok == old(s.Listening())
      ensures ok && old(s.rx.Unread()) == [] ==> s.rx.Unread() == Kept(command)
      ensures ok ==> s.Commanded() && s.exitOnTxEnd == old(s.exitOnTxEnd) && s.txLength == old(s.txLength)
      ensures !ok ==> unchanged(s) && s.rx.Unread() == old(s.rx.Unread())
    {
      hide Kept, TxStep, Buffer.Unread, Buffer.Valid;
      ok := s.enabled && s.mode == SlaveReceive && !s.pending;
      if !ok { return; }
      s.WriteAddress();
      NothingKept();
      var i := 0;
      while i < |command|
        invariant i <= |command|
        invariant s.Valid() && s.Commanded() && s.exitOnTxEnd == old(s.exitOnTxEnd)
        invariant s.txLength == old(s.txLength)
        invariant old(s.rx.Unread()) == [] ==> s.rx.Unread() == Kept(command[..i])
      {
        s.WriteByte(command[i]);
        KeptSnoc(command[..i], command[i]);
        assert command[..i + 1] == command[..i] + [command[i]];
        i := i + 1;
      }
      assert command[..i] == command;
    }

    /** The memory of the two drivers is separate. */
    ghost predicate Apart(s: Slave)
      reads this, s
    {
      rxBuffer != s.rx.buf && rxBuffer != s.tx.buf
    }

    /** After e events of an exchange: the slave's stage and what the master has read. */
    ghost predicate Exchanging(s: Slave, reply: seq<byte>, e: nat, end: nat, exit: bool)
      requires Valid() && s.Valid()
      reads this, rxBuffer, s, s.rx, s.tx, s.tx.buf
    {
      && s.dataValid && Stage(s.Tx(), reply, e, end, exit)
      && (e == 2 ==> rxBuffer[0] == 0) && (e >= 3 ==> rxLength == ReportedLength(reply))
      && (e >= 4 ==> e - 4 <= rxLength && rxBuffer[..e - 4] == Got(reply, end, e - 4))
    }

    /** The slave agrees with `end` about the byte of the next event. */
    ghost predicate EndIs(s: Slave, e: nat, end: nat)
      reads s
    {
      (e == 3 ==> (0 < s.txLength <==> 0 < end)) && (4 <= e < end + 4 ==> (e - 3 < s.txLength <==> e - 3 < end))
    }

    /** The length that the two bytes spell, high byte first. */
    method TakeLength()
      requires Valid() && 0x100 * (rxBuffer[0] as nat) + rxBuffer[1] as nat <= BUF_SIZE
      modifies `rxLength
      ensures Valid() && rxLength == 0x100 * (rxBuffer[0] as nat) + rxBuffer[1] as nat
    {
      PowersOfTwo();
      var high: nat := rxBuffer[0];
      OrShifted(high, rxBuffer[1], 8);
      rxLength := Or(high * 0x100, rxBuffer[1]);
    }

    /** Event e: an address or a length byte. */
    method LengthEvent(s: Slave, ghost reply: seq<byte>, e: nat, ghost end: nat, ghost exit: bool)
      requires Valid() && s.Valid() && Apart(s) && e <= 3 && Exchanging(s, reply, e, end, exit) && EndIs(s, e, end)
      modifies `rxLength, rxBuffer, s, s.rx`wrIndex, s.rx.buf, s.tx`rdIndex
      ensures Valid() && s.Valid() && Exchanging(s, reply, e + 1, end, exit)
      ensures s.rx.Unread() == old(s.rx.Unread()) && s.txLength == old(s.txLength) && s.txReady == old(s.txReady)
    {
      hide Kept, TxStep, ReportedLength, Buffer.Unread, Buffer.Valid;
      if e == 0 || e == 3 {
        AddressStage(s.Tx(), reply, e, end, exit, s.txLength);
        ReadyKept(s.Tx().(unit := Unit(s.ds, SlaveTransmit, true, true)), true, s.txLength);
        s.ReadAddress();
        NothingGot(reply, end);
      } else {
        LengthByteStage(s.Tx(), reply, e, end, exit, s.txLength);
        ReadyKept(s.Tx().(unit := Unit(s.ds, SlaveTransmit, s.enabled, true)), false, s.txLength);
        var b := s.ReadByte();
        if e == 1 {
          rxBuffer[0] := b;
        } else {
          rxBuffer[1] := b;
          TakeLength();
        }
      }
    }

    /** Byte i of the reply, or 0xFF from a bus that the slave does not drive any more. */
    method TakeByte(s: Slave, ghost reply: seq<byte>, ghost i: nat, ghost end: nat, ghost exit: bool) returns (b: byte)
      requires s.Valid() && s.dataValid && Stage(s.Tx(), reply, i + 4, end, exit)
      requires i < end ==> (i + 1 < s.txLength <==> i + 1 < end)
      modifies s, s.rx`wrIndex, s.rx.buf, s.tx`rdIndex
      ensures s.Valid() && s.dataValid && Stage(s.Tx(), reply, i + 5, end, exit) && b == Got(reply, end, i + 1)[i]
      ensures s.rx.Unread() == old(s.rx.Unread()) && s.txLength == old(s.txLength) && s.txReady == old(s.txReady)
    {
      hide Kept, TxStep, ReportedLength, Buffer.Unread, Buffer.Valid, Got;
      b := 0xff;
      if s.mode == SlaveTransmit {
        DataByteStage(s.Tx(), reply, i, end, exit, s.txLength);
        ReadyKept(s.Tx().(unit := Unit(s.ds, SlaveTransmit, s.enabled, true)), false, s.txLength);
        b := s.ReadByte();
      } else {
        NotDriven(reply, end, i + 1);
      }
    }

    method Store(i: nat, b: byte)
      requires Valid() && i < BUF_SIZE
      modifies rxBuffer
      ensures rxBuffer[..i + 1] == old(rxBuffer[..i]) + [b]
    {
      rxBuffer[i] := b;
    }

    /** Event e: a byte of the reply. */
    method DataEvent(s: Slave, ghost reply: seq<byte>, e: nat, ghost end: nat, ghost exit: bool)
      requires Valid() && s.Valid() && Apart(s) && 4 <= e < 4 + rxLength
      requires Exchanging(s, reply, e, end, exit) && EndIs(s, e, end)
      modifies rxBuffer, s, s.rx`wrIndex, s.rx.buf, s.tx`rdIndex
      ensures Valid() && s.Valid() && Exchanging(s, reply, e + 1, end, exit)
      ensures s.rx.Unread() == old(s.rx.Unread()) && s.txLength == old(s.txLength) && s.txReady == old(s.txReady)
    {
      hide Kept, TxStep, Stage, ReportedLength, Buffer.Unread, Buffer.Valid, Got;
      GotSnoc(reply, end, e - 4);
      var b := TakeByte(s, reply, e - 4, end, exit);
      Store(e - 4, b);
    }

    /**
     Up to `count` events, from event e on; none takes place while the slave holds the clock, and none is left after
     the last byte of the reply.
     */
    method Events(s: Slave, ghost reply: seq<byte>, e: nat, ghost end: nat, ghost exit: bool, count: nat)
      returns (e': nat)
      requires Valid() && s.Valid() && Apart(s) && Exchanging(s, reply, e, end, exit)
      requires end == s.txLength || (e >= 4 && (e - 4 >= end || e == 4 + rxLength))
      modifies `rxLength, rxBuffer, s, s.rx`wrIndex, s.rx.buf, s.tx`rdIndex
      ensures Valid() && s.Valid() && Exchanging(s, reply, e', end, exit)
      ensures e' == if e + count <= 4 + ReportedLength(reply) then e + count else 4 + ReportedLength(reply)
      ensures s.rx.Unread() == old(s.rx.Unread()) && s.txLength == old(s.txLength) && s.txReady == old(s.txReady)
    {
      hide Kept, Stage, TxStep, ReportedLength, Buffer.Unread, Buffer.Valid, Got;
      e' := e;
      var n := 0;
      while n < count && (e' <= 3 || e' < 4 + rxLength)
        invariant n <= count && e' == e + n && Valid() && s.Valid() && Exchanging(s, reply, e', end, exit)
        invariant end == s.txLength || (e' >= 4 && (e' - 4 >= end || e' == 4 + rxLength))
        invariant s.rx.Unread() == old(s.rx.Unread()) && s.txLength == old(s.txLength) && s.txReady == old(s.txReady)
      {
        if e' <= 3 {
          LengthEvent(s, reply, e', end, exit);
        } else {
          DataEvent(s, reply, e', end, exit);
        }
        e' := e' + 1;
        n := n + 1;
      }
    }

    /** How a cycle leaves the slave: listening or switched off when it stopped in time, transmitting when not. */
    ghost predicate Ended(s: Slave, inTime: bool, exit: bool)
      reads s
    {
      if inTime then s.mode == SlaveReceive && !s.pending && !s.exitOnTxEnd && s.enabled == !exit
      else s.mode == SlaveTransmit && s.enabled && s.exitOnTxEnd == exit
    }

    /**
     reciva_write of the slave's application against the two reads of the master. The read address arrives before byte
     number `at` of the reply is stored, or before slave_tx_data_valid is set; then the clock is held until the end of
     reciva_write. Or it arrives later: then `window` bus events, as far as there are so many, take place between the
     setting of slave_tx_data_valid and that of tx_length, and `later` between that and the lock.
     */
    method Exchange(s: Slave, reply: seq<byte>, at: nat, window: nat, later: nat)
      requires Valid() && s.Valid() && Apart(s) && s.Commanded()
      modifies `rxLength, rxBuffer, s, s.rx`wrIndex, s.rx.buf, s.tx, s.tx.buf
      ensures Valid() && s.Valid() && s.rx.Unread() == old(s.rx.Unread()) && s.txLength == |reply|
      ensures rxLength == ReportedLength(reply)
      ensures rxBuffer[..rxLength] == Got(reply, StopsAt(reply, old(s.txLength), at, window), rxLength)
      ensures Ended(s, StopsInTime(reply, old(s.txLength), at, window), old(s.exitOnTxEnd))
    {
      hide Kept, Stage, TxStep, ReportedLength, Buffer.Unread, Buffer.Valid, Got;
      LengthBound(reply);
      ghost var end;
      var e;
      s.FillTxBuffer(reply, at);
      if at == |reply| { s.Arrive(); }
      if at <= |reply| {
        e := ReplyToWaiting(s, reply);
        end := |reply|;
      } else {
        e, end := ReplyInTime(s, reply, window, later);
      }
      Finished(s.Tx(), reply, e, end, old(s.exitOnTxEnd));
      EndsAlike(reply, end, StopsAt(reply, old(s.txLength), at, window), rxLength);
    }

    /** The rest of the exchange when the master already waits. */
    method ReplyToWaiting(s: Slave, reply: seq<byte>) returns (e: nat)
      requires Valid() && s.Valid() && Apart(s) && s.AwaitsReply(true) && s.tx.Unread() == Kept(reply)
      modifies `rxLength, rxBuffer, s, s.rx`wrIndex, s.rx.buf, s.tx`rdIndex
      ensures Valid() && s.Valid() && s.rx.Unread() == old(s.rx.Unread()) && s.txLength == |reply|
      ensures e == 4 + ReportedLength(reply) && Exchanging(s, reply, e, |reply|, old(s.exitOnTxEnd))
    {
      hide Kept, Stage, TxStep, ReportedLength, Buffer.Unread, Buffer.Valid, Got;
      LengthBound(reply);
      s.MarkValid();
      s.SetLength(|reply|);
      Waiting(s.Tx(), reply, s.exitOnTxEnd, |reply|);
      s.StartIfWaiting();
      e := Events(s, reply, 1, |reply|, old(s.exitOnTxEnd), 3 + 0x100);
    }

    /** The part of reciva_write in which tx_length is still the previous one, when the master does not wait yet. */
    method StaleWindow(s: Slave, reply: seq<byte>, window: nat) returns (e: nat, ghost end: nat)
      requires Valid() && s.Valid() && Apart(s) && s.Commanded() && s.tx.Unread() == Kept(reply)
      modifies `rxLength, rxBuffer, s, s.rx`wrIndex, s.rx.buf, s.tx`rdIndex
      ensures Valid() && s.Valid() && s.rx.Unread() == old(s.rx.Unread()) && s.txLength == |reply| && !s.txReady
      ensures Exchanging(s, reply, e, end, old(s.exitOnTxEnd))
      ensures end == |reply| || (e >= 4 && (e - 4 >= end || e == 4 + rxLength))
      ensures end <= ReportedLength(reply) <==> StopsInTime(reply, old(s.txLength), |reply| + 1, window)
      ensures var stops := if window >= 4 + old(s.txLength) then old(s.txLength) else |reply|;
              end == stops || (end >= ReportedLength(reply) && stops >= ReportedLength(reply))
    {
      hide Kept, Stage, TxStep, ReportedLength, Buffer.Unread, Buffer.Valid, Got;
      LengthBound(reply);
      ghost var stale, exit := s.txLength, s.exitOnTxEnd;
      s.MarkValid();
      NotArrived(s.Tx(), reply, stale, exit);
      e := Events(s, reply, 0, stale, exit, window);
      s.SetLength(|reply|);
      if e >= 4 && e - 4 >= stale {
        end := stale;
      } else {
        end := if e >= 4 && e - 4 >= |reply| then e - 3 else |reply|;
        EndMoves(s.Tx(), reply, e, stale, end, exit);
      }
    }

    /** The rest of the exchange when the master comes later. */
    method ReplyInTime(s: Slave, reply: seq<byte>, window: nat, later: nat) returns (e: nat, ghost end: nat)
      requires Valid() && s.Valid() && Apart(s) && s.Commanded() && s.tx.Unread() == Kept(reply)
      modifies `rxLength, rxBuffer, s, s.rx`wrIndex, s.rx.buf, s.tx`rdIndex
      ensures Valid() && s.Valid() && s.rx.Unread() == old(s.rx.Unread()) && s.txLength == |reply|
      ensures e == 4 + ReportedLength(reply) && Exchanging(s, reply, e, end, old(s.exitOnTxEnd))
      ensures end <= ReportedLength(reply) <==> StopsInTime(reply, old(s.txLength), |reply| + 1, window)
      ensures var stops := if window >= 4 + old(s.txLength) then old(s.txLength) else |reply|;
              end == stops || (end >= ReportedLength(reply) && stops >= ReportedLength(reply))
    {
      hide Kept, Stage, TxStep, ReportedLength, Buffer.Unread, Buffer.Valid, Got;
      LengthBound(reply);
      ghost var exit := s.exitOnTxEnd;
      e, end := StaleWindow(s, reply, window);
      e := Events(s, reply, e, end, exit, later);
      s.StartIfWaiting();
      e := Events(s, reply, e, end, exit, 4 + 0x100);
    }

    /**
     reciva_write, the slave's application reading the command and replying on the way. It returns what
     reciva_write returns and the command as the application saw it. The reply arrives whole if and only if it has at
     most 255 bytes and either its data is not asked for while tx_length is still that of the previous reply, or that
     length is enough for as many bytes as are taken by then, or only bytes 0xFF are withheld. The slave listens again
     if and only if it stops in time.
     */
    method Write(s: Slave, command: seq<byte>, reply: seq<byte>, at: nat, window: nat, later: nat)
      returns (count: nat, seen: seq<byte>)
      requires Valid() && s.Valid() && Apart(s) && s.rx.Unread() == []
      modifies this, rxBuffer, s, s.rx, s.rx.buf, s.tx, s.tx.buf
      ensures Valid() && s.Valid() && s.rx.Unread() == []
      ensures !old(s.Listening()) ==> count == 0 && seen == [] && !s.Listening() && rxDataValid == old(rxDataValid)
      ensures old(s.Listening()) ==>
                && count == |command| && seen == Kept(command)
                && rxDataValid && rxLength == ReportedLength(reply)
                && rxBuffer[..rxLength] == Got(reply, StopsAt(reply, old(s.txLength), at, window), rxLength)
                && s.txLength == |reply|
                && Ended(s, StopsInTime(reply, old(s.txLength), at, window), old(s.exitOnTxEnd))
      ensures old(s.Listening()) ==>
                (rxBuffer[..rxLength] == reply <==> ArrivesWhole(reply, old(s.txLength), at, window))
    {
      hide Kept, Buffer.Unread, Buffer.Valid, TxStep, ReportedLength, Got;
      ghost var stale := s.txLength;
      WholeReply(reply, StopsAt(reply, stale, at, window));
      var ok := Send(s, command);
      if !ok { return 0, []; }
      seen := s.Read(|command|);
      assert seen == Kept(command);
      Exchange(s, reply, at, window, later);
      rxDataValid := true;
      count := |command|;
    }

    /** reciva_read. */
    method Read(count: nat) returns (data: seq<byte>)
      requires Valid()
      modifies `rxDataValid
      ensures data == if old(rxDataValid) then rxBuffer[..if count > rxLength then rxLength else count] else []
      ensures !rxDataValid
    {
      data := [];
      if rxDataValid {
        var n := if count > rxLength then rxLength else count;
        data := rxBuffer[..n];
        rxDataValid := false;
      }
    }

    /**
     A run: command after command, each with its own reply and its own moments for the bus events. Every command and
     reply is served, once and in order, up to the first cycle that leaves the slave transmitting; a reply arrives
     whole exactly when its own cycle lets it. From then on no command is acknowledged.
     */
    method Serve(s: Slave, cycles: seq<Cycle>) returns (commands: seq<seq<byte>>, replies: seq<seq<byte>>)
      requires Valid() && s.Valid() && Apart(s) && s.rx.Unread() == [] && s.Listening() && !s.exitOnTxEnd
      modifies this, rxBuffer, s, s.rx, s.rx.buf, s.tx, s.tx.buf
      ensures Valid() && s.Valid() && s.rx.Unread() == []
      ensures |commands| == |replies| == |cycles|
      ensures forall k :: 0 <= k < |cycles| ==>
                ServedAs(cycles, old(s.txLength), k, commands[k], replies[k])
      ensures s.Listening() <==> AllInTime(cycles, old(s.txLength), |cycles|)
    {
      hide Kept, Buffer.Unread, Buffer.Valid, ReportedLength, Got, StopsInTime, ArrivesWhole, AllInTime, ServedAs;
      commands, replies := [], [];
      NoCycles(cycles, s.txLength);
      ghost var stale := s.txLength;
      var i := 0;
      while i < |cycles|
        invariant 0 <= i <= |cycles| && |commands| == |replies| == i
        invariant Valid() && s.Valid() && s.rx.Unread() == []
        invariant s.Listening() <==> AllInTime(cycles, stale, i)
        invariant s.Listening() ==> s.txLength == LengthBefore(cycles, stale, i) && !s.exitOnTxEnd
        invariant !s.Listening() ==> !rxDataValid
        invariant forall k :: 0 <= k < i ==> ServedAs(cycles, stale, k, commands[k], replies[k])
      {
        OneMoreInTime(cycles, stale, i);
        var seen, reply := ServeOne(s, cycles, i, stale);
        commands, replies := commands + [seen], replies + [reply];
        i := i + 1;
      }
    }

    /** Cycle k of a run. */
    method ServeOne(s: Slave, cycles: seq<Cycle>, k: nat, ghost stale: nat) returns (seen: seq<byte>, reply: seq<byte>)
      requires Valid() && s.Valid() && Apart(s) && s.rx.Unread() == [] && k < |cycles|
      requires s.Listening() <==> AllInTime(cycles, stale, k)
      requires s.Listening() ==> s.txLength == LengthBefore(cycles, stale, k) && !s.exitOnTxEnd
      requires !s.Listening() ==> !rxDataValid
      modifies this, rxBuffer, s, s.rx, s.rx.buf, s.tx, s.tx.buf
      ensures Valid() && s.Valid() && s.rx.Unread() == [] && !rxDataValid
      ensures ServedAs(cycles, stale, k, seen, reply)
      ensures var c := cycles[k];
              s.Listening() <==> old(s.Listening()) && StopsInTime(c.reply, old(s.txLength), c.at, c.window)
      ensures s.Listening() ==> s.txLength == |cycles[k].reply| && !s.exitOnTxEnd
    {
      hide Kept, Buffer.Unread, Buffer.Valid, ReportedLength, Got, StopsInTime, ArrivesWhole, AllInTime;
      var c := cycles[k];
      var count;
      count, seen := Write(s, c.command, c.reply, c.at, c.window, c.later);
      LengthBound(c.reply);
      reply := Read(BUF_SIZE);
      KeptWhole(c.command);
    }
  }

  lemma NoCycles(cycles: seq<Cycle>, stale: nat)
    ensures AllInTime(cycles, stale, 0)
  {
  }

  lemma OneMoreInTime(cycles: seq<Cycle>, stale: nat, k: nat)
    requires k < |cycles|
    ensures var c := cycles[k];
            AllInTime(cycles, stale, k + 1)
            <==> AllInTime(cycles, stale, k) && StopsInTime(c.reply, LengthBefore(cycles, stale, k), c.at, c.window)
  {
    hide StopsInTime;
  }

  /** The length that is in force before cycle k: that of the reply before. */
  function LengthBefore(cycles: seq<Cycle>, stale: nat, k: nat): nat
    requires k <= |cycles|
  {
    if k == 0 then stale else |cycles[k - 1].reply|
  }

  /** In each of the first n cycles the slave stops in time. */
  ghost predicate AllInTime(cycles: seq<Cycle>, stale: nat, n: nat)
    requires n <= |cycles|
  {
    forall j :: 0 <= j < n ==>
      StopsInTime(cycles[j].reply, LengthBefore(cycles, stale, j), cycles[j].at, cycles[j].window)
  }

  /** What the application and the master get in cycle k. */
  ghost predicate ServedAs(cycles: seq<Cycle>, stale: nat, k: nat, command: seq<byte>, reply: seq<byte>)
    requires k < |cycles|
  {
    var c := cycles[k];
    if AllInTime(cycles, stale, k) then
      && (command == c.command <==> |c.command| < BUF_SIZE)
      && (reply == c.reply <==> ArrivesWhole(c.reply, LengthBefore(cycles, stale, k), c.at, c.window))
    else command == [] && reply == []
  }

  /**
   A run that stops: the data of the second reply is asked for while tx_length is that of the first, which is longer.
   The reply arrives whole, but the slave loads a byte that nobody takes and never hears the third command.
   */
  method SlaveKeepsTransmitting(cycles: seq<Cycle>) returns (commands: seq<seq<byte>>, replies: seq<seq<byte>>)
    requires cycles == [Cycle([0x01], [0x02, 0x03], 0, 0, 0), Cycle([0x04], [0x05], 2, 5, 0),
                        Cycle([0x06], [0x07], 0, 0, 0)]
    ensures commands == [[0x01], [0x04], []] && replies == [[0x02, 0x03], [0x05], []]
  {
    var s := new Slave();
    var m := new Master();
    ghost var c0, c1 := cycles[0], cycles[1];
    ghost var stale := s.txLength;
    commands, replies := m.Serve(s, cycles);
    assert StopsInTime(c0.reply, stale, 0, 0) && !StopsInTime(c1.reply, 2, 2, 5);
    assert LengthBefore(cycles, stale, 1) == 2;
    assert AllInTime(cycles, stale, 0) && AllInTime(cycles, stale, 1) && !AllInTime(cycles, stale, 2);
    assert ServedAs(cycles, stale, 0, commands[0], replies[0]) && ServedAs(cycles, stale, 1, commands[1], replies[1]);
    assert ServedAs(cycles, stale, 2, commands[2], replies[2]);
  }

  /** One command, the reply to it, and how the bus events fall into the writing of the reply. */
  datatype Cycle = Cycle(command: seq<byte>, reply: seq<byte>, at: nat, window: nat, later: nat)

  lemma LengthBound(reply: seq<byte>)
    ensures ReportedLength(reply) <= 255 && ReportedLength(reply) <= |reply|
    ensures |reply| <= 255 ==> ReportedLength(reply) == |reply|
  {
  }
}
