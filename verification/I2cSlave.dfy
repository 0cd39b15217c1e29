/**
kernel/linux_bast/reciva/reciva_i2c_slave.c: the interrupt-driven I2C slave. A master writes a command, reads two
bytes that hold the length of the reply, and then reads the reply; the application may reply before or after the
master's first read arrives.

The I2C unit is modelled by its data register, its mode and enable bits and the pending bit. While the pending
bit is set the clock line is held low, so no byte moves. The hardware enters slave transmit mode when its address
arrives with the read bit; only the driver takes it back to slave receive mode.
 */
module I2cSlave {
  import opened Bits
  import opened Ring

  // ---------------------------------------------------------------- buffer_t

  /** What is left of s in a ring that started empty: writing a full ring once more makes it appear empty. */
  function Kept(s: seq<byte>): (k: seq<byte>)
    ensures |k| == |s| % BUF_SIZE
  {
    s[|s| - |s| % BUF_SIZE..]
  }

  lemma KeptSnoc(s: seq<byte>, b: byte)
    ensures Kept(s + [b]) == if |Kept(s)| == BUF_SIZE - 1 then [] else Kept(s) + [b]
  {
    var n := |s|;
    if n % BUF_SIZE == BUF_SIZE - 1 {
      assert (n + 1) % BUF_SIZE == 0;
    } else {
      assert (n + 1) % BUF_SIZE == n % BUF_SIZE + 1;
    }
  }

  /** A ring keeps exactly the sequences that are shorter than it. */
  lemma KeptWhole(s: seq<byte>)
    ensures Kept(s) == s <==> |s| < BUF_SIZE
  {
    if |s| < BUF_SIZE {
      assert |s| % BUF_SIZE == |s|;
    }
  }

  lemma NothingKept()
    ensures Kept([]) == []
  {
  }

  class Buffer {
    const buf: array<byte>
    var rdIndex: nat
    var wrIndex: nat

    ghost predicate Valid()
      reads this
    {
      buf.Length == BUF_SIZE && rdIndex < BUF_SIZE && wrIndex < BUF_SIZE
    }

    ghost function Unread(): (u: seq<byte>)
      requires Valid()
      reads this, buf
    {
      Contents(buf[..], rdIndex, wrIndex)
    }

    constructor ()
      ensures Valid() && fresh(buf) && Unread() == []
    {
      buf := new byte[BUF_SIZE];
      rdIndex, wrIndex := 0, 0;
    }

    /** buf_init. */
    method Init()
      requires Valid()
      modifies this
      ensures Valid() && Unread() == []
    {
      rdIndex, wrIndex := 0, 0;
    }

    /** buf_read; every caller has seen that there is a byte. */
    method Read() returns (b: byte)
      requires Valid() && Unread() != []
      modifies this`rdIndex
      ensures Valid() && [b] + Unread() == old(Unread())
    {
      b := buf[rdIndex];
      rdIndex := Next(rdIndex);
    }

    /** buf_write, which does not look whether the ring is full. */
    method Write(b: byte)
      requires Valid()
      modifies this`wrIndex, buf
      ensures Valid()
      ensures Unread() == if |old(Unread())| == BUF_SIZE - 1 then [] else old(Unread()) + [b]
    {
      if Next(wrIndex) != rdIndex {
        Push(buf[..], rdIndex, wrIndex, b);
      } else {
        PushFull(rdIndex, wrIndex);
      }
      ghost var was := buf[..];
      buf[wrIndex] := b;
      assert buf[..] == was[wrIndex := b];
      wrIndex := Next(wrIndex);
    }

    /** buf_data_in_buffer: in two's complement the mask takes the difference modulo the size. */
    method DataInBuffer() returns (count: nat)
      requires Valid()
      ensures count == |Unread()|
    {
      count := (wrIndex - rdIndex) % BUF_SIZE;
    }
  }

  // ---------------------------------------------------------------- the driver

  datatype TxPhase = LengthReqPending | DataReadPending

  /** IICSTAT bits 7:6. */
  datatype Mode = SlaveReceive | SlaveTransmit | MasterMode

  /** The high byte of a count that went through a char. */
  lemma HighByteIsZero(temp: byte)
    ensures Shr(And(temp, 0xff00), 8) == 0 && And(temp, 0xff) == temp
  {
    hide *;
    PowersOfTwo();
    ShrAnd(temp, 0xff00, 8);
    SplitWord(temp, 8);
    LowOfSmall(temp, 8);
    LowMask(temp, 8);
    assert Pow2(8) * Shr(temp, 8) == 0;
  }

  /** IICDS, IICSTAT bits 7:6 and 4, and the pending bit of IICCON. */
  datatype Unit = Unit(ds: byte, mode: Mode, enabled: bool, pending: bool)

  /** The state of a transfer to the master; `unread` is the rest of the reply. */
  datatype Transfer = Transfer(phase: TxPhase, count: nat, unread: seq<byte>, ready: bool, exit: bool, unit: Unit)

  function LengthStep(t: Transfer, address: bool): Transfer {
    if address then t.(count := 1, unit := t.unit.(ds := 0, pending := false))
    else if t.count == 1 then t.(count := 2, unit := t.unit.(ds := |t.unread| % 0x100, pending := false))
    else t.(count := 0, phase := DataReadPending, unit := t.unit.(mode := SlaveReceive, pending := false))
  }

  function DataStep(t: Transfer, length: nat): Transfer {
    if t.count < length then
      t.(count := t.count + 1, unread := if t.unread == [] then [] else t.unread[1..],
         unit := t.unit.(ds := if t.unread == [] then 0 else t.unread[0], pending := false))
    else
      t.(exit := false,
         unit := t.unit.(mode := SlaveReceive, enabled := t.unit.enabled && !t.exit, pending := false))
  }

  /** What slave_tx does. */
  function TxStep(t: Transfer, address: bool, dataValid: bool, length: nat): Transfer {
    if !dataValid then t.(ready := true)
    else match t.phase
      case LengthReqPending => LengthStep(t, address)
      case DataReadPending => DataStep(t, length)
  }

  class Slave {
    const rx: Buffer
    const tx: Buffer
    var dataValid: bool
    var txReady: bool
    var txCount: nat
    var txLength: nat
    var phase: TxPhase
    var exitOnTxEnd: bool

    /** IICDS, IICSTAT bits 7:6 and 4, and the pending bit of IICCON. */
    var ds: byte
    var mode: Mode
    var enabled: bool
    var pending: bool

    ghost predicate Valid()
      reads this, rx, tx
    {
      rx.Valid() && tx.Valid() && rx != tx && rx.buf != tx.buf
    }

    /** Listening for its address. */
    ghost predicate Listening()
      reads this
    {
      enabled && mode == SlaveReceive && !pending
    }

    /** reciva_module_init followed by the reset ioctl, which enables the unit. */
    constructor ()
      ensures Valid() && fresh(rx) && fresh(tx) && fresh(rx.buf) && fresh(tx.buf)
      ensures Listening() && rx.Unread() == [] && tx.Unread() == [] && !exitOnTxEnd
      ensures !dataValid && !txReady && txCount == txLength == 0 && phase == LengthReqPending && ds == 0
    {
      rx := new Buffer();
      tx := new Buffer();
      dataValid, txReady, txCount, txLength, phase, exitOnTxEnd := false, false, 0, 0, LengthReqPending, false;
      ds, mode, enabled, pending := 0, SlaveReceive, true, false;
    }

    /** Everything that slave_tx changes. */
    ghost function Tx(): Transfer
      requires Valid()
      reads this, rx, tx, tx.buf
    {
      Transfer(phase, txCount, tx.Unread(), txReady, exitOnTxEnd, Unit(ds, mode, enabled, pending))
    }

    /** slave_tx while the length is being fetched. */
    method TxLengthPhase(address: bool)
      requires Valid() && phase == LengthReqPending
      modifies `txCount, `phase, `ds, `mode, `pending
      ensures Tx() == LengthStep(old(Tx()), address)
    {
      if address {
        var count := tx.DataInBuffer();
        var temp: byte := count % 0x100;
        HighByteIsZero(temp);
        ds := Shr(And(temp, 0xff00), 8);
        pending := false;
        txCount := 1;
      } else if txCount == 1 {
        var count := tx.DataInBuffer();
        var temp: byte := count % 0x100;
        HighByteIsZero(temp);
        ds := And(temp, 0xff);
        pending := false;
        txCount := txCount + 1;
      } else {
        pending := false;
        mode := SlaveReceive;
        phase := DataReadPending;
        txCount := 0;
      }
    }

    /** slave_tx while the data is being read. */
    method TxDataPhase()
      requires Valid() && phase == DataReadPending
      modifies `txCount, `ds, `mode, `enabled, `exitOnTxEnd, `pending, tx`rdIndex
      ensures Valid() && Tx() == DataStep(old(Tx()), txLength)
    {
      hide Buffer.Unread;
      var temp: byte := 0;
      if txCount < txLength {
        var count := tx.DataInBuffer();
        if count != 0 {
          temp := tx.Read();
        }
        ds := temp;
        pending := false;
        txCount := txCount + 1;
      } else {
        pending := false;
        if exitOnTxEnd {
          mode, enabled := SlaveReceive, false;
          exitOnTxEnd := false;
        } else {
          mode := SlaveReceive;
        }
      }
    }

    /** slave_tx: `address` is IICSTAT bit 2, the slave's address has just been matched. */
    method SlaveTx(address: bool)
      requires Valid()
      modifies `txReady, `txCount, `phase, `ds, `mode, `enabled, `exitOnTxEnd, `pending, tx`rdIndex
      ensures Valid() && Tx() == TxStep(old(Tx()), address, dataValid, txLength)
    {
      if dataValid {
        match phase
        case LengthReqPending => TxLengthPhase(address);
        case DataReadPending => TxDataPhase();
      } else {
        txReady := true;
      }
    }

    /** reciva_i2c_interrupt. */
    method Interrupt(address: bool)
      requires Valid()
      modifies this, rx`wrIndex, rx.buf, tx`rdIndex
      ensures Valid() && txLength == old(txLength)
      ensures old(mode) == SlaveReceive ==>
                && !dataValid && Tx() == old(Tx().(phase := LengthReqPending, ready := false,
                                                   unit := Unit(ds, mode, enabled, false)))
                && rx.Unread() == if address then old(rx.Unread())
                                  else if |old(rx.Unread())| == BUF_SIZE - 1 then []
                                  else old(rx.Unread()) + [ds]
      ensures old(mode) == SlaveTransmit ==>
                && dataValid == old(dataValid) && rx.Unread() == old(rx.Unread())
                && Tx() == TxStep(old(Tx()), address, dataValid, txLength)
    {
      if mode == SlaveReceive {
        dataValid := false;
        txReady := false;
        phase := LengthReqPending;
        pending := false;
        if !address {
          rx.Write(ds);
        }
      } else if mode == SlaveTransmit {
        SlaveTx(address);
      }
    }

    /** The hardware: the slave's address arrives with the write bit. */
    method WriteAddress()
      requires Valid() && Listening()
      modifies this, rx`wrIndex, rx.buf, tx`rdIndex
      ensures Valid() && Commanded() && exitOnTxEnd == old(exitOnTxEnd) && txLength == old(txLength)
      ensures rx.Unread() == old(rx.Unread())
    {
      pending := true;
      Interrupt(true);
    }

    /** The hardware: a byte from the master. */
    method WriteByte(b: byte)
      requires Valid() && Listening()
      modifies this, rx`wrIndex, rx.buf, tx`rdIndex
      ensures Valid() && Commanded() && exitOnTxEnd == old(exitOnTxEnd) && txLength == old(txLength)
      ensures rx.Unread() == if |old(rx.Unread())| == BUF_SIZE - 1 then [] else old(rx.Unread()) + [b]
    {
      ds, pending := b, true;
      Interrupt(false);
    }

    /** The hardware: the slave's address arrives with the read bit. */
    method ReadAddress()
      requires Valid() && Listening()
      modifies this, rx`wrIndex, rx.buf, tx`rdIndex
      ensures Valid() && txLength == old(txLength) && dataValid == old(dataValid) && rx.Unread() == old(rx.Unread())
      ensures Tx() == TxStep(old(Tx().(unit := Unit(ds, SlaveTransmit, true, true))), true, dataValid, txLength)
    {
      mode, pending := SlaveTransmit, true;
      Interrupt(true);
    }

    /** The hardware: the master has taken the byte of IICDS. */
    method ReadByte() returns (b: byte)
      requires Valid() && mode == SlaveTransmit && !pending
      modifies this, rx`wrIndex, rx.buf, tx`rdIndex
      ensures Valid() && txLength == old(txLength) && dataValid == old(dataValid) && rx.Unread() == old(rx.Unread())
      ensures b == old(ds)
      ensures Tx() == TxStep(old(Tx().(unit := Unit(ds, SlaveTransmit, enabled, true))), false, dataValid, txLength)
    {
      b := ds;
      pending := true;
      Interrupt(false);
    }

    /** reciva_read. */
    method Read(count: nat) returns (data: seq<byte>)
      requires Valid()
      modifies rx`rdIndex
      ensures Valid() && data + rx.Unread() == old(rx.Unread())
      ensures |data| == count || (|data| < count && rx.Unread() == [])
    {
      data := [];
      var available := rx.DataInBuffer();
      while |data| < count && available != 0
        invariant Valid() && available == |rx.Unread()| && |data| <= count
        invariant data + rx.Unread() == old(rx.Unread())
        decreases count - |data|
      {
        var b := rx.Read();
        data := data + [b];
        available := rx.DataInBuffer();
      }
    }

    /** The state after a command: a first master read, arriving or not, waits for the application. */
    ghost predicate AwaitsReply(arrived: bool)
      reads this
    {
      && !dataValid && phase == LengthReqPending && txReady == arrived && enabled
      && mode == (if arrived then SlaveTransmit else SlaveReceive) && pending == arrived
    }

    ghost predicate Commanded()
      reads this
    {
      AwaitsReply(false)
    }

    /** The read address arrives too early for a reply: the clock is held low until there is one. */
    method Arrive()
      requires Valid() && Commanded()
      modifies this, rx`wrIndex, rx.buf, tx`rdIndex
      ensures Valid() && AwaitsReply(true) && exitOnTxEnd == old(exitOnTxEnd) && txLength == old(txLength)
      ensures rx.Unread() == old(rx.Unread()) && tx.Unread() == old(tx.Unread())
    {
      ReadAddress();
    }

    /** The first part of reciva_write; the read address may arrive before any byte is stored, number `at`. */
    method FillTxBuffer(reply: seq<byte>, at: nat)
      requires Valid() && Commanded()
      modifies this, rx`wrIndex, rx.buf, tx, tx.buf
      ensures Valid() && AwaitsReply(at < |reply|) && exitOnTxEnd == old(exitOnTxEnd) && txLength == old(txLength)
      ensures rx.Unread() == old(rx.Unread()) && tx.Unread() == Kept(reply)
    {
      hide Kept, Buffer.Unread, Buffer.Valid;
      tx.Init();
      NothingKept();
      var writeCount := 0;
      while writeCount < |reply|
        invariant Valid() && writeCount <= |reply| && AwaitsReply(at < writeCount)
        invariant exitOnTxEnd == old(exitOnTxEnd) && txLength == old(txLength)
        invariant rx.Unread() == old(rx.Unread()) && tx.Unread() == Kept(reply[..writeCount])
      {
        if writeCount == at { Arrive(); }
        tx.Write(reply[writeCount]);
        KeptSnoc(reply[..writeCount], reply[writeCount]);
        assert reply[..writeCount + 1] == reply[..writeCount] + [reply[writeCount]];
        writeCount := writeCount + 1;
      }
      assert reply[..writeCount] == reply;
    }

    /** `slave_tx_data_valid = 1`. */
    method MarkValid()
      requires Valid()
      modifies `dataValid
      ensures Valid() && dataValid && Tx() == old(Tx()) && rx.Unread() == old(rx.Unread())
    {
      dataValid := true;
    }

    /** `tx_length = write_count`. */
    method SetLength(writeCount: nat)
      requires Valid()
      modifies `txLength
      ensures Valid() && txLength == writeCount && Tx() == old(Tx()) && rx.Unread() == old(rx.Unread())
    {
      txLength := writeCount;
    }

    /** The end of reciva_write, under the lock: a master that already waits gets the first length byte. */
    method StartIfWaiting()
      requires Valid() && dataValid
      modifies `txReady, `txCount, `phase, `ds, `mode, `enabled, `exitOnTxEnd, `pending, tx`rdIndex
      ensures Valid() && Tx() == if old(txReady) then TxStep(old(Tx()), true, true, txLength) else old(Tx())
      ensures rx.Unread() == old(rx.Unread())
    {
      if txReady {
        SlaveTx(true);
      }
    }

    /** set_exit_on_tx_end. */
    method SetExitOnTxEnd() returns (ok: bool)
      requires Valid()
      modifies `exitOnTxEnd
      ensures ok == !dataValid && exitOnTxEnd == (old(exitOnTxEnd) || ok)
    {
      if dataValid { return false; }
      exitOnTxEnd := true;
      return true;
    }

    /** reset_module. */
    method Reset()
      requires Valid()
      modifies `mode, `enabled, `exitOnTxEnd, `pending, tx, rx
      ensures Valid() && tx.Unread() == [] && rx.Unread() == [] && !exitOnTxEnd && !pending
      ensures if old(exitOnTxEnd) then mode == old(mode) && enabled == old(enabled) else Listening()
    {
      pending := false;
      if !exitOnTxEnd {
        mode, enabled := SlaveReceive, true;
      }
      exitOnTxEnd := false;
      tx.Init();
      rx.Init();
    }
  }
}
