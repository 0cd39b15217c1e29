/**
The hex transport of kernel/linux_bast/reciva/reciva_slave_mode_driver_serial.c: messages travel as lower-case
hexadecimal text, one line each, and are decoded in place.
 */
module SerialDriver {
  import opened Bits
  import opened Ring
  import opened UartRx

  // ---------------------------------------------------------------- the text of a message

  /** "%1x" of a nibble. */
  function HexDigit(n: nat): (c: byte)
    requires n < 16
    ensures c != 0 && c != CR
  {
    if n < 10 then 0x30 + n else 0x61 + n - 10
  }

  /** toupper. */
  function ToUpper(c: byte): byte {
    if 0x61 <= c <= 0x7a then c - 0x20 else c
  }

  /** simple_strtol of a one-character string in base 16: 0 unless the character is an upper-case hex digit. */
  function DigitValue(c: byte): (n: nat)
    ensures n < 16
  {
    if 0x30 <= c <= 0x39 then c - 0x30
    else if 0x41 <= c <= 0x46 then c - 0x41 + 10
    else 0
  }

  const LOWER := "0123456789abcdef"
  const UPPER := "0123456789ABCDEF"

  /** The digits are written in lower case and read in either case; any other character reads as 0. */
  lemma Digits(n: nat, c: byte)
    requires n < 16
    ensures HexDigit(n) == LOWER[n] as int
    ensures DigitValue(ToUpper(LOWER[n] as int)) == DigitValue(ToUpper(UPPER[n] as int)) == n
    ensures c as char !in LOWER && c as char !in UPPER ==> DigitValue(ToUpper(c)) == 0
  {
    var d := DigitValue(ToUpper(c));
    if d != 0 {
      assert c as char == LOWER[d] || c as char == UPPER[d];
    }
  }

  /** Hexadecimal text of some bytes, most significant digit first, each digit in either case. */
  predicate IsHexOf(text: seq<byte>, data: seq<byte>) {
    && |text| == 2 * |data|
    && forall i :: 0 <= i < |data| ==> IsDigit(text[2 * i], data[i] / 16) && IsDigit(text[2 * i + 1], data[i] % 16)
  }

  predicate IsDigit(c: byte, n: nat) {
    n < 16 && (c == LOWER[n] as int || c == UPPER[n] as int)
  }

  function HexText(data: seq<byte>): (t: seq<byte>)
    ensures |t| == 2 * |data|
  {
    seq(2 * |data|, i requires 0 <= i < 2 * |data| =>
      HexDigit(if i % 2 == 0 then data[i / 2] / 16 else data[i / 2] % 16))
  }

  function HexValue(text: seq<byte>): (d: seq<byte>)
    requires |text| % 2 == 0
    ensures |d| == |text| / 2
  {
    seq(|text| / 2, i requires 0 <= i < |text| / 2 =>
      16 * DigitValue(ToUpper(text[2 * i])) + DigitValue(ToUpper(text[2 * i + 1])))
  }

  lemma TextAt(data: seq<byte>, i: nat)
    requires i < |data|
    ensures HexText(data)[2 * i] == HexDigit(data[i] / 16) && HexText(data)[2 * i + 1] == HexDigit(data[i] % 16)
  {
    hide HexDigit;
    var k := 2 * i;
    assert k % 2 == 0 && k / 2 == i && (k + 1) % 2 == 1 && (k + 1) / 2 == i;
  }

  /** The text is hexadecimal. */
  lemma TextIsHex(data: seq<byte>)
    ensures IsHexOf(HexText(data), data)
  {
    hide HexDigit, IsDigit, HexText;
    forall i | 0 <= i < |data|
      ensures IsDigit(HexText(data)[2 * i], data[i] / 16) && IsDigit(HexText(data)[2 * i + 1], data[i] % 16)
    {
      TextAt(data, i);
      DigitWritten(data[i] / 16);
      DigitWritten(data[i] % 16);
    }
  }

  lemma DigitWritten(n: nat)
    requires n < 16
    ensures IsDigit(HexDigit(n), n) && HexDigit(n) as char in LOWER
  {
    Digits(n, 0);
    assert HexDigit(n) as char == LOWER[n];
  }

  /** It is in lower case. */
  lemma TextIsLower(data: seq<byte>, k: nat)
    requires k < 2 * |data|
    ensures HexText(data)[k] as char in LOWER
  {
    hide HexDigit;
    DigitWritten(data[k / 2] / 16);
    DigitWritten(data[k / 2] % 16);
  }

  /** Decoding takes hexadecimal text in either case for the bytes it spells. */
  lemma HexIsRead(text: seq<byte>, data: seq<byte>)
    requires IsHexOf(text, data)
    ensures HexValue(text) == data
  {
    hide DigitValue, ToUpper;
    forall i | 0 <= i < |data|
      ensures HexValue(text)[i] == data[i]
    {
      Digits(data[i] / 16, 0);
      Digits(data[i] % 16, 0);
      HexValueAt(text, i);
    }
  }

  /** Decoding undoes encoding, for every message. */
  lemma HexRoundTrip(data: seq<byte>)
    ensures HexValue(HexText(data)) == data
  {
    hide HexText, HexValue, IsHexOf;
    TextIsHex(data);
    HexIsRead(HexText(data), data);
  }

  // ---------------------------------------------------------------- the driver

  /** The line write_data hands to the UART: the text and a carriage return. */
  function Line(data: seq<byte>): seq<byte> {
    HexText(data) + [CR]
  }

  /** write_data, up to the call that queues the line. */
  method EncodeLine(data: seq<byte>) returns (asciiBuf: array<byte>)
    ensures asciiBuf[..] == Line(data) && fresh(asciiBuf)
    ensures asciiBuf.Length == 2 * |data| + 1 && asciiBuf[2 * |data|] == '\r' as int
    ensures IsHexOf(asciiBuf[..2 * |data|], data) && forall i :: 0 <= i < 2 * |data| ==> asciiBuf[i] as char in LOWER
  {
    hide And, Shr, HexDigit, IsHexOf;
    var asciiLength := |data| * 2 + 1;
    asciiBuf := new byte[asciiLength];
    var count := 0;
    while count < |data|
      invariant 0 <= count <= |data|
      invariant asciiBuf[..2 * count] == HexText(data)[..2 * count]
    {
      Nibbles(data[count]);
      var msn, lsn := Shr(And(data[count], 0xf0), 4), And(data[count], 0x0f);
      asciiBuf[count * 2 + 0] := HexDigit(msn);
      asciiBuf[count * 2 + 1] := HexDigit(lsn);
      count := count + 1;
    }
    asciiBuf[asciiLength - 1] := CR;
    assert asciiBuf[..2 * |data|] == HexText(data);
    TextIsHex(data);
    forall i | 0 <= i < 2 * |data|
      ensures asciiBuf[i] as char in LOWER
    {
      TextIsLower(data, i);
      assert asciiBuf[i] == asciiBuf[..2 * |data|][i];
    }
  }

  /** The C string in a buffer: everything before the first NUL. */
  function CString(s: seq<byte>): (t: seq<byte>)
    ensures t <= s
  {
    if s == [] || s[0] == 0 then [] else [s[0]] + CString(s[1..])
  }

  lemma {:induction false} CStringIs(s: seq<byte>, n: nat)
    requires n < |s| && s[n] == 0 && 0 !in s[..n]
    ensures CString(s) == s[..n]
  {
    if n > 0 {
      assert s[..n][0] == s[0] && s[1..][..n - 1] == s[..n][1..];
      CStringIs(s[1..], n - 1);
    }
  }

  lemma {:induction false} CStringShorter(s: seq<byte>)
    requires 0 in s
    ensures |CString(s)| < |s|
  {
    if s[0] != 0 { CStringShorter(s[1..]); }
  }

  /** strlen. */
  method StrLen(data: array<byte>) returns (n: nat)
    requires 0 in data[..]
    ensures n < data.Length && CString(data[..]) == data[..n]
  {
    ghost var k :| 0 <= k < data.Length && data[..][k] == 0;
    n := 0;
    while data[n] != 0
      invariant 0 <= n <= k && 0 !in data[..n]
      decreases k - n
    {
      n := n + 1;
    }
    assert data[..][..n] == data[..n];
    CStringIs(data[..], n);
  }

  datatype Command = NoCommand | Command(data: seq<byte>)

  /** What the driver makes of a line: a command when the text is not empty and has even length. */
  function CommandOf(text: seq<byte>): Command {
    if |text| > 0 && |text| % 2 == 0 then Command(HexValue(text)) else NoCommand
  }

  /** Hexadecimal text of at least one byte, in either case, is the command with these bytes. */
  lemma HexCommands(text: seq<byte>)
    ensures forall d: seq<byte> :: d != [] && IsHexOf(text, d) ==> CommandOf(text) == Command(d)
  {
    forall d: seq<byte> | d != [] && IsHexOf(text, d)
      ensures CommandOf(text) == Command(d)
    {
      HexIsRead(text, d);
    }
  }

  lemma HexValueAt(text: seq<byte>, i: nat)
    requires |text| % 2 == 0 && i < |text| / 2
    ensures HexValue(text)[i] == 16 * DigitValue(ToUpper(text[2 * i])) + DigitValue(ToUpper(text[2 * i + 1]))
  {
    hide DigitValue, ToUpper;
  }

  /** The decoding loop: value i overwrites character i, which has been read by then. */
  method DecodeInPlace(data: array<byte>, n: nat) returns (byteLength: nat)
    requires n <= data.Length && n % 2 == 0
    modifies data
    ensures byteLength == n / 2 && data[..byteLength] == HexValue(old(data[..n]))
  {
    hide And, Or, DigitValue, ToUpper, HexValue;
    byteLength := 0;
    ghost var text := data[..n];
    var asciiLength: int := n;
    while asciiLength > 0
      invariant asciiLength == n - 2 * byteLength && 0 <= asciiLength
      invariant forall i :: 2 * byteLength <= i < n ==> data[i] == text[i]
      invariant forall i :: 0 <= i < byteLength ==> data[i] == HexValue(text)[i]
      decreases asciiLength
    {
      var msn := DigitValue(ToUpper(data[byteLength * 2]));
      var lsn := DigitValue(ToUpper(data[byteLength * 2 + 1]));
      JoinNibbles(msn, lsn);
      HexValueAt(text, byteLength);
      data[byteLength] := Or(And(16 * msn, 0xf0), And(lsn, 0x0f));
      byteLength := byteLength + 1;
      asciiLength := asciiLength - 2;
    }
  }

  /** uart_rx_data: the command passed on to the slave mode controller, if any. */
  method UartRxData(data: array<byte>) returns (command: Command)
    requires 0 in data[..]
    modifies data
    ensures command == CommandOf(CString(old(data[..])))
    ensures forall d: seq<byte> :: d != [] && IsHexOf(CString(old(data[..])), d) ==> command == Command(d)
  {
    hide CString, HexValue, IsHexOf;
    HexCommands(CString(data[..]));
    var n := StrLen(data);
    command := NoCommand;
    if n > 0 && n % 2 == 0 {
      var byteLength := DecodeInPlace(data, n);
      command := Command(data[..byteLength]);
    }
  }

  /** A line from the UART, NUL-terminated as send_msg_to_rx_driver leaves it. */
  method OnLine(line: seq<byte>) returns (command: Command)
    ensures command == CommandOf(CString(line + [0]))
  {
    hide CString, CommandOf;
    var tempBuf := new byte[|line| + 1];
    forall i | 0 <= i < |line| {
      tempBuf[i] := line[i];
    }
    tempBuf[|line|] := 0;
    assert tempBuf[..] == line + [0] && (line + [0])[|line|] == 0;
    command := UartRxData(tempBuf);
  }

  /** The text of a message comes back as a command with exactly that message, unless the message is empty. */
  lemma LineIsCommand(data: seq<byte>)
    ensures CommandOf(CString(HexText(data) + [0])) == if data == [] then NoCommand else Command(data)
  {
    hide HexText, HexValue;
    HexTextHasNoControls(data);
    var s := HexText(data) + [0];
    assert s[..|HexText(data)|] == HexText(data);
    CStringIs(s, |HexText(data)|);
    HexRoundTrip(data);
  }

  /** A string shorter than the receive ring makes a command of at most 511 bytes. */
  lemma ShortCommands(text: seq<byte>)
    requires |text| < BUF_SIZE
    ensures match CommandOf(CString(text + [0])) case NoCommand => true case Command(data) => |data| <= 511
  {
    hide CString, HexValue;
    CStringShorter(text + [0]);
  }

  lemma HexTextHasNoControls(data: seq<byte>)
    ensures forall i :: 0 <= i < 2 * |data| ==> HexText(data)[i] != 0 && HexText(data)[i] != CR
    ensures 0 !in HexText(data)
  {
  }
}
