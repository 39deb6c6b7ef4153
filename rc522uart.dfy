/** The MFRC522 register transport over its UART interface
    (py522/reader/rc522uart.py): a read request byte per register read, a
    (register, value) pair per register write acknowledged by the register
    address, and the SerialSpeedReg table that switches the line rate. */
module Rc522Uart {
  import opened Common
  import Rc522

  /** The SerialSpeedReg value for every supported line rate in bit/s. */
  const BaudRegValue: map<int, byte> := map[
    7200 := 0xFA,
    9600 := 0xEB,
    14400 := 0xDA,
    19200 := 0xCB,
    38400 := 0xAB,
    57600 := 0x9A,
    115200 := 0x7A,
    128000 := 0x74,
    230400 := 0x5A,
    460800 := 0x3A,
    921600 := 0x1C,
    1228800 := 0x15
  ]

  /** The rate at power-on and after a reset. */
  const DefaultBaudRate: int := 9600

  /** The MFRC522 oscillator, in Hz. */
  const ClockHz: int := 27120000

  /** The clock divider a SerialSpeedReg value selects, after the data sheet:
      BR_T0 = bits 7..5, BR_T1 = bits 4..0; the divider is BR_T1 + 1 when
      BR_T0 is 0 and (BR_T1 + 33) * 2^(BR_T0 - 1) otherwise. */
  function SerialDivider(v: byte): (d: int)
    ensures d >= 1
  {
    var t0 := (v >> 5) as int;
    var t1 := (v & 0x1F) as int;
    if t0 == 0 then t1 + 1 else (t1 + 33) * Shift(t0 - 1)
  }

  function Shift(n: nat): (p: int)
    ensures p >= 1
  {
    if n == 0 then 1 else 2 * Shift(n - 1)
  }

  /** Every entry of the table selects a rate within 1.5 % of the rate it is
      listed under. */
  lemma BaudTableRates(speed: int)
    requires speed in BaudRegValue
    ensures var d := SerialDivider(BaudRegValue[speed]);
      -15 * speed * d <= 1000 * (ClockHz - speed * d) <= 15 * speed * d
  {
    assert Shift(0) == 1 && Shift(1) == 2 && Shift(2) == 4 && Shift(3) == 8;
    assert Shift(4) == 16 && Shift(5) == 32 && Shift(6) == 64;
  }

  /** The table lists exactly these twelve rates, 9600 among them. */
  lemma BaudTableDomain()
    ensures BaudRegValue.Keys == {7200, 9600, 14400, 19200, 38400, 57600, 115200, 128000, 230400, 460800, 921600, 1228800}
    ensures DefaultBaudRate in BaudRegValue
  {
  }

  /** The request for `count` reads of `reg`: the address with bit 7 set,
      once per value. */
  function ReadRequest(reg: byte, count: nat): (req: seq<byte>)
    requires reg <= 0x3F
    ensures |req| == count
    ensures forall i :: 0 <= i < count ==> req[i] & 0x80 == 0x80 && req[i] & 0x7F == reg
  {
    seq(count, _ => reg | 0x80)
  }

  /** The write request for `data` to `reg`: the address before every value. */
  function WriteFrame(reg: byte, data: seq<byte>): (f: seq<byte>)
    ensures |f| == 2 * |data|
    ensures data != [] ==> f[..2] == [reg, data[0]]
  {
    if data == [] then [] else [reg, data[0]] + WriteFrame(reg, data[1..])
  }

  /** The values a write request carries: its odd positions. */
  function WriteValues(req: seq<byte>): seq<byte>
  {
    if |req| < 2 then [] else [req[1]] + WriteValues(req[2..])
  }

  /** A write request alternates the address and the values. */
  lemma {:induction false} WriteFrameLayout(reg: byte, data: seq<byte>)
    ensures |WriteFrame(reg, data)| == 2 * |data|
    ensures forall i :: 0 <= i < |data| ==>
      WriteFrame(reg, data)[2 * i] == reg && WriteFrame(reg, data)[2 * i + 1] == data[i]
  {
    if data != [] {
      WriteFrameLayout(reg, data[1..]);
      var f := WriteFrame(reg, data);
      var tail := WriteFrame(reg, data[1..]);
      assert f == [reg, data[0]] + tail;
      forall i | 1 <= i < |data|
        ensures f[2 * i] == reg && f[2 * i + 1] == data[i]
      {
        var j := i - 1;
        assert data[1..][j] == data[i];
        assert f[2 * j + 2] == tail[2 * j] && f[2 * j + 3] == tail[2 * j + 1];
      }
    }
  }

  /** The values can be read back from a write request. */
  lemma {:induction false} WriteFrameValues(reg: byte, data: seq<byte>)
    ensures WriteValues(WriteFrame(reg, data)) == data
  {
    if data != [] {
      WriteFrameValues(reg, data[1..]);
      var f := WriteFrame(reg, data);
      assert f == [reg, data[0]] + WriteFrame(reg, data[1..]);
      assert f[2..] == WriteFrame(reg, data[1..]);
    }
  }

  /** The acknowledgement the PCD gives for n written values: the address n
      times. */
  function AckExpected(reg: byte, n: nat): (ack: seq<byte>)
    ensures |ack| == n && forall i :: 0 <= i < n ==> ack[i] == reg
  {
    seq(n, _ => reg)
  }

  /** Builds the write request with one appending pass over `data`. */
  method WriteRequest(reg: byte, data: seq<byte>) returns (req: seq<byte>)
    ensures req == WriteFrame(reg, data)
  {
    req := [];
    var i := 0;
    while i < |data|
      invariant 0 <= i <= |data|
      invariant req + WriteFrame(reg, data[i..]) == WriteFrame(reg, data)
    {
      assert data[i..][1..] == data[i + 1..];
      AppendAssoc(req, [reg, data[i]], WriteFrame(reg, data[i + 1..]));
      req := req + [reg, data[i]];
      i := i + 1;
    }
    assert data[i..] == [];
  }

  /** The host end of the serial line: the bytes the PCD has sent and the
      host has not read yet, the bytes the host has written, and the line
      rate. */
  class Rc522Uart {
    var input: seq<byte>
    var output: seq<byte>
    var baudRate: int

    constructor (input: seq<byte>, speed: int)
      ensures this.input == input && output == [] && baudRate == speed
    {
      this.input := input;
      output := [];
      baudRate := speed;
    }

    /** A read of up to `count` bytes: it returns fewer when the PCD has sent
      fewer before the port's timeout. */
    method Read(count: nat) returns (data: seq<byte>)
      modifies this`input
      ensures var n := if count <= |old(input)| then count else |old(input)|;
        data == old(input)[..n] && input == old(input)[n..]
    {
      var n := if count <= |input| then count else |input|;
      data := input[..n];
      input := input[n..];
    }

    method RegReadBulk(reg: byte, count: nat) returns (r: Result<seq<byte>>)
      requires reg <= 0x3F
      modifies this`input, this`output
      ensures output == old(output) + ReadRequest(reg, count)
      ensures count <= |old(input)| ==> r == Ok(old(input)[..count]) && input == old(input)[count..]
      ensures count > |old(input)| ==> r == Err(ReadFailed) && input == []
    {
      output := output + ReadRequest(reg, count);
      var data := Read(count);
      if |data| != count {
        return Err(ReadFailed);
      }
      r := Ok(data);
    }

    method RegRead(reg: byte) returns (r: Result<byte>)
      requires reg <= 0x3F
      modifies this`input, this`output
      ensures output == old(output) + [reg | 0x80]
      ensures old(input) != [] ==> r == Ok(old(input)[0]) && input == old(input)[1..]
      ensures old(input) == [] ==> r == Err(ReadFailed) && input == []
    {
      var data := RegReadBulk(reg, 1);
      if data.Err? {
        return Err(data.error);
      }
      r := Ok(data.value[0]);
    }

    /** Writes `data` to `reg` and checks that the PCD acknowledged every
      value with the address. */
    method RegWriteBulk(reg: byte, data: seq<byte>) returns (r: Result<()>)
      requires reg <= 0x3F
      modifies this`input, this`output
      ensures output == old(output) + WriteFrame(reg, data)
      ensures var n := if |data| <= |old(input)| then |data| else |old(input)|;
        && input == old(input)[n..]
        && (r.Ok? <==> old(input)[..n] == AckExpected(reg, |data|))
        && (r.Err? ==> r.error == Reader("Incorrect write acknowledgement from PCD"))
    {
      var req := WriteRequest(reg, data);
      output := output + req;
      var ack := Read(|data|);
      if ack != AckExpected(reg, |data|) {
        return Err(Reader("Incorrect write acknowledgement from PCD"));
      }
      r := Ok(());
    }

    method RegWrite(reg: byte, value: byte) returns (r: Result<()>)
      requires reg <= 0x3F
      modifies this`input, this`output
      ensures output == old(output) + [reg, value]
      ensures old(input) != [] ==> input == old(input)[1..] && (r.Ok? <==> old(input)[0] == reg)
      ensures old(input) == [] ==> input == [] && r.Err?
      ensures r.Err? ==> r.error == Reader("Incorrect write acknowledgement from PCD")
    {
      r := RegWriteBulk(reg, [value]);
      assert WriteFrame(reg, [value]) == [reg, value];
    }

    /** Switches the PCD and then the host to another line rate; a rate
      outside the table is refused before anything is written. */
    method ChangeBaudRate(speed: int) returns (r: Result<()>)
      modifies this`input, this`output, this`baudRate
      ensures speed !in BaudRegValue ==>
        && r == Err(Reader("Unsupported baudrate " + IntString(speed)))
        && input == old(input) && output == old(output) && baudRate == old(baudRate)
      ensures speed in BaudRegValue ==>
        && output == old(output) + [Rc522.SerialSpeedReg, BaudRegValue[speed]]
        && (old(input) != [] ==> input == old(input)[1..])
        && (r.Ok? <==> old(input) != [] && old(input)[0] == Rc522.SerialSpeedReg)
        && baudRate == (if r.Ok? then speed else old(baudRate))
    {
      if speed !in BaudRegValue {
        return Err(Reader("Unsupported baudrate " + IntString(speed)));
      }
      r := RegWrite(Rc522.SerialSpeedReg, BaudRegValue[speed]);
      if r.Ok? {
        baudRate := speed;
      }
    }
  }
}
