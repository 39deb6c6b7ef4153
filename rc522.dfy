/** The RC522 protocol engine of py522/reader/rc522.py, over an abstract
    register environment: `script` holds the values the chip returns to the
    driver's register reads, in order, and `log` records every register access
    the driver makes. */
module Rc522 {
  import opened Common
  import opened Iso14443

  // The register addresses and command codes the driver uses (datasheet names).
  const CommandReg: byte := 0x01
  const ComIrqReg: byte := 0x04
  const FifoDataReg: byte := 0x09
  const FifoLevelReg: byte := 0x0A
  const BitFramingReg: byte := 0x0D
  const CollReg: byte := 0x0E
  const ModeReg: byte := 0x11
  const TxModeReg: byte := 0x12
  const RxModeReg: byte := 0x13
  const TxControlReg: byte := 0x14
  const TxAskReg: byte := 0x15
  const SerialSpeedReg: byte := 0x1F
  const VersionReg: byte := 0x37

  /** Command codes occupy the low four bits of CommandReg. */
  type CommandCode = c: byte | c < 16

  const CmdIdle: CommandCode := 0x0
  const CmdTransmit: CommandCode := 0x4
  const CmdReceive: CommandCode := 0x8
  const CmdTransceive: CommandCode := 0xC
  const CmdMfAuth: CommandCode := 0xE
  const CmdSoftReset: CommandCode := 0xF

  /** ComIrqReg bits polled for a received and a sent frame. */
  const RxIrq: byte := 0x20
  const TxIrq: byte := 0x40
  /** How often the IRQ register is polled before giving up. */
  const MaxPolls: nat := 4

  const TxTimeout := Reader("Timed out while waiting for datagram transmission")
  const PowerDownFault := Reader("PCD has not left powerdown mode after reset")

  datatype Version = Unknown | MfRc522V1 | MfRc522V2 | Fm17522

  /** One register access of the driver: the data a read returned, or the
      data a write sent (a single-register write sends one byte). */
  datatype Access = Read(reg: byte, data: seq<byte>) | Write(reg: byte, data: seq<byte>)

  /** What the driver sent over the air: a bit-framed transceive with its
      BitFramingReg value, a full-byte transceive, or a transmission. */
  datatype Exchange =
    | BitFrame(data: seq<byte>, framing: byte)
    | ByteFrame(data: seq<byte>)
    | Transmission(data: seq<byte>)

  /** The value written to CommandReg to start `cmd`: RcvOff (bit 5) is set
      except for the commands that need the receiver. */
  function CommandValue(cmd: CommandCode): (v: byte)
    ensures v & 0x0F == cmd && v & 0xD0 == 0
    ensures v & 0x20 == 0 <==> (cmd == CmdReceive || cmd == CmdTransceive || cmd == CmdMfAuth)
  {
    var rcvOff: byte := if cmd == CmdReceive || cmd == CmdTransceive || cmd == CmdMfAuth then 0 else 1;
    cmd | (rcvOff << 5)
  }

  /** The TxModeReg / RxModeReg value that switches CRC generation or
      checking on or off. */
  function CrcValue(enable: bool): byte
  {
    if enable then 0x80 else 0x00
  }

  /** The write a memoised CRC switch makes: none when the cache already
      holds the requested state. */
  function CrcWrites(reg: byte, cached: Option<bool>, enable: bool): (w: seq<Access>)
    ensures |w| <= 1
    ensures w == [] <==> cached == Some(enable)
    ensures w != [] ==> w[0] == Write(reg, [if enable then 0x80 else 0x00])
  {
    if cached == Some(enable) then [] else [Write(reg, [CrcValue(enable)])]
  }

  /** Switching a CRC flag twice the same way writes its register at most
      once: the first call leaves the cache at the requested state, so the
      second writes nothing. */
  lemma CrcWritesTwice(reg: byte, cached: Option<bool>, enable: bool)
    ensures CrcWrites(reg, cached, enable) + CrcWrites(reg, Some(enable), enable) == CrcWrites(reg, cached, enable)
    ensures |CrcWrites(reg, cached, enable) + CrcWrites(reg, Some(enable), enable)| <= 1
  {
    assert CrcWrites(reg, Some(enable), enable) == [];
  }

  /** What the CRC cache says was last written to its mode register. */
  function CachedWrite(cached: Option<bool>): Option<seq<byte>>
  {
    if cached.None? then None else Some([CrcValue(cached.value)])
  }

  /** Successive single-byte reads of `reg` that returned `values`. */
  function Polls(reg: byte, values: seq<byte>): seq<Access>
  {
    seq(|values|, i requires 0 <= i < |values| => Read(reg, [values[i]]))
  }

  lemma SliceStep<T>(s: seq<T>, x: nat)
    requires x <= |s|
    ensures x < |s| ==> s[x..] != [] && s[x..][0] == s[x] && s[x..][1..] == s[x + 1..]
    ensures x == |s| ==> s[x..] == [] && s[..x] == s
  {
  }

  lemma ReadyStep(s: seq<byte>, mask: byte, x: nat)
    requires x < MaxPolls && x < |s|
    ensures ReadyFrom(s, mask, MaxPolls, x) == if s[x] & mask != 0 then x else ReadyFrom(s, mask, MaxPolls, x + 1)
  {
  }

  /** The reads a PollIrq call makes, and what it returns. */
  function PollCount(s: seq<byte>, mask: byte): nat
  {
    var n := FirstReady(s, mask, MaxPolls);
    if n < MaxPolls && n < |s| then n + 1 else n
  }

  function PollResult(s: seq<byte>, mask: byte): Result<bool>
  {
    var n := FirstReady(s, mask, MaxPolls);
    if n < MaxPolls && n < |s| then Ok(true) else if n == MaxPolls then Ok(false) else Err(ReadFailed)
  }

  /** Where the polling loop stops: on a read showing the bit, on a missing
      read, or after MaxPolls reads, with PollCount and PollResult saying so. */
  lemma PollStops(s: seq<byte>, mask: byte, x: nat)
    requires x <= MaxPolls && x <= |s| && FirstReady(s, mask, MaxPolls) == ReadyFrom(s, mask, MaxPolls, x)
    ensures x < MaxPolls && x < |s| && s[x] & mask != 0 ==> PollCount(s, mask) == x + 1 && PollResult(s, mask) == Ok(true)
    ensures x < MaxPolls && x == |s| ==> PollCount(s, mask) == x && PollResult(s, mask) == Err(ReadFailed) && s[..x] == s
    ensures x == MaxPolls ==> PollCount(s, mask) == x && PollResult(s, mask) == Ok(false)
  {
  }

  lemma PollsSnoc(reg: byte, s: seq<byte>, x: nat)
    requires x < |s|
    ensures Polls(reg, s[..x + 1]) == Polls(reg, s[..x]) + [Read(reg, [s[x]])]
  {
    assert forall i :: 0 <= i < x ==> Polls(reg, s[..x + 1])[i] == Polls(reg, s[..x])[i];
  }

  /** The full-byte transceives among the exchanges, in order. */
  function ByteFrames(xs: seq<Exchange>): seq<seq<byte>>
  {
    if xs == [] then []
    else ByteFrames(xs[..|xs| - 1]) + (if xs[|xs| - 1].ByteFrame? then [xs[|xs| - 1].data] else [])
  }

  lemma ByteFramesSnoc(xs: seq<Exchange>, x: Exchange)
    ensures ByteFrames(xs + [x]) == ByteFrames(xs) + (if x.ByteFrame? then [x.data] else [])
  {
    assert (xs + [x])[..|xs|] == xs;
  }

  /** The number of IRQ polls before the first value of `s` with a bit of
      `mask` set, within `budget` polls and the values available, counting
      from poll i on. */
  function ReadyFrom(s: seq<byte>, mask: byte, budget: nat, i: nat): (n: nat)
    requires i <= budget && i <= |s|
    ensures i <= n <= budget && n <= |s|
    ensures forall j :: i <= j < n ==> s[j] & mask == 0
    ensures n < budget && n < |s| ==> s[n] & mask != 0
    decreases budget - i
  {
    if i == budget || i == |s| || s[i] & mask != 0 then i
    else ReadyFrom(s, mask, budget, i + 1)
  }

  function FirstReady(s: seq<byte>, mask: byte, budget: nat): nat
  {
    ReadyFrom(s, mask, budget, 0)
  }

  /** The effect of a read-side operation on the script: its result, the
      accesses it logs and the script values left afterwards. */
  datatype Effect<T> = Effect(result: Result<T>, accesses: seq<Access>, rest: seq<byte>)

  /** Polling ComIrqReg for a bit of `mask`: at most MaxPolls reads; when none
      of them shows the bit, the FIFO is flushed and `timeout` raised. */
  function WaitSpec(s: seq<byte>, mask: byte, timeout: Error): (e: Effect<()>)
    ensures e.result.Err? ==> e.result.error == timeout || e.result.error == ReadFailed
    ensures |e.rest| <= |s| && e.rest == s[|s| - |e.rest|..]
  {
    var n := FirstReady(s, mask, MaxPolls);
    if n < MaxPolls && n < |s| then Effect(Ok(()), Polls(ComIrqReg, s[..n + 1]), s[n + 1..])
    else if n == MaxPolls then
      Effect(Err(timeout), Polls(ComIrqReg, s[..n]) + [Write(FifoLevelReg, [0x80])], s[n..])
    else Effect(Err(ReadFailed), Polls(ComIrqReg, s), [])
  }

  /** The wait succeeds exactly when one of the first MaxPolls reads shows the
      bit, and stops at that read; it times out, after exactly MaxPolls reads
      and a FIFO flush, exactly when MaxPolls reads all show it clear; it never
      makes more than MaxPolls reads. */
  lemma WaitSpecPolls(s: seq<byte>, mask: byte, timeout: Error)
    requires timeout != ReadFailed
    ensures WaitSpec(s, mask, timeout).result.Ok? <==>
      exists i :: 0 <= i < MaxPolls && i < |s| && s[i] & mask != 0
    ensures WaitSpec(s, mask, timeout).result.Ok? ==>
      var n := FirstReady(s, mask, MaxPolls);
      n < MaxPolls && n < |s| && s[n] & mask != 0 &&
        (forall i :: 0 <= i < n ==> s[i] & mask == 0) &&
        WaitSpec(s, mask, timeout).accesses == Polls(ComIrqReg, s[..n + 1])
    ensures WaitSpec(s, mask, timeout).result == Err(timeout) <==>
      |s| >= MaxPolls && forall i :: 0 <= i < MaxPolls ==> s[i] & mask == 0
    ensures WaitSpec(s, mask, timeout).result == Err(timeout) ==>
      WaitSpec(s, mask, timeout).accesses == Polls(ComIrqReg, s[..MaxPolls]) + [Write(FifoLevelReg, [0x80])]
    ensures |WaitSpec(s, mask, timeout).accesses| <= MaxPolls + 1
  {
    var n := FirstReady(s, mask, MaxPolls);
    var e := WaitSpec(s, mask, timeout);
    if n < MaxPolls && n < |s| {
      assert e.result.Ok? && e.accesses == Polls(ComIrqReg, s[..n + 1]);
    } else if n == MaxPolls {
      assert e.result == Err(timeout) && e.accesses == Polls(ComIrqReg, s[..n]) + [Write(FifoLevelReg, [0x80])];
    } else {
      assert e.result == Err(ReadFailed) && e.accesses == Polls(ComIrqReg, s);
    }
  }

  /** Draining the FIFO: FIFOLevelReg masked to its 7 level bits gives the
      number of bytes that one bulk read of FIFODataReg then returns. */
  function FifoSpec(s: seq<byte>): (e: Effect<seq<byte>>)
    ensures e.result.Ok? ==> |s| > 0 && |e.result.value| == (s[0] & 0x7F) as int <= 127
    ensures e.result.Ok? ==> 1 + |e.result.value| <= |s| && e.result.value == s[1..1 + |e.result.value|]
    ensures e.result.Err? ==> e.result.error == ReadFailed
    ensures e.result.Ok? <==> |s| > 0 && (s[0] & 0x7F) as int < |s|
  {
    if s == [] then Effect(Err(ReadFailed), [], s)
    else
      var count := (s[0] & 0x7F) as int;
      if count <= |s| - 1 then
        Effect(Ok(s[1..1 + count]), [Read(FifoLevelReg, [s[0]]), Read(FifoDataReg, s[1..1 + count])], s[1 + count..])
      else Effect(Err(ReadFailed), [Read(FifoLevelReg, [s[0]])], s[1..])
  }

  /** FifoSpec in the terms of a level read followed by a bulk read. */
  lemma FifoSteps(s: seq<byte>)
    ensures s == [] ==> FifoSpec(s) == Effect(Err(ReadFailed), [], s)
    ensures s != [] && (s[0] & 0x7F) as int <= |s[1..]| ==>
      var c := (s[0] & 0x7F) as int;
      FifoSpec(s) == Effect(Ok(s[1..][..c]), [Read(FifoLevelReg, [s[0]]), Read(FifoDataReg, s[1..][..c])], s[1..][c..])
    ensures s != [] && (s[0] & 0x7F) as int > |s[1..]| ==>
      FifoSpec(s) == Effect(Err(ReadFailed), [Read(FifoLevelReg, [s[0]])], s[1..])
  {
    if s != [] {
      var c := (s[0] & 0x7F) as int;
      if c <= |s[1..]| {
        assert s[1..][..c] == s[1..1 + c] && s[1..][c..] == s[1 + c..];
      }
    }
  }


  /** The reads of a full-byte transceive after the frame is started: wait
      for the receive IRQ, then drain the FIFO. */
  function ReceiveSpec(s: seq<byte>): (e: Effect<seq<byte>>)
    ensures e.result.Err? ==> e.result.error == NoReply || e.result.error == ReadFailed
  {
    var w := WaitSpec(s, RxIrq, NoReply);
    if w.result.Err? then Effect(Err(w.result.error), w.accesses, w.rest)
    else
      var f := FifoSpec(w.rest);
      Effect(f.result, w.accesses + f.accesses, f.rest)
  }

  /** The reads of a bit-framed transceive: wait for the receive IRQ, read
      CollReg, then drain the FIFO. */
  function ReceiveBitsSpec(s: seq<byte>): (e: Effect<(seq<byte>, Option<int>)>)
    ensures e.result.Err? ==> e.result.error == NoReply || e.result.error == ReadFailed
  {
    var w := WaitSpec(s, RxIrq, NoReply);
    if w.result.Err? then Effect(Err(w.result.error), w.accesses, w.rest)
    else if w.rest == [] then Effect(Err(ReadFailed), w.accesses, [])
    else
      var c := w.rest[0];
      var f := FifoSpec(w.rest[1..]);
      Effect(if f.result.Ok? then Ok((f.result.value, CollisionPosition(c))) else Err(f.result.error),
             w.accesses + [Read(CollReg, [c])] + f.accesses, f.rest)
  }

  /** The writes that load a frame: stop the running command, clear the IRQ
      flags and bulk-write the frame into the FIFO. */
  function PrepareWrites(request: seq<byte>): seq<Access>
  {
    [Write(CommandReg, [CommandValue(CmdIdle)]), Write(ComIrqReg, [0x7F]), Write(FifoDataReg, request)]
  }

  /** The bytes of `request` a bit-framed transceive sends, and the
      BitFramingReg value that starts it: StartSend, RxAlign, TxLastBits. */
  function BitsRequest(request: seq<byte>, bitlen: Option<nat>): (r: seq<byte>)
    ensures r <= request
    ensures bitlen.None? ==> r == request
    ensures bitlen.Some? ==> 8 * |r| >= bitlen.value || r == request
    ensures bitlen.Some? && r != [] ==> 8 * (|r| - 1) < bitlen.value
  {
    if bitlen.None? then request
    else
      var fullBytes := (bitlen.value + 7) / 8;
      request[..if fullBytes <= |request| then fullBytes else |request|]
  }

  function BitFramingValue(bitlen: Option<nat>, rxAlign: byte): (v: byte)
    requires rxAlign < 8
    ensures v & 0x80 == 0x80 && (v >> 4) & 0x07 == rxAlign && v & 0x08 == 0
    ensures bitlen.None? ==> v & 0x07 == 0
    ensures bitlen.Some? ==> (v & 0x07) as int == bitlen.value % 8
  {
    var trailing: byte := if bitlen.None? then 0 else (bitlen.value % 8) as byte;
    0x80 | (rxAlign << 4) | trailing
  }

  /** The chip version a VersionReg value stands for. */
  function VersionOf(id: byte): (v: Version)
    ensures v == Unknown <==> id != 0x91 && id != 0x92 && id != 0x88
    ensures v == MfRc522V1 <==> id == 0x91
    ensures v == MfRc522V2 <==> id == 0x92
  {
    if id == 0x91 then MfRc522V1
    else if id == 0x92 then MfRc522V2
    else if id == 0x88 then Fm17522
    else Unknown
  }

  /** The command buffer at the start of cascade level ct: its select code
      and no UID bits known. */
  function LevelStart(ct: nat): (a: seq<byte>)
    requires 1 <= ct <= 3
    ensures |a| == 7 && a[0] == SelectCode(ct) && a[1..] == [0, 0, 0, 0, 0, 0]
  {
    [SelectCode(ct), 0, 0, 0, 0, 0, 0]
  }

  /** The buffer of the anticollision pass at g known bits: NVB in byte 1. */
  function PassFrame(a: seq<byte>, g: nat): seq<byte>
    requires |a| == 7 && g < LevelBits
  {
    a[1 := Nvb(g)]
  }

  /** The bytes that pass sends (its first 16 + g bits) and its BitFramingReg
      value (RxAlign = g mod 8). */
  function PassSent(a: seq<byte>, g: nat): seq<byte>
    requires |a| == 7 && g < LevelBits
  {
    BitsRequest(PassFrame(a, g), Some(16 + g))
  }

  function PassFraming(g: nat): byte
    requires g < LevelBits
  {
    BitFramingValue(Some(16 + g), (g % 8) as byte)
  }

  lemma RxAlignSmall(g: nat)
    ensures (g % 8) as byte < 8
  {
  }

  /** The register accesses of that pass, when the chip's answers start with s. */
  function PassAccesses(a: seq<byte>, g: nat, s: seq<byte>): seq<Access>
    requires |a| == 7 && g < LevelBits
  {
    PrepareWrites(PassSent(a, g)) + [Write(CommandReg, [CommandValue(CmdTransceive)])]
      + [Write(BitFramingReg, [PassFraming(g)])] + ReceiveBitsSpec(s).accesses
  }

  /** The outcome of an anticollision walk: the resolved buffer or the error,
      the register accesses, the frames sent and the script values left. */
  datatype Walked = Walked(result: Result<seq<byte>>, accesses: seq<Access>, frames: seq<Exchange>, rest: seq<byte>)

  /** The anticollision walk of one cascade level from buffer a and g known
      bits, against the chip's answers s: pass after pass until all 40 bits
      are known, each answer merged into the buffer. */
  function Walk(a: seq<byte>, g: nat, s: seq<byte>): (w: Walked)
    requires |a| == 7 && g <= LevelBits
    ensures w.result.Ok? ==> |w.result.value| == 7 && w.result.value[0] == a[0]
    ensures w.result.Err? ==> w.result.error in {NoReply, ReadFailed, IndexError}
    decreases LevelBits - g
  {
    if g == LevelBits then Walked(Ok(a), [], [], s)
    else
      var rx := ReceiveBitsSpec(s);
      var acc := PassAccesses(a, g, s);
      var x := [BitFrame(PassSent(a, g), PassFraming(g))];
      if rx.result.Err? then Walked(Err(rx.result.error), acc, x, rx.rest)
      else
        var step := WalkStep(g, rx.result.value.0, rx.result.value.1);
        if step.Err? then Walked(Err(step.error), acc, x, rx.rest)
        else
          var next := Walk(Merged(PassFrame(a, g), step.value.data, step.value.lo, step.value.hi), step.value.good, rx.rest);
          Walked(next.result, acc + next.accesses, x + next.frames, next.rest)
  }

  /** An anticollision frame as ISO/IEC 14443-3 wants it: the select code,
      then an NVB that counts exactly the bits sent, and TxLastBits and
      RxAlign both the number of bits in the last, partial byte. */
  predicate AnticolFrame(ct: nat, x: Exchange)
    requires 1 <= ct <= 3
  {
    && x.BitFrame? && 2 <= |x.data| <= 7 && x.data[0] == SelectCode(ct)
    && var bits := 8 * ((x.data[1] >> 4) as int) + (x.data[1] & 0x0F) as int;
       && 16 <= bits < 16 + LevelBits && |x.data| == (bits + 7) / 8
       && x.framing & 0x80 == 0x80
       && (x.framing & 0x07) as int == bits % 8 && ((x.framing >> 4) & 0x07) as int == bits % 8
  }

  /** What a scan step leaves: its result and the script values left. */
  datatype Outcome<T> = Outcome(result: Result<T>, rest: seq<byte>)

  /** One cascade level of a scan against the chip's answers s: the walk,
      the BCC check of the resolved buffer, and the SELECT exchange. */
  function LevelSpec(ct: nat, s: seq<byte>): (o: Outcome<seq<byte>>)
    requires 1 <= ct <= 3
    ensures o.result.Ok? ==> |o.result.value| == 7 && o.result.value[0] == SelectCode(ct)
    ensures o.result.Err? && o.result.error.InvalidBcc? ==> o.result.error.expected != o.result.error.calculated
  {
    var w := Walk(LevelStart(ct), 0, s);
    if w.result.Err? then Outcome(Err(w.result.error), w.rest)
    else LevelFinish(w.result.value, w.rest)
  }

  /** What follows the walk of one level: the BCC check of the resolved
      buffer a and the answer s gives to the SELECT of its four bytes. */
  function LevelFinish(a: seq<byte>, s: seq<byte>): (o: Outcome<seq<byte>>)
    requires |a| == 7
    ensures o.result.Ok? ==> o.result.value == a && a[6] == Bcc(a[2..6])
    ensures o.result.Err? ==> o.result.error in {InvalidBcc(a[6], Bcc(a[2..6])), NoReply, ReadFailed}
    ensures (o.result.Err? && o.result.error.InvalidBcc?) <==> a[6] != Bcc(a[2..6])
  {
    var calculated := Bcc(a[2..6]);
    if calculated != a[6] then Outcome(Err(InvalidBcc(a[6], calculated)), s)
    else
      var t := ReceiveSpec(s);
      Outcome(if t.result.Ok? then Ok(a) else Err(t.result.error), t.rest)
  }

  /** The cascade levels of a scan from level ct on, with the UID bytes known
      so far. */
  function ScanLevelsSpec(ct: nat, known: seq<byte>, s: seq<byte>): (o: Outcome<seq<byte>>)
    requires 1 <= ct <= 3 && |known| == 3 * (ct - 1)
    ensures o.result.Err? && o.result.error.InvalidBcc? ==> o.result.error.expected != o.result.error.calculated
    ensures o.result.Ok? ==> |o.result.value| in {4, 7, 10} && known <= o.result.value
    ensures o.result.Ok? && |o.result.value| == 4 ==> o.result.value[0] != CascadeTag
    ensures o.result.Ok? && |o.result.value| == 7 ==> o.result.value[3] != CascadeTag
    decreases 3 - ct, 1
  {
    CascadeStep(ct, known, LevelSpec(ct, s))
  }

  /** What follows the outcome l of level ct: its error, or the UID once the
      level's first byte is not the cascade tag or the level is 3, or else
      the levels after it with the three UID bytes it contributed. */
  function CascadeStep(ct: nat, known: seq<byte>, l: Outcome<seq<byte>>): (o: Outcome<seq<byte>>)
    requires 1 <= ct <= 3 && |known| == 3 * (ct - 1)
    requires l.result.Ok? ==> |l.result.value| == 7
    requires l.result.Err? && l.result.error.InvalidBcc? ==> l.result.error.expected != l.result.error.calculated
    ensures o.result.Err? && o.result.error.InvalidBcc? ==> o.result.error.expected != o.result.error.calculated
    ensures o.result.Ok? ==> |o.result.value| in {4, 7, 10} && known <= o.result.value
    ensures o.result.Ok? && |o.result.value| == 4 ==> o.result.value[0] != CascadeTag
    ensures o.result.Ok? && |o.result.value| == 7 ==> o.result.value[3] != CascadeTag
    decreases 3 - ct, 0
  {
    if l.result.Err? then Outcome(Err(l.result.error), l.rest)
    else
      var a := l.result.value;
      if a[2] != CascadeTag || ct == 3 then
        var uid := known + a[2..6];
        assert |uid| == 3 * ct + 1 && uid[3 * (ct - 1)] == a[2] && known <= uid;
        Outcome(Ok(uid), l.rest)
      else ScanLevelsSpec(ct + 1, known + a[3..6], l.rest)
  }

  /** A whole scan against the chip's answers s: the REQA/WUPA exchange, then
      the cascade levels. */
  function ScanSpec(s: seq<byte>): (o: Outcome<seq<byte>>)
    ensures o.result.Err? && o.result.error.InvalidBcc? ==> o.result.error.expected != o.result.error.calculated
  {
    var q := ReceiveBitsSpec(s);
    if q.result.Err? then Outcome(Err(q.result.error), q.rest)
    else ScanLevelsSpec(1, [], q.rest)
  }

  /** The register accesses of a full-byte transceive of `request` when the
      CRC cache holds (tx, rx) and the chip's answers are s: the frame load,
      the CRC switches the cache does not already hold, Transceive with
      StartSend, then the wait and the FIFO drain. */
  function TransceiveAccesses(request: seq<byte>, tx: Option<bool>, rx: Option<bool>, s: seq<byte>): seq<Access>
  {
    PrepareWrites(request) + CrcWrites(TxModeReg, tx, true) + CrcWrites(RxModeReg, rx, true)
      + [Write(CommandReg, [CommandValue(CmdTransceive)])] + [Write(BitFramingReg, [0x80])]
      + ReceiveSpec(s).accesses
  }

  /** The register accesses of a REQA/WUPA request from CRC cache (tx, rx):
      CRC off, then the 7-bit frame and its reads. */
  function RequestAccesses(command: byte, tx: Option<bool>, rx: Option<bool>, s: seq<byte>): seq<Access>
  {
    CrcWrites(TxModeReg, tx, false) + CrcWrites(RxModeReg, rx, false)
      + PrepareWrites([command]) + [Write(CommandReg, [CommandValue(CmdTransceive)])]
      + [Write(BitFramingReg, [BitFramingValue(Some(7), 0)])] + ReceiveBitsSpec(s).accesses
  }

  /** The register accesses after the walk of level ct resolved buffer a:
      none when the BCC check fails, else the SELECT of its four bytes. */
  function FinishAccesses(ct: nat, a: seq<byte>, tx: Option<bool>, rx: Option<bool>, s: seq<byte>): seq<Access>
    requires 1 <= ct <= 3 && |a| == 7
  {
    if Bcc(a[2..6]) != a[6] then [] else TransceiveAccesses(SelectFrame(ct, a[2..6]), tx, rx, s)
  }

  /** The end of a cascade level, by whether the buffer's check byte is the
      BCC of its four UID bytes. */
  lemma FinishChecks(ct: nat, a: seq<byte>, tx: Option<bool>, rx: Option<bool>, s: seq<byte>)
    requires 1 <= ct <= 3 && |a| == 7
    ensures Bcc(a[2..6]) == a[2] ^ a[3] ^ a[4] ^ a[5]
    ensures Bcc(a[2..6]) != a[6] ==> LevelFinish(a, s) == Outcome(Err(InvalidBcc(a[6], Bcc(a[2..6]))), s)
    ensures Bcc(a[2..6]) != a[6] ==> FinishAccesses(ct, a, tx, rx, s) == []
    ensures Bcc(a[2..6]) == a[6] ==>
      var t := ReceiveSpec(s);
      && LevelFinish(a, s) == Outcome(if t.result.Ok? then Ok(a) else Err(t.result.error), t.rest)
      && FinishAccesses(ct, a, tx, rx, s) == TransceiveAccesses(SelectFrame(ct, a[2..6]), tx, rx, s)
  {
  }

  /** The register accesses of cascade level ct from CRC cache (tx, rx): CRC
      off, the walk, and (when the walk resolves a buffer) what follows it;
      the walk leaves CRC off in the cache. */
  function LevelAccesses(ct: nat, tx: Option<bool>, rx: Option<bool>, s: seq<byte>): seq<Access>
    requires 1 <= ct <= 3
  {
    var w := Walk(LevelStart(ct), 0, s);
    CrcWrites(TxModeReg, tx, false) + CrcWrites(RxModeReg, rx, false) + w.accesses
      + (if w.result.Ok? then FinishAccesses(ct, w.result.value, Some(false), Some(false), w.rest) else [])
  }

  /** The register accesses of the cascade levels from level ct on; a level
      that goes on to the next one leaves CRC on in the cache. */
  function ScanLevelsAccesses(ct: nat, tx: Option<bool>, rx: Option<bool>, s: seq<byte>): seq<Access>
    requires 1 <= ct <= 3
    decreases 3 - ct
  {
    var l := LevelSpec(ct, s);
    LevelAccesses(ct, tx, rx, s)
      + (if l.result.Ok? && l.result.value[2] == CascadeTag && ct < 3
         then ScanLevelsAccesses(ct + 1, Some(true), Some(true), l.rest) else [])
  }

  /** The register accesses of a whole scan with request `command` from CRC
      cache (tx, rx); the request leaves CRC off in the cache. */
  function ScanAccesses(command: byte, tx: Option<bool>, rx: Option<bool>, s: seq<byte>): seq<Access>
  {
    var q := ReceiveBitsSpec(s);
    RequestAccesses(command, tx, rx, s)
      + (if q.result.Ok? then ScanLevelsAccesses(1, Some(false), Some(false), q.rest) else [])
  }

  /** The SELECT exchanges of `frames` in turn from CRC cache (tx, rx)
      against the chip's answers s: each frame is transceived with CRC on and
      the first answer that fails stops the sequence. */
  function SelectExchanges(frames: seq<seq<byte>>, tx: Option<bool>, rx: Option<bool>, s: seq<byte>): (e: Effect<()>)
    ensures e.result.Err? ==> e.result.error == NoReply || e.result.error == ReadFailed
    ensures frames == [] ==> e.accesses == [] && e.rest == s
    decreases |frames|, 1
  {
    if frames == [] then Effect(Ok(()), [], s) else SelectExchange(frames, tx, rx, s)
  }

  /** The SELECT exchange of the first of `frames`, then (when it is
      answered) those of the others with CRC on in the cache. */
  function SelectExchange(frames: seq<seq<byte>>, tx: Option<bool>, rx: Option<bool>, s: seq<byte>): (e: Effect<()>)
    requires frames != []
    decreases |frames|, 0
  {
    var t := ReceiveSpec(s);
    var sent := TransceiveAccesses(frames[0], tx, rx, s);
    if t.result.Err? then Effect(Err(t.result.error), sent, t.rest)
    else
      var next := SelectExchanges(frames[1..], Some(true), Some(true), t.rest);
      Effect(next.result, sent + next.accesses, next.rest)
  }

  /** Where a SELECT loop stands: the frames `done` sent after the frames
      `sent` (the chip has seen `frames`), the accesses `logged` after the log
      `base` (the log now `log`), and the effect `total` still reachable from
      level ct on with the UID bytes `rest`, CRC cache (tx, rx) and chip
      answers s. */
  ghost predicate SelectTrack(uid: seq<byte>, sent: seq<seq<byte>>, total: Effect<()>, base: seq<Access>,
                              done: seq<seq<byte>>, logged: seq<Access>, rest: seq<byte>, ct: nat,
                              frames: seq<seq<byte>>, log: seq<Access>, tx: Option<bool>, rx: Option<bool>, s: seq<byte>)
    requires |uid| in {4, 7, 10}
  {
    && SelectProgress(uid, done, rest, ct)
    && (ct >= 2 ==> tx == Some(true) && rx == Some(true))
    && frames == sent + done && log == base + logged
    && total.result == SelectExchanges(PendingFrames(rest, ct), tx, rx, s).result
    && total.rest == SelectExchanges(PendingFrames(rest, ct), tx, rx, s).rest
    && total.accesses == logged + SelectExchanges(PendingFrames(rest, ct), tx, rx, s).accesses
  }

  /** A SELECT loop that has used up the UID has sent all its frames and
      had the whole effect `total`, which succeeded. */
  lemma SelectTrackEnd(uid: seq<byte>, sent: seq<seq<byte>>, total: Effect<()>, base: seq<Access>,
                       done: seq<seq<byte>>, logged: seq<Access>, ct: nat,
                       frames: seq<seq<byte>>, log: seq<Access>, tx: Option<bool>, rx: Option<bool>, s: seq<byte>)
    requires |uid| in {4, 7, 10} && SelectTrack(uid, sent, total, base, done, logged, [], ct, frames, log, tx, rx, s)
    ensures frames == sent + SelectFrames(uid) && frames <= sent + SelectFrames(uid)
    ensures tx == Some(true) && rx == Some(true)
    ensures total.result == Ok(()) && total.rest == s && log == base + total.accesses
  {
    SelectProgressEnd(uid, done, ct);
    assert logged + [] == logged;
    PrefixRefl(frames);
  }

  /** The SELECT exchange of the first frame, then those of the others. */
  lemma ExchangesCons(f: seq<byte>, more: seq<seq<byte>>, tx: Option<bool>, rx: Option<bool>, s: seq<byte>)
    ensures var e := SelectExchanges([f] + more, tx, rx, s);
      var t := ReceiveSpec(s);
      var sent := TransceiveAccesses(f, tx, rx, s);
      var l := SelectExchanges(more, Some(true), Some(true), t.rest);
      if t.result.Err? then e.result == Err(t.result.error) && e.rest == t.rest && e.accesses == sent
      else e.result == l.result && e.rest == l.rest && e.accesses == sent + l.accesses
  {
    assert ([f] + more)[0] == f && ([f] + more)[1..] == more;
  }

  /** Re-selecting the card of UID `uid` from CRC cache (tx, rx) against the
      chip's answers s: REQA, then the SELECT of every level. */
  function SelectSpec(uid: seq<byte>, tx: Option<bool>, rx: Option<bool>, s: seq<byte>): (e: Effect<()>)
    requires |uid| in {4, 7, 10}
    ensures e.result.Err? ==> e.result.error == NoReply || e.result.error == ReadFailed
  {
    var q := ReceiveBitsSpec(s);
    var sent := RequestAccesses(ReqA, tx, rx, s);
    if q.result.Err? then Effect(Err(q.result.error), sent, q.rest)
    else
      var l := SelectExchanges(SelectFrames(uid), Some(false), Some(false), q.rest);
      Effect(l.result, sent + l.accesses, l.rest)
  }

  /** What a soft reset from script s0 and log log0 leaves: the command is
      started; an exhausted script fails the CommandReg read; a chip still in
      power-down (CommandReg bit 4) is an error after that read; otherwise the
      fixed configuration is written and the antenna switched on. */
  predicate SoftResetDone(s0: seq<byte>, log0: seq<Access>, r: Result<()>, s: seq<byte>, log: seq<Access>)
  {
    var start := Write(CommandReg, [CommandValue(CmdSoftReset)]);
    && (s0 == [] ==> r == Err(ReadFailed) && s == [] && log == log0 + [start])
    && (s0 != [] && s0[0] & 0x10 != 0 ==>
          r == Err(PowerDownFault) && s == s0[1..] && log == log0 + [start, Read(CommandReg, [s0[0]])])
    && (s0 != [] && s0[0] & 0x10 == 0 ==>
          r == Ok(()) && s == s0[1..]
          && log == log0 + [start, Read(CommandReg, [s0[0]]),
               Write(TxAskReg, [0x40]), Write(ModeReg, [0x3D]), Write(CollReg, [0x80]), Write(TxControlReg, [0x83])])
  }

  /** The RC522 reader: the register environment and the driver's memoised
      CRC flags (None until first written). */
  class RC522 {
    var script: seq<byte>
    var log: seq<Access>
    var txCrc: Option<bool>
    var rxCrc: Option<bool>
    /** What the driver has sent over the air, in order. */
    ghost var exchanges: seq<Exchange>
    /** The data of the last writes to TxModeReg and RxModeReg, if any. */
    ghost var txMode: Option<seq<byte>>
    ghost var rxMode: Option<seq<byte>>

    /** The CRC cache mirrors the last TxModeReg / RxModeReg writes. */
    ghost predicate Valid()
      reads this`txMode, this`rxMode, this`txCrc, this`rxCrc
    {
      txMode == CachedWrite(txCrc) && rxMode == CachedWrite(rxCrc)
    }

    constructor (script: seq<byte>)
      ensures Valid()
      ensures this.script == script && log == [] && txCrc == None && rxCrc == None && exchanges == []
      ensures txMode == None && rxMode == None
    {
      this.script := script;
      log := [];
      txCrc := None;
      rxCrc := None;
      exchanges := [];
      txMode := None;
      rxMode := None;
    }

    /** A bulk read of `count` values of `reg` from the environment. */
    method RegReadBulk(reg: byte, count: nat) returns (r: Result<seq<byte>>)
      modifies this`script, this`log
      ensures count <= |old(script)| ==>
        r == Ok(old(script)[..count]) && script == old(script)[count..] && log == old(log) + [Read(reg, r.value)]
      ensures count > |old(script)| ==> r == Err(ReadFailed) && script == old(script) && log == old(log)
    {
      if count <= |script| {
        r := Ok(script[..count]);
        log := log + [Read(reg, r.value)];
        script := script[count..];
      } else {
        r := Err(ReadFailed);
      }
    }

    method RegRead(reg: byte) returns (r: Result<byte>)
      modifies this`script, this`log
      ensures old(script) != [] ==>
        r == Ok(old(script)[0]) && script == old(script)[1..] && log == old(log) + [Read(reg, [r.value])]
      ensures old(script) == [] ==> r == Err(ReadFailed) && script == old(script) && log == old(log)
    {
      var data := RegReadBulk(reg, 1);
      if data.Err? {
        return Err(data.error);
      }
      r := Ok(data.value[0]);
      assert data.value == [r.value];
    }

    /** A write of `data` to `reg`; a register other than the CRC switches
      keeps the cache valid. */
    method RegWriteBulk(reg: byte, data: seq<byte>)
      modifies this`log, this`txMode, this`rxMode
      ensures log == old(log) + [Write(reg, data)]
      ensures txMode == (if reg == TxModeReg then Some(data) else old(txMode))
      ensures rxMode == (if reg == RxModeReg then Some(data) else old(rxMode))
      ensures old(Valid()) && reg != TxModeReg && reg != RxModeReg ==> Valid()
    {
      log := log + [Write(reg, data)];
      if reg == TxModeReg {
        txMode := Some(data);
      }
      if reg == RxModeReg {
        rxMode := Some(data);
      }
    }

    method RegWrite(reg: byte, value: byte)
      modifies this`log, this`txMode, this`rxMode
      ensures log == old(log) + [Write(reg, [value])]
      ensures txMode == (if reg == TxModeReg then Some([value]) else old(txMode))
      ensures rxMode == (if reg == RxModeReg then Some([value]) else old(rxMode))
      ensures old(Valid()) && reg != TxModeReg && reg != RxModeReg ==> Valid()
    {
      RegWriteBulk(reg, [value]);
    }

    method AntennaOn()
      modifies this`log, this`txMode, this`rxMode
      ensures log == old(log) + [Write(TxControlReg, [0x83])]
      ensures old(Valid()) ==> Valid()
    {
      RegWrite(TxControlReg, 0x83);
    }

    method AntennaOff()
      modifies this`log, this`txMode, this`rxMode
      ensures log == old(log) + [Write(TxControlReg, [0x80])]
      ensures old(Valid()) ==> Valid()
    {
      RegWrite(TxControlReg, 0x80);
    }

    method RunCommand(cmd: CommandCode)
      modifies this`log, this`txMode, this`rxMode
      ensures log == old(log) + [Write(CommandReg, [CommandValue(cmd)])]
      ensures old(Valid()) ==> Valid()
    {
      RegWrite(CommandReg, CommandValue(cmd));
    }

    /** Switches TX CRC generation, writing TxModeReg only when the request
      differs from the cached state. */
    method EnableTxCrc(enable: bool)
      requires Valid()
      modifies this`log, this`txMode, this`rxMode, this`txCrc
      ensures Valid() && txCrc == Some(enable)
      ensures log == old(log) + CrcWrites(TxModeReg, old(txCrc), enable)
    {
      if Some(enable) != txCrc {
        RegWrite(TxModeReg, CrcValue(enable));
        txCrc := Some(enable);
      }
    }

    /** Switches RX CRC checking, writing RxModeReg only when the request
      differs from the cached state. */
    method EnableRxCrc(enable: bool)
      requires Valid()
      modifies this`log, this`txMode, this`rxMode, this`rxCrc
      ensures Valid() && rxCrc == Some(enable)
      ensures log == old(log) + CrcWrites(RxModeReg, old(rxCrc), enable)
    {
      if Some(enable) != rxCrc {
        RegWrite(RxModeReg, CrcValue(enable));
        rxCrc := Some(enable);
      }
    }

    method EnableCrc(enable: bool)
      requires Valid()
      modifies this`log, this`txMode, this`rxMode, this`txCrc, this`rxCrc
      ensures Valid() && txCrc == Some(enable) && rxCrc == Some(enable)
      ensures log == old(log) + CrcWrites(TxModeReg, old(txCrc), enable) + CrcWrites(RxModeReg, old(rxCrc), enable)
    {
      EnableTxCrc(enable);
      EnableRxCrc(enable);
    }

    /** The polling loop: Ok(true) when a read shows a bit of `mask`,
      Ok(false) when MaxPolls reads all show it clear. */
    method PollIrq(mask: byte) returns (r: Result<bool>)
      modifies this`script, this`log
      ensures r == PollResult(old(script), mask)
      ensures log == old(log) + Polls(ComIrqReg, old(script)[..PollCount(old(script), mask)])
      ensures script == old(script)[PollCount(old(script), mask)..]
    {
      ghost var s := script;
      for x := 0 to MaxPolls
        invariant x <= |s| && script == s[x..] && log == old(log) + Polls(ComIrqReg, s[..x])
        invariant FirstReady(s, mask, MaxPolls) == ReadyFrom(s, mask, MaxPolls, x)
      {
        SliceStep(s, x);
        var irq := RegRead(ComIrqReg);
        if irq.Err? {
          PollStops(s, mask, x);
          return Err(irq.error);
        }
        PollsSnoc(ComIrqReg, s, x);
        ReadyStep(s, mask, x);
        if irq.value & mask != 0 {
          PollStops(s, mask, x);
          return Ok(true);
        }
      }
      PollStops(s, mask, MaxPolls);
      r := Ok(false);
    }

    /** Polls ComIrqReg for a bit of `mask` at most MaxPolls times; flushes
      the FIFO and fails with `timeout` when the bit never shows. */
    method WaitIrq(mask: byte, timeout: Error) returns (r: Result<()>)
      modifies this`script, this`log, this`txMode, this`rxMode
      ensures var e := WaitSpec(old(script), mask, timeout);
        r == e.result && log == old(log) + e.accesses && script == e.rest
      ensures r.Err? ==> r.error == timeout || r.error == ReadFailed
      ensures old(Valid()) ==> Valid()
    {
      ghost var s := script;
      var ready := PollIrq(mask);
      if ready.Err? {
        assert s[..PollCount(s, mask)] == s;
        return Err(ready.error);
      }
      if ready.value {
        return Ok(());
      }
      RegWrite(FifoLevelReg, 0x80);
      r := Err(timeout);
    }

    method WaitRx() returns (r: Result<()>)
      modifies this`script, this`log, this`txMode, this`rxMode
      ensures var e := WaitSpec(old(script), RxIrq, NoReply);
        r == e.result && log == old(log) + e.accesses && script == e.rest
      ensures r.Err? ==> r.error == NoReply || r.error == ReadFailed
      ensures old(Valid()) ==> Valid()
    {
      r := WaitIrq(RxIrq, NoReply);
    }

    method WaitTx() returns (r: Result<()>)
      modifies this`script, this`log, this`txMode, this`rxMode
      ensures var e := WaitSpec(old(script), TxIrq, TxTimeout);
        r == e.result && log == old(log) + e.accesses && script == e.rest
      ensures old(Valid()) ==> Valid()
    {
      r := WaitIrq(TxIrq, TxTimeout);
    }

    /** Reads as many FIFO bytes as FIFOLevelReg's 7 level bits say. */
    method ReadFifo() returns (r: Result<seq<byte>>)
      modifies this`script, this`log
      ensures var e := FifoSpec(old(script));
        r == e.result && log == old(log) + e.accesses && script == e.rest
    {
      FifoSteps(script);
      var level := RegRead(FifoLevelReg);
      if level.Err? {
        return Err(level.error);
      }
      var count := (level.value & 0x7F) as int;
      r := RegReadBulk(FifoDataReg, count);
    }

    method PrepareTx(request: seq<byte>)
      modifies this`log, this`txMode, this`rxMode
      ensures log == old(log) + PrepareWrites(request)
      ensures old(Valid()) ==> Valid()
    {
      RunCommand(CmdIdle);
      RegWrite(ComIrqReg, 0x7F);
      RegWriteBulk(FifoDataReg, request);
    }
    /** The receive side of a full-byte transceive. */
    method Receive() returns (r: Result<seq<byte>>)
      modifies this`script, this`log, this`txMode, this`rxMode
      ensures var e := ReceiveSpec(old(script));
        r == e.result && log == old(log) + e.accesses && script == e.rest
      ensures r.Err? ==> r.error == NoReply || r.error == ReadFailed
      ensures old(Valid()) ==> Valid()
    {
      var w := WaitRx();
      if w.Err? {
        return Err(w.error);
      }
      r := ReadFifo();
    }

    /** The receive side of a bit-framed transceive. */
    method ReceiveBits() returns (r: Result<(seq<byte>, Option<int>)>)
      modifies this`script, this`log, this`txMode, this`rxMode
      ensures var e := ReceiveBitsSpec(old(script));
        r == e.result && log == old(log) + e.accesses && script == e.rest
      ensures r.Err? ==> r.error == NoReply || r.error == ReadFailed
      ensures old(Valid()) ==> Valid()
    {
      var w := WaitRx();
      if w.Err? {
        return Err(w.error);
      }
      ghost var w0 := WaitSpec(old(script), RxIrq, NoReply);
      var coll := RegRead(CollReg);
      if coll.Err? {
        return Err(coll.error);
      }
      ghost var f := FifoSpec(w0.rest[1..]);
      AppendPlusAssoc(old(log), w0.accesses, [Read(CollReg, [coll.value])], f.accesses);
      var data := ReadFifo();
      if data.Err? {
        return Err(data.error);
      }
      r := Ok((data.value, CollisionPosition(coll.value)));
    }

    /** Sends the first ceil(bitlen / 8) bytes of `request` (all of it
      without a bit length) with TxLastBits = bitlen mod 8 and RxAlign =
      rxAlign, and returns the received bytes and the collision position. */
    method TransceiveBits(request: seq<byte>, bitlen: Option<nat>, rxAlign: byte)
      returns (r: Result<(seq<byte>, Option<int>)>)
      requires Valid() && rxAlign < 8
      modifies this`script, this`log, this`txMode, this`rxMode, this`exchanges
      ensures r.Err? ==> r.error == NoReply || r.error == ReadFailed
      ensures Valid()
      ensures exchanges == old(exchanges) + [BitFrame(BitsRequest(request, bitlen), BitFramingValue(bitlen, rxAlign))]
      ensures var e := ReceiveBitsSpec(old(script));
        && log == old(log) + PrepareWrites(BitsRequest(request, bitlen))
             + [Write(CommandReg, [CommandValue(CmdTransceive)])] + [Write(BitFramingReg, [BitFramingValue(bitlen, rxAlign)])]
             + e.accesses
        && script == e.rest && r == e.result
    {
      var frame := BitsRequest(request, bitlen);
      PrepareTx(frame);
      exchanges := exchanges + [BitFrame(frame, BitFramingValue(bitlen, rxAlign))];
      RunCommand(CmdTransceive);
      RegWrite(BitFramingReg, BitFramingValue(bitlen, rxAlign));
      r := ReceiveBits();
    }

    /** Switches CRC on, starts `cmd` and, for a transceive, sets
      StartSend in BitFramingReg. */
    method StartWithCrc(cmd: CommandCode, framing: Option<byte>)
      requires Valid()
      modifies this`log, this`txMode, this`rxMode, this`txCrc, this`rxCrc
      ensures Valid() && txCrc == Some(true) && rxCrc == Some(true)
      ensures log == old(log) + CrcWrites(TxModeReg, old(txCrc), true) + CrcWrites(RxModeReg, old(rxCrc), true)
        + [Write(CommandReg, [CommandValue(cmd)])] + (if framing.Some? then [Write(BitFramingReg, [framing.value])] else [])
    {
      EnableCrc(true);
      RunCommand(cmd);
      if framing.Some? {
        RegWrite(BitFramingReg, framing.value);
      }
    }

    /** A full-byte exchange with CRC on: load the frame, switch CRC on,
      start Transceive with StartSend, wait and drain the FIFO. */
    method Transceive(request: seq<byte>) returns (r: Result<seq<byte>>)
      requires Valid()
      modifies this`script, this`log, this`txMode, this`rxMode, this`txCrc, this`rxCrc, this`exchanges
      ensures Valid() && txCrc == Some(true) && rxCrc == Some(true)
      ensures exchanges == old(exchanges) + [ByteFrame(request)]
      ensures r.Err? ==> r.error == NoReply || r.error == ReadFailed
      ensures log == old(log) + TransceiveAccesses(request, old(txCrc), old(rxCrc), old(script))
      ensures script == ReceiveSpec(old(script)).rest && r == ReceiveSpec(old(script)).result
    {
      PrepareTx(request);
      exchanges := exchanges + [ByteFrame(request)];
      StartWithCrc(CmdTransceive, Some(0x80));
      r := Receive();
      AppendSixAssoc(old(log), PrepareWrites(request),
        CrcWrites(TxModeReg, old(txCrc), true), CrcWrites(RxModeReg, old(rxCrc), true),
        [Write(CommandReg, [CommandValue(CmdTransceive)])], [Write(BitFramingReg, [0x80])],
        ReceiveSpec(old(script)).accesses);
    }

    /** Transmits a frame with CRC on and waits for the transmit IRQ; no
      answer is read. */
    method Send(request: seq<byte>) returns (r: Result<()>)
      requires Valid()
      modifies this`script, this`log, this`txMode, this`rxMode, this`txCrc, this`rxCrc, this`exchanges
      ensures Valid() && txCrc == Some(true) && rxCrc == Some(true)
      ensures exchanges == old(exchanges) + [Transmission(request)]
      ensures var e := WaitSpec(old(script), TxIrq, TxTimeout);
        && log == old(log) + PrepareWrites(request)
             + CrcWrites(TxModeReg, old(txCrc), true) + CrcWrites(RxModeReg, old(rxCrc), true)
             + [Write(CommandReg, [CommandValue(CmdTransmit)])]
             + e.accesses
        && script == e.rest && r == e.result
    {
      PrepareTx(request);
      exchanges := exchanges + [Transmission(request)];
      StartWithCrc(CmdTransmit, None);
      r := WaitTx();
    }

    /** Sends HLTA. */
    method Halt() returns (r: Result<()>)
      requires Valid()
      modifies this`script, this`log, this`txMode, this`rxMode, this`txCrc, this`rxCrc, this`exchanges
      ensures Valid() && txCrc == Some(true) && rxCrc == Some(true)
      ensures exchanges == old(exchanges) + [Transmission([0x50, 0x00])]
      ensures var e := WaitSpec(old(script), TxIrq, TxTimeout);
        && log == old(log) + PrepareWrites([0x50, 0x00])
             + CrcWrites(TxModeReg, old(txCrc), true) + CrcWrites(RxModeReg, old(rxCrc), true)
             + [Write(CommandReg, [CommandValue(CmdTransmit)])]
             + e.accesses
        && script == e.rest && r == e.result
    {
      r := Send([0x50, 0x00]);
    }

    /** Soft reset: run SoftReset, check that the chip has left power-down
      (CommandReg bit 4 clear), then write the fixed configuration and switch
      the antenna on. */
    method SoftReset() returns (r: Result<()>)
      requires Valid()
      modifies this`script, this`log, this`txMode, this`rxMode
      ensures Valid()
      ensures SoftResetDone(old(script), old(log), r, script, log)
    {
      RunCommand(CmdSoftReset);
      var command := RegRead(CommandReg);
      if command.Err? {
        return Err(command.error);
      }
      if command.value & 0x10 != 0 {
        return Err(PowerDownFault);
      }
      RegWrite(TxAskReg, 0x40);
      RegWrite(ModeReg, 0x3D);
      RegWrite(CollReg, 0x80);
      AntennaOn();
      r := Ok(());
    }

    method Reset() returns (r: Result<()>)
      requires Valid()
      modifies this`script, this`log, this`txMode, this`rxMode
      ensures Valid()
      ensures SoftResetDone(old(script), old(log), r, script, log)
    {
      r := SoftReset();
    }

    /** Reads VersionReg and maps it to a known chip version. */
    method GetVersion() returns (r: Result<Version>)
      modifies this`script, this`log
      ensures old(script) != [] ==>
        r == Ok(VersionOf(old(script)[0])) && script == old(script)[1..] && log == old(log) + [Read(VersionReg, [old(script)[0]])]
      ensures old(script) == [] ==> r == Err(ReadFailed) && script == old(script) && log == old(log)
    {
      var id := RegRead(VersionReg);
      if id.Err? {
        return Err(id.error);
      }
      r := Ok(VersionOf(id.value));
    }

    /** One pass of the anticollision walk: the NVB for g known bits goes
      into byte 1 of the buffer, then its first 16 + g bits are sent with
      RxAlign g mod 8. */
    method AnticolPass(anticol: array<byte>, g: nat) returns (r: Result<(seq<byte>, Option<int>)>)
      requires Valid() && anticol.Length == 7 && g < LevelBits
      modifies anticol, this`script, this`log, this`txMode, this`rxMode, this`exchanges
      ensures Valid()
      ensures anticol[..] == PassFrame(old(anticol[..]), g)
      ensures exchanges == old(exchanges) + [BitFrame(PassSent(old(anticol[..]), g), PassFraming(g))]
      ensures log == old(log) + PassAccesses(old(anticol[..]), g, old(script))
      ensures r == ReceiveBitsSpec(old(script)).result && script == ReceiveBitsSpec(old(script)).rest
    {
      ghost var a0 := anticol[..];
      anticol[1] := Nvb(g);
      assert anticol[..] == PassFrame(a0, g);
      RxAlignSmall(g);
      ghost var e := ReceiveBitsSpec(script);
      AppendFourAssoc(log, PrepareWrites(PassSent(a0, g)), [Write(CommandReg, [CommandValue(CmdTransceive)])],
        [Write(BitFramingReg, [PassFraming(g)])], e.accesses);
      r := TransceiveBits(anticol[..], Some(16 + g), (g % 8) as byte);
    }

    /** One pass of the walk and its merge: the pass's frame goes out, the
      answer is decoded and ORed into the buffer. On success the walk from
      the old buffer is this pass followed by the walk from the new buffer,
      at the returned count of known bits. */
    method WalkPass(anticol: array<byte>, g: nat) returns (r: Result<nat>)
      requires Valid() && anticol.Length == 7 && g < LevelBits
      modifies anticol, this`script, this`log, this`txMode, this`rxMode, this`exchanges
      ensures Valid()
      ensures var acc := PassAccesses(old(anticol[..]), g, old(script));
        var x := [BitFrame(PassSent(old(anticol[..]), g), PassFraming(g))];
        && log == old(log) + acc && exchanges == old(exchanges) + x
        && ByteFrames(exchanges) == ByteFrames(old(exchanges))
        && (r.Err? ==> Walk(old(anticol[..]), g, old(script)) == Walked(Err(r.error), acc, x, script))
        && (r.Ok? ==>
              && g < r.value <= LevelBits
              && var next := Walk(anticol[..], r.value, script);
                 Walk(old(anticol[..]), g, old(script)) == Walked(next.result, acc + next.accesses, x + next.frames, next.rest))
    {
      ghost var a, s := anticol[..], script;
      var res := AnticolPass(anticol, g);
      ByteFramesSnoc(old(exchanges), exchanges[|exchanges| - 1]);
      if res.Err? {
        return Err(res.error);
      }
      var step := WalkStep(g, res.value.0, res.value.1);
      if step.Err? {
        return Err(step.error);
      }
      MergeInto(anticol, step.value.data, step.value.lo, step.value.hi);
      r := Ok(step.value.good);
    }

    /** One cascade level of the anticollision walk: CRC off, then passes
      until all 40 UID and BCC bits are known; returns the 7-byte command
      buffer. */
    method ResolveLevel(ct: nat) returns (r: Result<seq<byte>>)
      requires Valid() && 1 <= ct <= 3
      modifies this`script, this`log, this`txMode, this`rxMode, this`txCrc, this`rxCrc, this`exchanges
      ensures Valid() && txCrc == Some(false) && rxCrc == Some(false)
      ensures var w := Walk(LevelStart(ct), 0, old(script));
        && r == w.result && script == w.rest && exchanges == old(exchanges) + w.frames
        && log == old(log) + CrcWrites(TxModeReg, old(txCrc), false) + CrcWrites(RxModeReg, old(rxCrc), false) + w.accesses
      ensures old(exchanges) <= exchanges && ByteFrames(exchanges) == ByteFrames(old(exchanges))
      ensures r.Ok? ==> |r.value| == 7 && r.value[0] == SelectCode(ct)
      ensures r.Err? ==> r.error in {NoReply, ReadFailed, IndexError}
    {
      var anticol := new byte[7][SelectCode(ct), 0, 0, 0, 0, 0, 0];
      var goodCount := 0;
      EnableCrc(false);
      assert anticol[..] == LevelStart(ct);
      ghost var walk := Walk(anticol[..], 0, script);
      ghost var log0, sent0 := log, exchanges;
      ghost var logged: seq<Access> := [];
      ghost var sent: seq<Exchange> := [];
      while goodCount < LevelBits
        invariant 0 <= goodCount <= LevelBits
        invariant Valid() && txCrc == Some(false) && rxCrc == Some(false)
        invariant log == log0 + logged && exchanges == sent0 + sent
        invariant ByteFrames(exchanges) == ByteFrames(old(exchanges))
        invariant var w := Walk(anticol[..], goodCount, script);
          && walk.result == w.result && walk.rest == w.rest
          && walk.accesses == logged + w.accesses && walk.frames == sent + w.frames
        decreases LevelBits - goodCount
      {
        ghost var acc := PassAccesses(anticol[..], goodCount, script);
        ghost var x := [BitFrame(PassSent(anticol[..], goodCount), PassFraming(goodCount))];
        var pass := WalkPass(anticol, goodCount);
        AppendAssoc(log0, logged, acc);
        AppendAssoc(sent0, sent, x);
        if pass.Err? {
          logged, sent := logged + acc, sent + x;
          return Err(pass.error);
        }
        goodCount := pass.value;
        ghost var next := Walk(anticol[..], goodCount, script);
        AppendAssoc(logged, acc, next.accesses);
        AppendAssoc(sent, x, next.frames);
        logged, sent := logged + acc, sent + x;
      }
      assert logged + [] == logged && sent + [] == sent;
      r := Ok(anticol[..]);
    }

    /** Finds one card and reads its UID: REQA (or WUPA) as 7 bits, then per
      cascade level the anticollision walk, a BCC check and a SELECT with CRC;
      a cascade tag in the first UID byte of a level (before level 3) asks for
      the next level. */
    method Scan(wakeup: bool) returns (r: Result<seq<byte>>)
      requires Valid()
      modifies this`script, this`log, this`txMode, this`rxMode, this`txCrc, this`rxCrc, this`exchanges
      ensures Valid()
      ensures |exchanges| > |old(exchanges)|
      ensures exchanges[|old(exchanges)|] == BitFrame([if wakeup then WupA else ReqA], BitFramingValue(Some(7), 0))
      ensures r == ScanSpec(old(script)).result && script == ScanSpec(old(script)).rest
      ensures log == old(log) + ScanAccesses(if wakeup then WupA else ReqA, old(txCrc), old(rxCrc), old(script))
      ensures r.Ok? ==> |r.value| in {4, 7, 10}
      ensures r.Ok? ==> ByteFrames(exchanges) == ByteFrames(old(exchanges)) + SelectFrames(r.value)
      ensures r.Ok? ==> txCrc == Some(true) && rxCrc == Some(true)
      ensures r.Ok? && |r.value| == 4 ==> r.value[0] != CascadeTag
      ensures r.Ok? && |r.value| == 7 ==> r.value[3] != CascadeTag
      ensures r.Err? && r.error.InvalidBcc? ==> r.error.expected != r.error.calculated
    {
      ghost var request := RequestAccesses(if wakeup then WupA else ReqA, txCrc, rxCrc, script);
      var atqa := Request(if wakeup then WupA else ReqA);
      if atqa.Err? {
        assert request + [] == request;
        return Err(atqa.error);
      }
      ghost var mid := exchanges;
      AppendAssoc(old(log), request, ScanLevelsAccesses(1, txCrc, rxCrc, script));
      r := ScanLevels();
      assert exchanges[|old(exchanges)|] == mid[|old(exchanges)|];
    }

    /** The cascade levels of a scan, from level 1 until a level without
      cascade tag or level 3. */
    method ScanLevels() returns (r: Result<seq<byte>>)
      requires Valid()
      modifies this`script, this`log, this`txMode, this`rxMode, this`txCrc, this`rxCrc, this`exchanges
      ensures Valid() && old(exchanges) <= exchanges
      ensures r == ScanLevelsSpec(1, [], old(script)).result && script == ScanLevelsSpec(1, [], old(script)).rest
      ensures log == old(log) + ScanLevelsAccesses(1, old(txCrc), old(rxCrc), old(script))
      ensures r.Ok? ==> |r.value| in {4, 7, 10}
      ensures r.Ok? ==> ByteFrames(exchanges) == ByteFrames(old(exchanges)) + SelectFrames(r.value)
      ensures r.Ok? ==> txCrc == Some(true) && rxCrc == Some(true)
      ensures r.Ok? && |r.value| == 4 ==> r.value[0] != CascadeTag
      ensures r.Ok? && |r.value| == 7 ==> r.value[3] != CascadeTag
      ensures r.Err? && r.error.InvalidBcc? ==> r.error.expected != r.error.calculated
    {
      ghost var sent := ByteFrames(old(exchanges));
      ghost var total := ScanLevelsAccesses(1, old(txCrc), old(rxCrc), old(script));
      ghost var logged: seq<Access> := [];
      var knownUid: seq<byte> := [];
      var ct := 1;
      assert old(log) + [] == old(log);
      while true
        invariant (ct == 1 && |knownUid| == 0) || (ct == 2 && |knownUid| == 3) || (ct == 3 && |knownUid| == 6)
        invariant Valid()
        invariant old(exchanges) <= exchanges
        invariant ByteFrames(exchanges) == sent + CascadeFrames(knownUid, 1)
        invariant ScanLevelsSpec(ct, knownUid, script) == ScanLevelsSpec(1, [], old(script))
        invariant log == old(log) + logged
        invariant total == logged + ScanLevelsAccesses(ct, txCrc, rxCrc, script)
        decreases 3 - ct
      {
        ghost var before := exchanges;
        ghost var level := LevelAccesses(ct, txCrc, rxCrc, script);
        var anticol := ScanNextLevel(ct, knownUid);
        LogStep(old(log), logged, level,
          if anticol.Ok? && anticol.value[2] == CascadeTag && ct < 3 then ScanLevelsAccesses(ct + 1, txCrc, rxCrc, script) else [],
          total, log);
        assert old(exchanges) <= exchanges by {
          assert old(exchanges) <= before && before <= exchanges;
        }
        if anticol.Err? {
          return Err(anticol.error);
        }
        var part := anticol.value[2..6];
        if anticol.value[2] != CascadeTag || ct == 3 {
          ScanFinish(sent, knownUid, part, ct);
          r := Ok(knownUid + part);
          return;
        }
        ScanCascade(sent, knownUid, anticol.value, ct);
        logged := logged + level;
        knownUid := knownUid + anticol.value[3..6];
        ct := ct + 1;
      }
    }

    /** One level of the cascade loop, stated as the step it makes in
      ScanLevelsSpec. */
    method ScanNextLevel(ct: nat, ghost known: seq<byte>) returns (r: Result<seq<byte>>)
      requires Valid() && 1 <= ct <= 3 && |known| == 3 * (ct - 1)
      modifies this`script, this`log, this`txMode, this`rxMode, this`txCrc, this`rxCrc, this`exchanges
      ensures Valid() && old(exchanges) <= exchanges
      ensures r.Ok? ==> |r.value| == 7 && txCrc == Some(true) && rxCrc == Some(true)
      ensures r.Ok? ==> ByteFrames(exchanges) == ByteFrames(old(exchanges)) + [SelectFrame(ct, r.value[2..6])]
      ensures r.Err? && r.error.InvalidBcc? ==> r.error.expected != r.error.calculated
      ensures ScanLevelsSpec(ct, known, old(script)) == CascadeStep(ct, known, Outcome(r, script))
      ensures r == LevelSpec(ct, old(script)).result && script == LevelSpec(ct, old(script)).rest
      ensures log == old(log) + LevelAccesses(ct, old(txCrc), old(rxCrc), old(script))
      ensures ScanLevelsAccesses(ct, old(txCrc), old(rxCrc), old(script))
        == LevelAccesses(ct, old(txCrc), old(rxCrc), old(script))
           + (if r.Ok? && r.value[2] == CascadeTag && ct < 3 then ScanLevelsAccesses(ct + 1, txCrc, rxCrc, script) else [])
    {
      r := ScanLevel(ct);
    }

    /** CRC off, then a short frame (REQA or WUPA) of 7 bits. */
    method Request(command: byte) returns (r: Result<(seq<byte>, Option<int>)>)
      requires Valid()
      modifies this`script, this`log, this`txMode, this`rxMode, this`txCrc, this`rxCrc, this`exchanges
      ensures r.Err? ==> r.error == NoReply || r.error == ReadFailed
      ensures Valid() && txCrc == Some(false) && rxCrc == Some(false)
      ensures exchanges == old(exchanges) + [BitFrame([command], BitFramingValue(Some(7), 0))]
      ensures ByteFrames(exchanges) == ByteFrames(old(exchanges))
      ensures r == ReceiveBitsSpec(old(script)).result && script == ReceiveBitsSpec(old(script)).rest
      ensures log == old(log) + RequestAccesses(command, old(txCrc), old(rxCrc), old(script))
    {
      EnableCrc(false);
      assert BitsRequest([command], Some(7)) == [command];
      r := TransceiveBits([command], Some(7), 0);
      ByteFramesSnoc(old(exchanges), BitFrame([command], BitFramingValue(Some(7), 0)));
      AppendSixAssoc(old(log), CrcWrites(TxModeReg, old(txCrc), false), CrcWrites(RxModeReg, old(rxCrc), false),
        PrepareWrites([command]), [Write(CommandReg, [CommandValue(CmdTransceive)])],
        [Write(BitFramingReg, [BitFramingValue(Some(7), 0)])], ReceiveBitsSpec(old(script)).accesses);
    }

    /** One cascade level of a scan: the anticollision walk, the BCC check
      and the SELECT of the level's four bytes. */
    method ScanLevel(ct: nat) returns (r: Result<seq<byte>>)
      requires Valid() && 1 <= ct <= 3
      modifies this`script, this`log, this`txMode, this`rxMode, this`txCrc, this`rxCrc, this`exchanges
      ensures Valid() && old(exchanges) <= exchanges
      ensures r.Ok? ==> |r.value| == 7 && txCrc == Some(true) && rxCrc == Some(true)
      ensures r.Ok? ==> ByteFrames(exchanges) == ByteFrames(old(exchanges)) + [SelectFrame(ct, r.value[2..6])]
      ensures r == LevelSpec(ct, old(script)).result && script == LevelSpec(ct, old(script)).rest
      ensures log == old(log) + LevelAccesses(ct, old(txCrc), old(rxCrc), old(script))
    {
      ghost var w := Walk(LevelStart(ct), 0, old(script));
      var level := ResolveLevel(ct);
      if level.Err? {
        AppendFourAssoc(old(log), CrcWrites(TxModeReg, old(txCrc), false), CrcWrites(RxModeReg, old(rxCrc), false), w.accesses, []);
        return Err(level.error);
      }
      r := FinishLevel(ct, level.value);
      AppendFourAssoc(old(log), CrcWrites(TxModeReg, old(txCrc), false), CrcWrites(RxModeReg, old(rxCrc), false),
        w.accesses, FinishAccesses(ct, w.result.value, Some(false), Some(false), w.rest));
    }

    /** The BCC check of a resolved level and the SELECT of its four bytes. */
    method FinishLevel(ct: nat, anticol: seq<byte>) returns (r: Result<seq<byte>>)
      requires Valid() && 1 <= ct <= 3 && |anticol| == 7 && anticol[0] == SelectCode(ct)
      modifies this`script, this`log, this`txMode, this`rxMode, this`txCrc, this`rxCrc, this`exchanges
      ensures Valid() && old(exchanges) <= exchanges
      ensures r.Ok? ==> txCrc == Some(true) && rxCrc == Some(true)
      ensures r.Ok? ==> ByteFrames(exchanges) == ByteFrames(old(exchanges)) + [SelectFrame(ct, anticol[2..6])]
      ensures r == LevelFinish(anticol, old(script)).result && script == LevelFinish(anticol, old(script)).rest
      ensures log == old(log) + FinishAccesses(ct, anticol, old(txCrc), old(rxCrc), old(script))
    {
      var calculated := anticol[2] ^ anticol[3] ^ anticol[4] ^ anticol[5];
      var expected := anticol[6];
      FinishChecks(ct, anticol, txCrc, rxCrc, script);
      if calculated != expected {
        assert old(log) + [] == old(log);
        return Err(InvalidBcc(expected, calculated));
      }
      LevelSelectFrame(anticol, ct);
      r := SelectLevel(ct, anticol[2..6]);
      if r.Ok? {
        r := Ok(anticol);
      }
    }

    /** Sends the SELECT frame of one cascade level with CRC on. */
    method SelectLevel(ct: nat, part: seq<byte>) returns (r: Result<seq<byte>>)
      requires Valid() && 1 <= ct <= 3 && |part| == 4
      modifies this`script, this`log, this`txMode, this`rxMode, this`txCrc, this`rxCrc, this`exchanges
      ensures Valid() && txCrc == Some(true) && rxCrc == Some(true)
      ensures exchanges == old(exchanges) + [ByteFrame(SelectFrame(ct, part))]
      ensures ByteFrames(exchanges) == ByteFrames(old(exchanges)) + [SelectFrame(ct, part)]
      ensures r.Err? ==> r.error == NoReply || r.error == ReadFailed
      ensures r == ReceiveSpec(old(script)).result && script == ReceiveSpec(old(script)).rest
      ensures log == old(log) + TransceiveAccesses(SelectFrame(ct, part), old(txCrc), old(rxCrc), old(script))
    {
      var command := [SelectCode(ct), SelectNvb] + part;
      command := command + [command[2] ^ command[3] ^ command[4] ^ command[5]];
      AppendBcc(ct, part);
      r := Transceive(command);
      ByteFramesSnoc(old(exchanges), ByteFrame(command));
    }

    /** Re-selects a card of known UID: REQA as 7 bits, then one SELECT with
      CRC per cascade level, without anticollision. */
    method Select(uid: seq<byte>) returns (r: Result<()>)
      requires Valid() && |uid| in {4, 7, 10}
      modifies this`script, this`log, this`txMode, this`rxMode, this`txCrc, this`rxCrc, this`exchanges
      ensures Valid()
      ensures |exchanges| > |old(exchanges)|
      ensures exchanges[|old(exchanges)|] == BitFrame([ReqA], BitFramingValue(Some(7), 0))
      ensures ByteFrames(exchanges) <= ByteFrames(old(exchanges)) + SelectFrames(uid)
      ensures r.Ok? ==> ByteFrames(exchanges) == ByteFrames(old(exchanges)) + SelectFrames(uid)
      ensures r.Ok? ==> txCrc == Some(true) && rxCrc == Some(true)
      ensures var e := SelectSpec(uid, old(txCrc), old(rxCrc), old(script));
        r == e.result && script == e.rest && log == old(log) + e.accesses
    {
      ghost var request := RequestAccesses(ReqA, txCrc, rxCrc, script);
      var atqa := Request(ReqA);
      if atqa.Err? {
        PrefixOfAppend(ByteFrames(old(exchanges)), [], SelectFrames(uid));
        assert ByteFrames(old(exchanges)) + [] == ByteFrames(old(exchanges));
        return Err(atqa.error);
      }
      ghost var mid := exchanges;
      AppendAssoc(old(log), request, SelectExchanges(SelectFrames(uid), txCrc, rxCrc, script).accesses);
      r := SelectLevels(uid);
      assert exchanges[|old(exchanges)|] == mid[|old(exchanges)|];
    }

    /** The SELECT frames of `uid`, one per cascade level, each with CRC on. */
    method SelectLevels(uid: seq<byte>) returns (r: Result<()>)
      requires Valid() && |uid| in {4, 7, 10}
      modifies this`script, this`log, this`txMode, this`rxMode, this`txCrc, this`rxCrc, this`exchanges
      ensures Valid() && old(exchanges) <= exchanges
      ensures ByteFrames(exchanges) <= ByteFrames(old(exchanges)) + SelectFrames(uid)
      ensures r.Ok? ==> ByteFrames(exchanges) == ByteFrames(old(exchanges)) + SelectFrames(uid)
      ensures r.Ok? ==> txCrc == Some(true) && rxCrc == Some(true)
      ensures var e := SelectExchanges(SelectFrames(uid), old(txCrc), old(rxCrc), old(script));
        r == e.result && script == e.rest && log == old(log) + e.accesses
    {
      assert old(log) + [] == old(log);
      SelectProgressStart(uid);
      assert ByteFrames(exchanges) + [] == ByteFrames(exchanges);
      r := SelectLoop(uid, ByteFrames(exchanges), SelectExchanges(SelectFrames(uid), txCrc, rxCrc, script), log);
    }

    /** The loop of SelectLevels, against the frames `sent` before it, the
      log `base` before it and the effect `total` it is to have. */
    method SelectLoop(uid: seq<byte>, ghost sent: seq<seq<byte>>, ghost total: Effect<()>, ghost base: seq<Access>)
      returns (r: Result<()>)
      requires |uid| in {4, 7, 10} && Valid() && SelectTrack(uid, sent, total, base, [], [], uid, 1, ByteFrames(exchanges), log, txCrc, rxCrc, script)
      modifies this`script, this`log, this`txMode, this`rxMode, this`txCrc, this`rxCrc, this`exchanges
      ensures Valid() && old(exchanges) <= exchanges && ByteFrames(exchanges) <= sent + SelectFrames(uid)
      ensures r.Ok? ==> ByteFrames(exchanges) == sent + SelectFrames(uid) && txCrc == Some(true) && rxCrc == Some(true)
      ensures r == total.result && script == total.rest && log == base + total.accesses
    {
      ghost var done: seq<seq<byte>> := [];
      ghost var logged: seq<Access> := [];
      var ct := 1;
      var rest := uid;
      while |rest| > 0
        invariant Valid() && SelectTrack(uid, sent, total, base, done, logged, rest, ct, ByteFrames(exchanges), log, txCrc, rxCrc, script)
        invariant old(exchanges) <= exchanges
        decreases |rest|
      {
        var answer;
        ghost var before := exchanges;
        answer, rest, done, logged := SelectPart(uid, sent, total, base, done, logged, ct, rest);
        PrefixTrans(old(exchanges), before, exchanges);
        if answer.Err? {
          return Err(answer.error);
        }
        ct := ct + 1;
      }
      SelectTrackEnd(uid, sent, total, base, done, logged, ct, ByteFrames(exchanges), log, txCrc, rxCrc, script);
      r := Ok(());
    }

    /** One step of the SELECT loop: the cascade tag and three bytes while more
      than four remain, else the last four, sent as the SELECT of level ct,
      which is the first of the frames still pending. */
    method SelectPart(ghost uid: seq<byte>, ghost sent: seq<seq<byte>>, ghost total: Effect<()>, ghost base: seq<Access>,
                      ghost done: seq<seq<byte>>, ghost logged: seq<Access>, ct: nat, rest: seq<byte>)
      returns (answer: Result<seq<byte>>, after: seq<byte>, ghost done': seq<seq<byte>>, ghost logged': seq<Access>)
      requires |uid| in {4, 7, 10} && Valid() && SelectTrack(uid, sent, total, base, done, logged, rest, ct, ByteFrames(exchanges), log, txCrc, rxCrc, script) && rest != []
      modifies this`script, this`log, this`txMode, this`rxMode, this`txCrc, this`rxCrc, this`exchanges
      ensures after == AfterPart(rest) && |after| < |rest| && done' == done + [SelectFrame(ct, NextPart(rest))]
      ensures old(exchanges) <= exchanges && Valid() && txCrc == Some(true) && rxCrc == Some(true)
      ensures answer.Ok? ==> SelectTrack(uid, sent, total, base, done', logged', after, ct + 1, ByteFrames(exchanges), log, txCrc, rxCrc, script)
      ensures answer.Err? ==> total.result == Err(answer.error) && total.rest == script && log == base + total.accesses
      ensures answer.Err? ==> ByteFrames(exchanges) <= sent + SelectFrames(uid)
    {
      PendingStep(rest, ct);
      SelectProgressStep(uid, done, rest, ct);
      var part;
      if |rest| > 4 {
        part := [CascadeTag] + rest[..3];
        after := rest[3..];
      } else {
        part := rest;
        after := [];
      }
      ghost var step := TransceiveAccesses(SelectFrame(ct, part), txCrc, rxCrc, script);
      ExchangesCons(SelectFrame(ct, part), PendingFrames(after, ct + 1), txCrc, rxCrc, script);
      answer := SelectLevel(ct, part);
      done', logged' := done + [SelectFrame(ct, part)], logged + step;
      AppendAssoc(sent, done, [SelectFrame(ct, part)]);
      PrefixOfAppend(sent, done', SelectFrames(uid));
      AppendAssoc(base, logged, step);
      AppendAssoc(logged, step, SelectExchanges(PendingFrames(after, ct + 1), txCrc, rxCrc, script).accesses);
    }
  }


  /** ORs `data` into UID bytes lo .. hi - 1 of the command buffer in place. */
  method MergeInto(anticol: array<byte>, data: seq<byte>, lo: nat, hi: nat)
    requires anticol.Length == 7 && lo <= hi <= 5 && hi - lo <= |data|
    modifies anticol
    ensures anticol[..] == Merged(old(anticol[..]), data, lo, hi)
  {
    for pos := lo to hi
      invariant forall i :: 0 <= i < 7 ==>
        anticol[i] == if 2 + lo <= i < 2 + pos then old(anticol[i]) | data[i - 2 - lo] else old(anticol[i])
    {
      anticol[2 + pos] := anticol[2 + pos] | data[pos - lo];
    }
  }
}
