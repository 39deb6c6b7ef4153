/** What a scan of py522/reader/rc522.py makes of the chip's answers: the
    answers a single, undisturbed tag produces, the walk without and with a
    collision, the BCC failure, and a scan that reads the tag's UID. */
module ScanFacts {
  import opened Common
  import opened Iso14443
  import opened Rc522

  /** The register values a bit-framed transceive reads when the tag answers
      `data` without a collision: ComIrqReg with the receive IRQ, CollReg with
      CollPosNotValid, FIFOLevelReg, then the data. */
  function BitAnswer(data: seq<byte>): (s: seq<byte>)
    requires |data| < 128
    ensures |s| == 3 + |data| && s[3..] == data
  {
    [RxIrq, 0x20, |data| as byte] + data
  }

  /** The register values a full-byte transceive reads when the tag answers
      `data`: ComIrqReg with the receive IRQ, FIFOLevelReg, then the data. */
  function ByteAnswer(data: seq<byte>): (s: seq<byte>)
    requires |data| < 128
    ensures |s| == 2 + |data| && s[2..] == data
  {
    [RxIrq, |data| as byte] + data
  }

  /** A wait whose first poll shows the bit makes that one read. */
  lemma WaitFirstPoll(s: seq<byte>, mask: byte, timeout: Error)
    requires |s| > 0 && s[0] & mask != 0
    ensures WaitSpec(s, mask, timeout).result == Ok(())
    ensures WaitSpec(s, mask, timeout).accesses == [Read(ComIrqReg, [s[0]])]
    ensures WaitSpec(s, mask, timeout).rest == s[1..]
  {
    assert ReadyFrom(s, mask, MaxPolls, 0) == 0;
    var first := s[..1];
    assert first[..0] == [] && first[0] == s[0];
    assert Polls(ComIrqReg, first) == Polls(ComIrqReg, []) + [Read(ComIrqReg, [s[0]])];
  }

  /** Draining a FIFO whose level is the length of the data that follows. */
  lemma FifoClean(data: seq<byte>, rest: seq<byte>)
    requires |data| < 128
    ensures FifoSpec([|data| as byte] + data + rest).result == Ok(data)
    ensures FifoSpec([|data| as byte] + data + rest).rest == rest
  {
    var f := [|data| as byte] + data + rest;
    LevelByte(|data|);
    HeadAndBody(|data| as byte, data, rest);
    FifoSteps(f);
  }

  lemma HeadAndBody(n: byte, data: seq<byte>, rest: seq<byte>)
    ensures var f := [n] + data + rest;
      f != [] && f[0] == n && f[1..][..|data|] == data && f[1..][|data|..] == rest && |f[1..]| == |data| + |rest|
  {
    var f := [n] + data + rest;
    assert f[1..] == data + rest;
  }


  /** A FIFO level below 128 survives the 7-bit mask. */
  lemma LevelByte(k: nat)
    requires k < 128
    ensures ((k as byte) & 0x7F) as int == k
  {
    SmallByte(k);
    MaskSmall(k as byte);
  }

  lemma SmallByte(k: nat)
    requires k < 128
    ensures (k as byte) as int == k && k as byte < 0x80
  {
  }

  lemma MaskSmall(b: byte)
    requires b < 0x80
    ensures b & 0x7F == b
  {
  }

  /** A bit-framed transceive that the tag answers cleanly returns the tag's
      bytes and no collision, and consumes exactly its answer. */
  lemma ReceiveBitsClean(data: seq<byte>, rest: seq<byte>)
    requires |data| < 128
    ensures ReceiveBitsSpec(BitAnswer(data) + rest).result == Ok((data, None))
    ensures ReceiveBitsSpec(BitAnswer(data) + rest).rest == rest
  {
    var u := [|data| as byte] + data + rest;
    var s := BitAnswer(data) + rest;
    assert s == [RxIrq] + ([0x20] + u);
    WaitFirstPoll(s, RxIrq, NoReply);
    assert s[1..][0] == 0x20 && s[1..][1..] == u;
    assert CollisionPosition(0x20).None?;
    FifoClean(data, rest);
  }

  /** A full-byte transceive that the tag answers cleanly returns the tag's
      bytes and consumes exactly its answer. */
  lemma ReceiveClean(data: seq<byte>, rest: seq<byte>)
    requires |data| < 128
    ensures ReceiveSpec(ByteAnswer(data) + rest).result == Ok(data)
    ensures ReceiveSpec(ByteAnswer(data) + rest).rest == rest
  {
    var s := ByteAnswer(data) + rest;
    WaitFirstPoll(s, RxIrq, NoReply);
    assert s[1..] == [|data| as byte] + data + rest;
    FifoClean(data, rest);
  }

  /** A collision-free first pass settles the level in one exchange: the
      resolved buffer is the select code, NVB 0x20 and the first five bytes
      the chip received. */
  lemma WalkNoCollision(ct: nat, s: seq<byte>)
    requires 1 <= ct <= 3
    requires ReceiveBitsSpec(s).result.Ok? && ReceiveBitsSpec(s).result.value.1.None?
    requires |ReceiveBitsSpec(s).result.value.0| >= 5
    ensures Walk(LevelStart(ct), 0, s).result == Ok([SelectCode(ct), Nvb(0)] + ReceiveBitsSpec(s).result.value.0[..5])
    ensures Walk(LevelStart(ct), 0, s).rest == ReceiveBitsSpec(s).rest
    ensures |Walk(LevelStart(ct), 0, s).frames| == 1
  {
    var a := LevelStart(ct);
    var recv := ReceiveBitsSpec(s).result.value.0;
    var step := WalkStep(0, recv, None);
    assert step.Ok? && step.value.good == LevelBits && step.value.lo == 0 && step.value.hi == 5;
    MergeWhole(ct, recv);
  }

  /** Merging all five bytes into an empty UID part gives those bytes. */
  lemma MergeWhole(ct: nat, recv: seq<byte>)
    requires 1 <= ct <= 3 && |recv| >= 5
    ensures Merged(PassFrame(LevelStart(ct), 0), recv, 0, 5) == [SelectCode(ct), Nvb(0)] + recv[..5]
  {
    FirstMerge(ct, recv, 5);
    var m := Merged(PassFrame(LevelStart(ct), 0), recv, 0, 5);
    var want := [SelectCode(ct), Nvb(0)] + recv[..5];
    forall i | 0 <= i < 7
      ensures m[i] == want[i]
    {
      if i >= 2 {
        assert m[2 + (i - 2)] == recv[i - 2];
      }
    }
  }

  /** Every bit set in a UID byte of buffer a is set in buffer v. */
  predicate KeepsBits(v: seq<byte>, a: seq<byte>)
    requires |v| == 7 && |a| == 7
  {
    forall i :: 2 <= i < 7 ==> v[i] & a[i] == a[i]
  }

  lemma KeepsBitsTrans(v: seq<byte>, b: seq<byte>, a: seq<byte>)
    requires |v| == 7 && |b| == 7 && |a| == 7
    requires KeepsBits(v, b) && KeepsBits(b, a)
    ensures KeepsBits(v, a)
  {
    forall i | 2 <= i < 7
      ensures v[i] & a[i] == a[i]
    {
      AndKeeps(v[i], b[i], a[i]);
    }
  }

  /** Bits set in z and kept by y, which keeps all of x's, are kept by x. */
  lemma AndKeeps(x: byte, y: byte, z: byte)
    requires x & y == y && y & z == z
    ensures x & z == z
  {
  }

  /** A walk that succeeds before all 40 bits are known took its next pass:
      the chip answered, the answer was usable, and the rest of the walk
      from the merged buffer gives the result. */
  lemma WalkPassResult(a: seq<byte>, g: nat, s: seq<byte>)
    requires |a| == 7 && g < LevelBits && Walk(a, g, s).result.Ok?
    ensures ReceiveBitsSpec(s).result.Ok?
    ensures var rx := ReceiveBitsSpec(s).result.value;
      && WalkStep(g, rx.0, rx.1).Ok?
      && var step := WalkStep(g, rx.0, rx.1).value;
         Walk(a, g, s).result == Walk(Merged(PassFrame(a, g), step.data, step.lo, step.hi), step.good, ReceiveBitsSpec(s).rest).result
  {
  }

  /** The walk never clears a bit of the UID part of the buffer it starts
      from: every later pass only ORs the chip's answer in. */
  lemma {:induction false} WalkNeverClears(a: seq<byte>, g: nat, s: seq<byte>)
    requires |a| == 7 && g <= LevelBits
    ensures Walk(a, g, s).result.Ok? ==> KeepsBits(Walk(a, g, s).result.value, a)
    decreases LevelBits - g
  {
    if Walk(a, g, s).result.Ok? {
      if g == LevelBits {
        assert Walk(a, g, s).result.value == a;
      } else {
        WalkPassResult(a, g, s);
        var rx := ReceiveBitsSpec(s).result.value;
        var step := WalkStep(g, rx.0, rx.1).value;
        var b := Merged(PassFrame(a, g), step.data, step.lo, step.hi);
        MergedKeeps(PassFrame(a, g), step.data, step.lo, step.hi);
        WalkNeverClears(b, step.good, ReceiveBitsSpec(s).rest);
        assert KeepsBits(b, a);
        KeepsBitsTrans(Walk(a, g, s).result.value, b, a);
      }
    }
  }

  /** When the chip reports a collision at bit p of the first pass, the
      resolved UID keeps every 1 bit the chip received up to and including
      bit p, the collision bit taken as the chip sent it. */
  lemma WalkKeepsFirstCollision(ct: nat, s: seq<byte>, p: int)
    requires 1 <= ct <= 3
    requires ReceiveBitsSpec(s).result.Ok? && ReceiveBitsSpec(s).result.value.1 == Some(p)
    requires KeepBeforeCollision(ReceiveBitsSpec(s).result.value.0, p).Some?
    ensures var kept := KeepBeforeCollision(ReceiveBitsSpec(s).result.value.0, p).value;
      Walk(LevelStart(ct), 0, s).result.Ok? ==>
        |kept| <= 5 && forall i :: 0 <= i < |kept| ==> Walk(LevelStart(ct), 0, s).result.value[2 + i] & kept[i] == kept[i]
  {
    if Walk(LevelStart(ct), 0, s).result.Ok? {
      FirstPassStep(ct, s, p);
      var kept := KeepBeforeCollision(ReceiveBitsSpec(s).result.value.0, p).value;
      var b := Merged(PassFrame(LevelStart(ct), 0), kept, 0, |kept|);
      WalkNeverClears(b, WalkStep(0, ReceiveBitsSpec(s).result.value.0, Some(p)).value.good, ReceiveBitsSpec(s).rest);
      FirstPassKept(ct, Walk(LevelStart(ct), 0, s).result.value, kept);
    }
  }

  /** A first pass that reports a collision at bit p merges the bits kept
      before it into an empty UID part and hands the rest of the walk on. */
  lemma FirstPassStep(ct: nat, s: seq<byte>, p: int)
    requires 1 <= ct <= 3 && Walk(LevelStart(ct), 0, s).result.Ok?
    requires ReceiveBitsSpec(s).result.Ok? && ReceiveBitsSpec(s).result.value.1 == Some(p)
    requires KeepBeforeCollision(ReceiveBitsSpec(s).result.value.0, p).Some?
    ensures var recv := ReceiveBitsSpec(s).result.value.0;
      var kept := KeepBeforeCollision(recv, p).value;
      && WalkStep(0, recv, Some(p)).Ok?
      && var step := WalkStep(0, recv, Some(p)).value;
         && |kept| <= 5 && step.good <= LevelBits
         && Walk(LevelStart(ct), 0, s).result
            == Walk(Merged(PassFrame(LevelStart(ct), 0), kept, 0, |kept|), step.good, ReceiveBitsSpec(s).rest).result
  {
    var a := LevelStart(ct);
    WalkPassResult(a, 0, s);
    var recv := ReceiveBitsSpec(s).result.value.0;
    var kept := KeepBeforeCollision(recv, p).value;
    var step := WalkStep(0, recv, Some(p)).value;
    assert step.data == kept && step.lo == 0 && step.hi == |kept| <= 5;
  }

  /** A collision at bit p of the first pass, then a second pass without
      one: the walk resolves the level in exactly these two passes. The UID
      bytes before the one holding bit p + 1 are the chip's first answer as
      kept. A byte the collision splits is the kept bits ORed with the first
      byte of the second answer. The bytes after it come from the second
      answer alone. */
  lemma WalkResolvesCollision(ct: nat, s: seq<byte>, p: int)
    requires 1 <= ct <= 3
    requires ReceiveBitsSpec(s).result.Ok? && ReceiveBitsSpec(s).result.value.1 == Some(p)
    requires KeepBeforeCollision(ReceiveBitsSpec(s).result.value.0, p).Some? && p + 1 < LevelBits
    requires var second := ReceiveBitsSpec(ReceiveBitsSpec(s).rest);
      second.result.Ok? && second.result.value.1.None? && 5 - (p + 1) / 8 <= |second.result.value.0|
    ensures var kept := KeepBeforeCollision(ReceiveBitsSpec(s).result.value.0, p).value;
      var second := ReceiveBitsSpec(ReceiveBitsSpec(s).rest);
      var recv := second.result.value.0;
      var w := Walk(LevelStart(ct), 0, s);
      && w.result.Ok? && w.rest == second.rest
      && (forall i :: 0 <= i < (p + 1) / 8 ==> w.result.value[2 + i] == kept[i])
      && ((p + 1) % 8 != 0 ==> w.result.value[2 + p / 8] == kept[p / 8] | recv[0])
      && (forall j :: 2 + |kept| <= j < 7 ==> w.result.value[j] == recv[j - 2 - (p + 1) / 8])
  {
    var first := ReceiveBitsSpec(s);
    var kept := KeepBeforeCollision(first.result.value.0, p).value;
    var b := Merged(PassFrame(LevelStart(ct), 0), kept, 0, |kept|);
    var recv := ReceiveBitsSpec(first.rest).result.value.0;
    var lo := (p + 1) / 8;
    var c := Merged(PassFrame(b, p + 1), recv, lo, 5);
    CollisionPass(ct, s, p);
    CleanPass(b, p + 1, first.rest);
    var w := Walk(LevelStart(ct), 0, s);
    assert w.result == Ok(c) && w.rest == ReceiveBitsSpec(first.rest).rest;
    SecondPassBytes(b, kept, recv, p);
  }

  /** The second pass's frame leaves the UID bytes of the buffer alone, so
      its merge is ResolvedBytes of the buffer's bytes. */
  lemma SecondPassBytes(b: seq<byte>, kept: seq<byte>, recv: seq<byte>, p: int)
    requires |b| == 7 && 0 <= p && p + 1 < LevelBits && |kept| == p / 8 + 1
    requires 5 - (p + 1) / 8 <= |recv|
    requires forall i :: 0 <= i < |kept| ==> b[2 + i] == kept[i]
    requires forall j :: 2 + |kept| <= j < 7 ==> b[j] == 0
    ensures var c := Merged(PassFrame(b, p + 1), recv, (p + 1) / 8, 5);
      && (forall i :: 0 <= i < (p + 1) / 8 ==> c[2 + i] == kept[i])
      && ((p + 1) % 8 != 0 ==> c[2 + p / 8] == kept[p / 8] | recv[0])
      && (forall j :: 2 + |kept| <= j < 7 ==> c[j] == recv[j - 2 - (p + 1) / 8])
  {
    var a := PassFrame(b, p + 1);
    assert forall i :: 2 <= i < 7 ==> a[i] == b[i];
    ResolvedBytes(a, kept, recv, p);
  }

  /** The UID bytes of the second pass's merge, in the terms of the bit p
      of the collision. */
  lemma ResolvedBytes(a: seq<byte>, kept: seq<byte>, recv: seq<byte>, p: int)
    requires |a| == 7 && 0 <= p && p + 1 < LevelBits && |kept| == p / 8 + 1
    requires 5 - (p + 1) / 8 <= |recv|
    requires forall i :: 0 <= i < |kept| ==> a[2 + i] == kept[i]
    requires forall j :: 2 + |kept| <= j < 7 ==> a[j] == 0
    ensures forall i :: 0 <= i < (p + 1) / 8 ==> Merged(a, recv, (p + 1) / 8, 5)[2 + i] == kept[i]
    ensures (p + 1) % 8 != 0 ==> Merged(a, recv, (p + 1) / 8, 5)[2 + p / 8] == kept[p / 8] | recv[0]
    ensures var c := Merged(a, recv, (p + 1) / 8, 5);
      forall j :: 2 + |kept| <= j < 7 ==> c[j] == recv[j - 2 - (p + 1) / 8]
  {
    NextBitByte(p);
    SecondMerge(a, kept, recv, (p + 1) / 8);
  }

  /** The first pass with a collision at bit p: the walk goes on at p + 1
      known bits from the merged buffer b, which holds the kept bytes and
      zeros after them. */
  lemma CollisionPass(ct: nat, s: seq<byte>, p: int)
    requires 1 <= ct <= 3
    requires ReceiveBitsSpec(s).result.Ok? && ReceiveBitsSpec(s).result.value.1 == Some(p)
    requires KeepBeforeCollision(ReceiveBitsSpec(s).result.value.0, p).Some? && p + 1 < LevelBits
    ensures var kept := KeepBeforeCollision(ReceiveBitsSpec(s).result.value.0, p).value;
      var b := Merged(PassFrame(LevelStart(ct), 0), kept, 0, |kept|);
      && |kept| <= 5
      && (forall i :: 0 <= i < |kept| ==> b[2 + i] == kept[i])
      && (forall j :: 2 + |kept| <= j < 7 ==> b[j] == 0)
      && Walk(LevelStart(ct), 0, s).result == Walk(b, p + 1, ReceiveBitsSpec(s).rest).result
      && Walk(LevelStart(ct), 0, s).rest == Walk(b, p + 1, ReceiveBitsSpec(s).rest).rest
  {
    var a := LevelStart(ct);
    var first := ReceiveBitsSpec(s);
    var kept := KeepBeforeCollision(first.result.value.0, p).value;
    CollisionStep(first.result.value.0, p);
    FirstMerge(ct, kept, |kept|);
    MergedKeeps(PassFrame(a, 0), kept, 0, |kept|);
  }

  /** A pass without a collision ends the walk, whatever the bits known:
      the buffer is the received bytes ORed in from byte g / 8 on. */
  lemma CleanPass(b: seq<byte>, g: nat, s: seq<byte>)
    requires |b| == 7 && g < LevelBits
    requires ReceiveBitsSpec(s).result.Ok? && ReceiveBitsSpec(s).result.value.1.None?
    requires 5 - g / 8 <= |ReceiveBitsSpec(s).result.value.0|
    ensures Walk(b, g, s).result == Ok(Merged(PassFrame(b, g), ReceiveBitsSpec(s).result.value.0, g / 8, 5))
    ensures Walk(b, g, s).rest == ReceiveBitsSpec(s).rest
  {
    var recv := ReceiveBitsSpec(s).result.value.0;
    assert WalkStep(g, recv, None) == Ok(Step(LevelBits, recv, g / 8, 5));
  }

  /** The UID bytes after a last pass that merges from byte lo on into a
      buffer holding `kept` and zeros after it, where `kept` ends at byte lo
      or at the byte after it. */
  lemma SecondMerge(a: seq<byte>, kept: seq<byte>, recv: seq<byte>, lo: nat)
    requires |a| == 7 && lo <= |kept| <= lo + 1 && |kept| <= 5 && lo < 5 && 5 - lo <= |recv|
    requires forall i :: 0 <= i < |kept| ==> a[2 + i] == kept[i]
    requires forall j :: 2 + |kept| <= j < 7 ==> a[j] == 0
    ensures forall i :: 0 <= i < lo ==> Merged(a, recv, lo, 5)[2 + i] == kept[i]
    ensures |kept| == lo + 1 ==> Merged(a, recv, lo, 5)[2 + lo] == kept[lo] | recv[0]
    ensures forall j :: 2 + |kept| <= j < 7 ==> Merged(a, recv, lo, 5)[j] == recv[j - 2 - lo]
  {
    var c := Merged(a, recv, lo, 5);
    forall j | 2 + |kept| <= j < 7
      ensures c[j] == recv[j - 2 - lo]
    {
      assert c[j] == 0 | recv[j - 2 - lo];
    }
  }

  /** Bit p + 1 starts a new byte exactly when p ends one. */
  lemma NextBitByte(p: nat)
    ensures (p + 1) % 8 != 0 ==> (p + 1) / 8 == p / 8
    ensures (p + 1) % 8 == 0 ==> (p + 1) / 8 == p / 8 + 1
    ensures (p + 1 + 7) / 8 == p / 8 + 1
  {
  }

  /** The step of a first pass that reports a collision at bit p. */
  lemma CollisionStep(recv: seq<byte>, p: int)
    requires KeepBeforeCollision(recv, p).Some? && p + 1 < LevelBits
    ensures WalkStep(0, recv, Some(p))
      == Ok(Step(p + 1, KeepBeforeCollision(recv, p).value, 0, |KeepBeforeCollision(recv, p).value|))
  {
    NextBitByte(p);
  }

  /** A buffer that keeps the bits of the first pass's merge keeps the bits
      the chip sent in it. */
  lemma FirstPassKept(ct: nat, v: seq<byte>, kept: seq<byte>)
    requires 1 <= ct <= 3 && |v| == 7 && |kept| <= 5
    requires KeepsBits(v, Merged(PassFrame(LevelStart(ct), 0), kept, 0, |kept|))
    ensures forall i :: 0 <= i < |kept| ==> v[2 + i] & kept[i] == kept[i]
  {
    var b := Merged(PassFrame(LevelStart(ct), 0), kept, 0, |kept|);
    FirstMerge(ct, kept, |kept|);
    forall i | 0 <= i < |kept|
      ensures v[2 + i] & kept[i] == kept[i]
    {
      assert v[2 + i] & b[2 + i] == b[2 + i];
    }
  }

  /** The first pass merges into an empty UID part, so the merged bytes are
      the chip's. */
  lemma FirstMerge(ct: nat, data: seq<byte>, hi: nat)
    requires 1 <= ct <= 3 && hi <= 5 && hi <= |data|
    ensures forall i :: 0 <= i < hi ==> Merged(PassFrame(LevelStart(ct), 0), data, 0, hi)[2 + i] == data[i]
  {
    var a := PassFrame(LevelStart(ct), 0);
    forall i | 0 <= i < hi
      ensures Merged(a, data, 0, hi)[2 + i] == data[i]
    {
      assert a[2 + i] == LevelStart(ct)[1..][1 + i] == 0;
    }
  }

  /** The frame of one pass is an ISO/IEC 14443-3 anticollision frame of
      the buffer's level: NVB counts the 16 + g bits sent, and TxLastBits and
      RxAlign are both g mod 8. */
  lemma PassIsAnticolFrame(ct: nat, a: seq<byte>, g: nat)
    requires 1 <= ct <= 3 && |a| == 7 && a[0] == SelectCode(ct) && g < LevelBits
    ensures AnticolFrame(ct, BitFrame(PassSent(a, g), PassFraming(g)))
  {
    var f := PassFrame(a, g);
    var data := PassSent(a, g);
    assert (16 + g + 7) / 8 <= 7;
    assert data == f[..(16 + g + 7) / 8];
    assert data[0] == a[0] && data[1] == Nvb(g);
    NvbBits(g);
    PassFramingBits(g);
  }

  /** The NVB of a pass counts its 16 + g bits. */
  lemma NvbBits(g: nat)
    requires g < LevelBits
    ensures 8 * ((Nvb(g) >> 4) as int) + (Nvb(g) & 0x0F) as int == 16 + g
  {
  }

  /** The BitFramingReg value of a pass sets StartSend, and both TxLastBits
      and RxAlign to g mod 8. */
  lemma PassFramingBits(g: nat)
    requires g < LevelBits
    ensures PassFraming(g) & 0x80 == 0x80
    ensures (PassFraming(g) & 0x07) as int == (16 + g) % 8
    ensures ((PassFraming(g) >> 4) & 0x07) as int == (16 + g) % 8
  {
    SmallByte(g % 8);
  }

  /** All frames are anticollision frames of level ct. */
  predicate AllAnticol(ct: nat, xs: seq<Exchange>)
    requires 1 <= ct <= 3
  {
    forall i :: 0 <= i < |xs| ==> AnticolFrame(ct, xs[i])
  }

  lemma AllAnticolCons(ct: nat, x: Exchange, xs: seq<Exchange>)
    requires 1 <= ct <= 3 && AnticolFrame(ct, x) && AllAnticol(ct, xs)
    ensures AllAnticol(ct, [x] + xs)
  {
    forall i | 0 <= i < |[x] + xs|
      ensures AnticolFrame(ct, ([x] + xs)[i])
    {
      if i > 0 {
        assert ([x] + xs)[i] == xs[i - 1];
      }
    }
  }

  /** The frames of a walk: this pass's, then, when its answer is usable,
      those of the walk from the merged buffer. */
  lemma WalkFramesStep(a: seq<byte>, g: nat, s: seq<byte>)
    requires |a| == 7 && g < LevelBits
    ensures var x := BitFrame(PassSent(a, g), PassFraming(g));
      var rx := ReceiveBitsSpec(s);
      if rx.result.Ok? && WalkStep(g, rx.result.value.0, rx.result.value.1).Ok? then
        var step := WalkStep(g, rx.result.value.0, rx.result.value.1).value;
        Walk(a, g, s).frames == [x] + Walk(Merged(PassFrame(a, g), step.data, step.lo, step.hi), step.good, rx.rest).frames
      else Walk(a, g, s).frames == [x]
  {
  }

  /** Every frame the walk of a level sends is an anticollision frame of
      that level. */
  lemma {:induction false} WalkFrames(ct: nat, a: seq<byte>, g: nat, s: seq<byte>)
    requires 1 <= ct <= 3 && |a| == 7 && a[0] == SelectCode(ct) && g <= LevelBits
    ensures AllAnticol(ct, Walk(a, g, s).frames)
    decreases LevelBits - g
  {
    if g < LevelBits {
      var x := BitFrame(PassSent(a, g), PassFraming(g));
      PassIsAnticolFrame(ct, a, g);
      WalkFramesStep(a, g, s);
      var rx := ReceiveBitsSpec(s);
      if rx.result.Ok? && WalkStep(g, rx.result.value.0, rx.result.value.1).Ok? {
        var step := WalkStep(g, rx.result.value.0, rx.result.value.1).value;
        var b := Merged(PassFrame(a, g), step.data, step.lo, step.hi);
        MergedKeeps(PassFrame(a, g), step.data, step.lo, step.hi);
        assert b[0] == b[..2][0] == a[0];
        WalkFrames(ct, b, step.good, rx.rest);
        AllAnticolCons(ct, x, Walk(b, step.good, rx.rest).frames);
      } else {
        AllAnticolCons(ct, x, []);
        assert [x] + [] == [x];
      }
    }
  }

  /** A level fails its BCC check exactly when the walk resolves a buffer
      whose check byte is not the XOR of its four UID bytes; the error then
      carries that check byte and the computed one. */
  lemma LevelBcc(ct: nat, s: seq<byte>)
    requires 1 <= ct <= 3
    ensures var o := LevelSpec(ct, s); var w := Walk(LevelStart(ct), 0, s);
      (o.result.Err? && o.result.error.InvalidBcc?) <==>
        (w.result.Ok? && w.result.value[6] != Bcc(w.result.value[2..6]))
    ensures var o := LevelSpec(ct, s); var w := Walk(LevelStart(ct), 0, s);
      o.result.Err? && o.result.error.InvalidBcc? ==>
        o.result.error == InvalidBcc(w.result.value[6], Bcc(w.result.value[2..6]))
  {
  }

  /** The answers of a tag at one cascade level: the five bytes of its
      undisturbed anticollision answer (four UID bytes and their BCC), then
      its answer to the SELECT. */
  function LevelAnswer(part: seq<byte>, sak: seq<byte>): (s: seq<byte>)
    requires |part| == 4 && |sak| < 128
  {
    BitAnswer(part + [Bcc(part)]) + ByteAnswer(sak)
  }

  /** The buffer a level resolves to when the tag's four bytes are `part`:
      the select code, NVB 0x20, the bytes and their BCC. */
  function CleanBuffer(ct: nat, part: seq<byte>): (a: seq<byte>)
    requires 1 <= ct <= 3 && |part| == 4
    ensures |a| == 7 && a[2..6] == part && a[2] == part[0] && a[3..6] == part[1..]
  {
    [SelectCode(ct), Nvb(0)] + part + [Bcc(part)]
  }

  /** A level the tag answers cleanly resolves to its clean buffer and
      consumes exactly its answers. */
  lemma LevelClean(ct: nat, part: seq<byte>, sak: seq<byte>, rest: seq<byte>)
    requires 1 <= ct <= 3 && |part| == 4 && |sak| < 128
    ensures LevelSpec(ct, LevelAnswer(part, sak) + rest) == Outcome(Ok(CleanBuffer(ct, part)), rest)
  {
    var recv := part + [Bcc(part)];
    var s := LevelAnswer(part, sak) + rest;
    AppendAssoc(BitAnswer(recv), ByteAnswer(sak), rest);
    ReceiveBitsClean(recv, ByteAnswer(sak) + rest);
    WalkNoCollision(ct, s);
    var a := CleanBuffer(ct, part);
    assert recv[..5] == recv;
    assert [SelectCode(ct), Nvb(0)] + recv == a;
    ReceiveClean(sak, rest);
  }

  /** The answers of a tag at the levels that carry `rest` of its UID: a level
      with the cascade tag and three bytes while more than four remain, then
      one with the last four. */
  function LevelsScript(rest: seq<byte>, sak: seq<byte>): seq<byte>
    requires |sak| < 128
    decreases |rest|
  {
    if |rest| > 4 then LevelAnswer(NextPart(rest), sak) + LevelsScript(AfterPart(rest), sak)
    else if |rest| == 4 then LevelAnswer(rest, sak)
    else []
  }

  /** A level below 3 whose tag answers with the cascade tag and three UID
      bytes hands those bytes on to the next level. */
  lemma LevelCascades(ct: nat, known: seq<byte>, piece: seq<byte>, sak: seq<byte>, tail: seq<byte>)
    requires 1 <= ct < 3 && |known| == 3 * (ct - 1) && |piece| == 3 && |sak| < 128
    ensures ScanLevelsSpec(ct, known, LevelAnswer([CascadeTag] + piece, sak) + tail)
      == ScanLevelsSpec(ct + 1, known + piece, tail)
  {
    var part := [CascadeTag] + piece;
    LevelClean(ct, part, sak, tail);
    assert part[0] == CascadeTag && part[1..] == piece;
  }

  /** A level that is 3, or whose four UID bytes do not start with the
      cascade tag, ends the scan with those bytes. */
  lemma LevelEnds(ct: nat, known: seq<byte>, part: seq<byte>, sak: seq<byte>, tail: seq<byte>)
    requires 1 <= ct <= 3 && |known| == 3 * (ct - 1) && |part| == 4 && |sak| < 128
    requires ct < 3 ==> part[0] != CascadeTag
    ensures ScanLevelsSpec(ct, known, LevelAnswer(part, sak) + tail) == Outcome(Ok(known + part), tail)
  {
    LevelClean(ct, part, sak, tail);
  }

  lemma LevelsScriptCascade(rest: seq<byte>, sak: seq<byte>, tail: seq<byte>)
    requires |rest| > 4 && |sak| < 128
    ensures LevelsScript(rest, sak) + tail
      == LevelAnswer([CascadeTag] + rest[..3], sak) + (LevelsScript(rest[3..], sak) + tail)
  {
    var x := LevelAnswer(NextPart(rest), sak);
    var y := LevelsScript(AfterPart(rest), sak);
    assert LevelsScript(rest, sak) == x + y;
    AppendAssoc(x, y, tail);
  }

  lemma SplitAfterThree(known: seq<byte>, rest: seq<byte>)
    requires |rest| >= 3
    ensures known + rest[..3] + rest[3..] == known + rest
  {
    assert rest[..3] + rest[3..] == rest;
  }

  /** The levels from ct on read the rest of the UID from a tag that answers
      cleanly, when the levels left suffice for it and the last four bytes,
      if they reach a level below 3, do not start with the cascade tag. */
  lemma {:induction false} LevelsRead(ct: nat, known: seq<byte>, rest: seq<byte>, sak: seq<byte>, tail: seq<byte>)
    requires 1 <= ct <= 3 && |known| == 3 * (ct - 1) && |sak| < 128
    requires (|rest| == 4 && ct <= 3) || (|rest| == 7 && ct <= 2) || (|rest| == 10 && ct == 1)
    requires |rest| == 4 && ct < 3 ==> rest[0] != CascadeTag
    requires |rest| == 7 && ct == 1 ==> rest[3] != CascadeTag
    ensures ScanLevelsSpec(ct, known, LevelsScript(rest, sak) + tail) == Outcome(Ok(known + rest), tail)
    decreases |rest|
  {
    if |rest| > 4 {
      var after := rest[3..];
      LevelsScriptCascade(rest, sak, tail);
      LevelCascades(ct, known, rest[..3], sak, LevelsScript(after, sak) + tail);
      LevelsRead(ct + 1, known + rest[..3], after, sak, tail);
      SplitAfterThree(known, rest);
    } else {
      LevelEnds(ct, known, rest, sak, tail);
    }
  }

  /** A scan of a single tag that answers every exchange cleanly returns its
      UID: four bytes that do not start with the cascade tag, seven whose
      fourth byte is not the cascade tag, or ten. */
  lemma ScanReadsCard(atqa: seq<byte>, uid: seq<byte>, sak: seq<byte>, tail: seq<byte>)
    requires |atqa| < 128 && |sak| < 128 && |uid| in {4, 7, 10}
    requires |uid| == 4 ==> uid[0] != CascadeTag
    requires |uid| == 7 ==> uid[3] != CascadeTag
    ensures ScanSpec(BitAnswer(atqa) + LevelsScript(uid, sak) + tail) == Outcome(Ok(uid), tail)
  {
    AppendAssoc(BitAnswer(atqa), LevelsScript(uid, sak), tail);
    ReceiveBitsClean(atqa, LevelsScript(uid, sak) + tail);
    LevelsRead(1, [], uid, sak, tail);
    assert [] + uid == uid;
  }

  /** The single-size tag of UID 04 5A F6 62 (BCC 0xCA), answering ATQA
      44 00 and SAK 08, is read as that UID. */
  lemma ScanReadsSingleSizeTag()
    ensures Bcc([0x04, 0x5A, 0xF6, 0x62]) == 0xCA
    ensures ScanSpec(BitAnswer([0x44, 0x00]) + LevelsScript([0x04, 0x5A, 0xF6, 0x62], [0x08])).result
      == Ok([0x04, 0x5A, 0xF6, 0x62])
  {
    var uid: seq<byte> := [0x04, 0x5A, 0xF6, 0x62];
    ScanReadsCard([0x44, 0x00], uid, [0x08], []);
    assert BitAnswer([0x44, 0x00]) + LevelsScript(uid, [0x08]) + [] == BitAnswer([0x44, 0x00]) + LevelsScript(uid, [0x08]);
  }

  /** The answers of a tag to n SELECT frames: the SAK, each time. */
  function SakAnswers(n: nat, sak: seq<byte>): (s: seq<byte>)
    requires |sak| < 128
  {
    if n == 0 then [] else ByteAnswer(sak) + SakAnswers(n - 1, sak)
  }

  /** SELECT frames the tag answers with its SAK all succeed, and consume
      exactly those answers. */
  lemma {:induction false} ExchangesClean(frames: seq<seq<byte>>, tx: Option<bool>, rx: Option<bool>, sak: seq<byte>, tail: seq<byte>)
    requires |sak| < 128
    ensures SelectExchanges(frames, tx, rx, SakAnswers(|frames|, sak) + tail).result.Ok?
    ensures SelectExchanges(frames, tx, rx, SakAnswers(|frames|, sak) + tail).rest == tail
    decreases |frames|
  {
    if frames == [] {
      assert SakAnswers(0, sak) + tail == tail;
    } else {
      assert |frames[1..]| == |frames| - 1;
      ExchangesClean(frames[1..], Some(true), Some(true), sak, tail);
      ExchangeClean(frames, tx, rx, sak, tail);
    }
  }

  /** The first SELECT answered with the SAK hands the rest of the answers
      on to the remaining frames. */
  lemma ExchangeClean(frames: seq<seq<byte>>, tx: Option<bool>, rx: Option<bool>, sak: seq<byte>, tail: seq<byte>)
    requires |sak| < 128 && frames != []
    requires var l := SelectExchanges(frames[1..], Some(true), Some(true), SakAnswers(|frames| - 1, sak) + tail);
      l.result.Ok? && l.rest == tail
    ensures var e := SelectExchanges(frames, tx, rx, SakAnswers(|frames|, sak) + tail);
      e.result.Ok? && e.rest == tail
  {
    var more := SakAnswers(|frames| - 1, sak) + tail;
    AppendAssoc(ByteAnswer(sak), SakAnswers(|frames| - 1, sak), tail);
    ReceiveClean(sak, more);
    ExchangeStep(frames, tx, rx, ByteAnswer(sak) + more);
  }

  /** An answered SELECT hands the remaining frames on with CRC on. */
  lemma ExchangeStep(frames: seq<seq<byte>>, tx: Option<bool>, rx: Option<bool>, s: seq<byte>)
    requires frames != [] && ReceiveSpec(s).result.Ok?
    ensures var l := SelectExchanges(frames[1..], Some(true), Some(true), ReceiveSpec(s).rest);
      SelectExchanges(frames, tx, rx, s).result == l.result && SelectExchanges(frames, tx, rx, s).rest == l.rest
  {
  }

  /** Re-selecting a tag of UID `uid` that answers REQA with its ATQA and
      every SELECT with its SAK succeeds, whatever the CRC cache held, and
      consumes exactly those answers: one SELECT per cascade level. */
  lemma SelectReadsCard(uid: seq<byte>, tx: Option<bool>, rx: Option<bool>, atqa: seq<byte>, sak: seq<byte>, tail: seq<byte>)
    requires |uid| in {4, 7, 10} && |atqa| < 128 && |sak| < 128
    ensures var e := SelectSpec(uid, tx, rx, BitAnswer(atqa) + SakAnswers(|uid| / 3, sak) + tail);
      e.result.Ok? && e.rest == tail
  {
    var answers := SakAnswers(|uid| / 3, sak);
    AppendAssoc(BitAnswer(atqa), answers, tail);
    SelectAfterAtqa(uid, tx, rx, atqa, answers + tail);
    ExchangesClean(SelectFrames(uid), Some(false), Some(false), sak, tail);
  }

  /** After the ATQA, re-selecting is the SELECT exchanges of the UID's
      frames from the rest of the answers, with CRC off in the cache. */
  lemma SelectAfterAtqa(uid: seq<byte>, tx: Option<bool>, rx: Option<bool>, atqa: seq<byte>, more: seq<byte>)
    requires |uid| in {4, 7, 10} && |atqa| < 128
    ensures var l := SelectExchanges(SelectFrames(uid), Some(false), Some(false), more);
      var e := SelectSpec(uid, tx, rx, BitAnswer(atqa) + more);
      e.result == l.result && e.rest == l.rest
  {
    ReceiveBitsClean(atqa, more);
    SelectAfterRequest(uid, tx, rx, BitAnswer(atqa) + more);
  }

  /** After an answered REQA, re-selecting is the SELECT exchanges of the
      UID's frames from the rest of the answers, with CRC off in the cache. */
  lemma SelectAfterRequest(uid: seq<byte>, tx: Option<bool>, rx: Option<bool>, s: seq<byte>)
    requires |uid| in {4, 7, 10} && ReceiveBitsSpec(s).result.Ok?
    ensures var l := SelectExchanges(SelectFrames(uid), Some(false), Some(false), ReceiveBitsSpec(s).rest);
      SelectSpec(uid, tx, rx, s).result == l.result && SelectSpec(uid, tx, rx, s).rest == l.rest
  {
  }
}
