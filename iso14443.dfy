/** The ISO/IEC 14443-3 Type A pieces of the select and anticollision
    sequence (clause 6.5) that the reader's scan and select build: select
    codes, NVB, BCC, SELECT frames per cascade level, and one pass of the
    bit-level anticollision walk. */
module Iso14443 {
  import opened Common

  /** The cascade tag that opens a UID part which is not the last one. */
  const CascadeTag: byte := 0x88
  /** REQA and WUPA, sent as 7-bit short frames. */
  const ReqA: byte := 0x26
  const WupA: byte := 0x52
  /** NVB of a complete SELECT: 7 whole bytes, no extra bits. */
  const SelectNvb: byte := 0x70
  /** Number of UID and BCC bits of one cascade level. */
  const LevelBits: nat := 40

  /** The select code of cascade level ct (SEL of clause 6.5.3). */
  function SelectCode(ct: nat): (c: byte)
    requires 1 <= ct <= 3
    ensures ct == 1 ==> c == 0x93
    ensures ct == 2 ==> c == 0x95
    ensures ct == 3 ==> c == 0x97
  {
    (0x91 + ct * 2) as byte
  }

  /** NVB of an anticollision frame carrying g known UID bits after the select
      code and the NVB byte: the high nibble counts the whole bytes sent, the
      low nibble the extra bits. */
  function Nvb(g: nat): (n: byte)
    requires g < LevelBits
    ensures (n >> 4) as int == 2 + g / 8
    ensures (n & 0x0F) as int == g % 8
    ensures 0x20 <= n <= 0x67 && n != SelectNvb
  {
    (((2 + g / 8) as byte) << 4) | ((g % 8) as byte)
  }

  /** Block check character of a 4-byte UID part. */
  function Bcc(part: seq<byte>): (b: byte)
    requires |part| == 4
    ensures part[0] ^ part[1] ^ part[2] ^ part[3] ^ b == 0
  {
    part[0] ^ part[1] ^ part[2] ^ part[3]
  }

  /** Flipping any single bit of a UID part changes its BCC. */
  lemma BccDetectsBitFlip(part: seq<byte>, i: nat, bit: nat)
    requires |part| == 4 && i < 4 && bit < 8
    ensures Bcc(part[i := part[i] ^ (1 << bit)]) != Bcc(part)
  {
    var flip: byte := 1 << bit;
    assert flip != 0 by {
      assert bit == 0 || bit == 1 || bit == 2 || bit == 3 || bit == 4 || bit == 5 || bit == 6 || bit == 7;
    }
    BccDetectsFlip(part, i, flip);
  }

  /** Flipping any nonzero set of bits of one UID byte changes the BCC;
      each position is its own lemma so the solver sees one index at a time. */
  lemma BccDetectsFlip(part: seq<byte>, i: nat, flip: byte)
    requires |part| == 4 && i < 4 && flip != 0
    ensures Bcc(part[i := part[i] ^ flip]) != Bcc(part)
  {
    if i == 0 {
      BccDetectsFlipAt0(part, i, flip);
    } else if i == 1 {
      BccDetectsFlipAt1(part, i, flip);
    } else if i == 2 {
      BccDetectsFlipAt2(part, i, flip);
    } else {
      BccDetectsFlipAt3(part, i, flip);
    }
  }

  lemma BccDetectsFlipAt0(part: seq<byte>, i: nat, flip: byte)
    requires |part| == 4 && i == 0 && flip != 0
    ensures Bcc(part[i := part[i] ^ flip]) != Bcc(part)
  {
  }

  lemma BccDetectsFlipAt1(part: seq<byte>, i: nat, flip: byte)
    requires |part| == 4 && i == 1 && flip != 0
    ensures Bcc(part[i := part[i] ^ flip]) != Bcc(part)
  {
  }

  lemma BccDetectsFlipAt2(part: seq<byte>, i: nat, flip: byte)
    requires |part| == 4 && i == 2 && flip != 0
    ensures Bcc(part[i := part[i] ^ flip]) != Bcc(part)
  {
  }

  lemma BccDetectsFlipAt3(part: seq<byte>, i: nat, flip: byte)
    requires |part| == 4 && i == 3 && flip != 0
    ensures Bcc(part[i := part[i] ^ flip]) != Bcc(part)
  {
  }

  /** The SELECT frame of cascade level ct for the UID part `part`. */
  function SelectFrame(ct: nat, part: seq<byte>): (f: seq<byte>)
    requires 1 <= ct <= 3 && |part| == 4
    ensures |f| == 7 && f[0] == SelectCode(ct) && f[1] == SelectNvb
    ensures f[2..6] == part && f[6] == f[2] ^ f[3] ^ f[4] ^ f[5]
  {
    [SelectCode(ct), SelectNvb] + part + [Bcc(part)]
  }

  /** The SELECT frames that address `uid` from cascade level ct on: every
      level but the last takes the cascade tag and three UID bytes, the last
      takes the four remaining bytes. */
  function SelectFramesFrom(uid: seq<byte>, ct: nat): (fs: seq<seq<byte>>)
    requires |uid| in {4, 7, 10} && 1 <= ct && ct + |uid| / 3 <= 4
    ensures |fs| == |uid| / 3
    decreases |uid|
  {
    if |uid| > 4 then
      [SelectFrame(ct, [CascadeTag] + uid[..3])] + SelectFramesFrom(uid[3..], ct + 1)
    else
      [SelectFrame(ct, uid)]
  }

  /** Every SELECT frame is 7 bytes with NVB 0x70; the frame of level ct + i
      carries that level's select code, and all but the last the cascade tag. */
  lemma {:induction false} SelectFramesShape(uid: seq<byte>, ct: nat)
    requires |uid| in {4, 7, 10} && 1 <= ct && ct + |uid| / 3 <= 4
    ensures forall i :: 0 <= i < |uid| / 3 ==>
      |SelectFramesFrom(uid, ct)[i]| == 7 && SelectFramesFrom(uid, ct)[i][1] == SelectNvb
    ensures forall i :: 0 <= i < |uid| / 3 ==> SelectFramesFrom(uid, ct)[i][0] == SelectCode(ct + i)
    ensures forall i :: 0 <= i < |uid| / 3 - 1 ==> SelectFramesFrom(uid, ct)[i][2] == CascadeTag
    decreases |uid|
  {
    var fs := SelectFramesFrom(uid, ct);
    if |uid| > 4 {
      SelectFramesShape(uid[3..], ct + 1);
      var tail := SelectFramesFrom(uid[3..], ct + 1);
      var head := SelectFrame(ct, [CascadeTag] + uid[..3]);
      assert fs == [head] + tail;
      assert fs[0] == head && head[2..6] == [CascadeTag] + uid[..3];
      forall i | 1 <= i < |fs|
        ensures |fs[i]| == 7 && fs[i][1] == SelectNvb && fs[i][0] == SelectCode(ct + i)
      {
        assert fs[i] == tail[i - 1];
      }
    }
  }

  function SelectFrames(uid: seq<byte>): seq<seq<byte>>
    requires |uid| in {4, 7, 10}
  {
    SelectFramesFrom(uid, 1)
  }

  /** A 4, 7 or 10 byte UID takes one, two or three cascade levels. */
  lemma SelectFramesCount(uid: seq<byte>)
    requires |uid| in {4, 7, 10}
    ensures |uid| == 4 ==> |SelectFrames(uid)| == 1
    ensures |uid| == 7 ==> |SelectFrames(uid)| == 2
    ensures |uid| == 10 ==> |SelectFrames(uid)| == 3
  {
  }

  predicate AllSevenBytes(fs: seq<seq<byte>>)
  {
    forall i :: 0 <= i < |fs| ==> |fs[i]| == 7
  }

  /** The UID that a run of SELECT frames addresses: every frame but the last
      contributes the three bytes after its cascade tag, the last one its four
      UID bytes. */
  function UidOfFrames(fs: seq<seq<byte>>): seq<byte>
    requires AllSevenBytes(fs)
  {
    if fs == [] then []
    else if |fs| == 1 then fs[0][2..6]
    else fs[0][3..6] + UidOfFrames(fs[1..])
  }

  /** Dropping the cascade tags and concatenating the UID bytes of the SELECT
      frames gives back the UID. */
  lemma {:induction false} UidOfSelectFrames(uid: seq<byte>, ct: nat)
    requires |uid| in {4, 7, 10} && 1 <= ct && ct + |uid| / 3 <= 4
    ensures AllSevenBytes(SelectFramesFrom(uid, ct)) && UidOfFrames(SelectFramesFrom(uid, ct)) == uid
    decreases |uid|
  {
    var fs := SelectFramesFrom(uid, ct);
    SelectFramesShape(uid, ct);
    if |uid| > 4 {
      SelectFramesShape(uid[3..], ct + 1);
      UidOfSelectFrames(uid[3..], ct + 1);
      assert fs[1..] == SelectFramesFrom(uid[3..], ct + 1);
      assert fs[0][3..6] == uid[..3];
      assert uid == uid[..3] + uid[3..];
    }
  }

  /** The SELECT frames of the cascade levels that carry three UID bytes each
      after the cascade tag, starting at level ct. */
  function CascadeFrames(known: seq<byte>, ct: nat): seq<seq<byte>>
    requires |known| % 3 == 0 && 1 <= ct && ct + |known| / 3 <= 4
    decreases |known|
  {
    if known == [] then []
    else [SelectFrame(ct, [CascadeTag] + known[..3])] + CascadeFrames(known[3..], ct + 1)
  }

  /** Growing the known UID by one cascaded level adds that level's frame. */
  lemma {:induction false} CascadeFramesSnoc(known: seq<byte>, piece: seq<byte>, ct: nat)
    requires |known| % 3 == 0 && |piece| == 3 && 1 <= ct && ct + |known| / 3 <= 3
    ensures CascadeFrames(known + piece, ct)
         == CascadeFrames(known, ct) + [SelectFrame(ct + |known| / 3, [CascadeTag] + piece)]
    decreases |known|
  {
    if known == [] {
      assert (known + piece)[..3] == piece;
      assert (known + piece)[3..] == [];
    } else {
      assert (known + piece)[..3] == known[..3];
      assert (known + piece)[3..] == known[3..] + piece;
      CascadeFramesSnoc(known[3..], piece, ct + 1);
    }
  }

  /** The frames of a UID are those of its cascaded levels followed by the
      frame of its last four bytes. */
  lemma {:induction false} SelectFramesSplit(known: seq<byte>, part: seq<byte>, ct: nat)
    requires |known| % 3 == 0 && |part| == 4 && 1 <= ct && ct + |known| / 3 <= 3
    ensures |known + part| in {4, 7, 10}
    ensures SelectFramesFrom(known + part, ct)
         == CascadeFrames(known, ct) + [SelectFrame(ct + |known| / 3, part)]
    decreases |known|
  {
    if known == [] {
      assert known + part == part;
      assert CascadeFrames(known, ct) + [SelectFrame(ct, part)] == [SelectFrame(ct, part)];
    } else {
      assert |known[3..]| / 3 + 1 == |known| / 3;
      SelectFramesSplit(known[3..], part, ct + 1);
      SelectFramesSplitStep(known, part, ct);
    }
  }

  /** One cascaded level in front of the frames of the rest of the UID. */
  lemma SelectFramesSplitStep(known: seq<byte>, part: seq<byte>, ct: nat)
    requires |known| % 3 == 0 && known != [] && |part| == 4 && 1 <= ct && ct + |known| / 3 <= 3
    requires |known[3..] + part| in {4, 7}
    requires SelectFramesFrom(known[3..] + part, ct + 1)
          == CascadeFrames(known[3..], ct + 1) + [SelectFrame(ct + |known| / 3, part)]
    ensures |known + part| in {7, 10}
    ensures SelectFramesFrom(known + part, ct)
         == CascadeFrames(known, ct) + [SelectFrame(ct + |known| / 3, part)]
  {
    var head := SelectFrame(ct, [CascadeTag] + known[..3]);
    var last := SelectFrame(ct + |known| / 3, part);
    assert (known + part)[..3] == known[..3];
    assert (known + part)[3..] == known[3..] + part;
    assert SelectFramesFrom(known + part, ct) == [head] + SelectFramesFrom(known[3..] + part, ct + 1);
    AppendAssoc([head], CascadeFrames(known[3..], ct + 1), [last]);
  }

  /** A level of the walk with a matching BCC, its NVB set to 0x70, is the
      SELECT frame of that level's four bytes. */
  lemma LevelSelectFrame(anticol: seq<byte>, ct: nat)
    requires 1 <= ct <= 3 && |anticol| == 7 && anticol[0] == SelectCode(ct)
    requires anticol[6] == anticol[2] ^ anticol[3] ^ anticol[4] ^ anticol[5]
    ensures anticol[1 := SelectNvb] == SelectFrame(ct, anticol[2..6])
  {
    var f := SelectFrame(ct, anticol[2..6]);
    assert forall i :: 0 <= i < 7 ==> anticol[1 := SelectNvb][i] == f[i];
  }

  /** A scan that has resolved ct - 1 cascaded levels and ends at level ct
      has sent exactly the SELECT frames of the UID it returns. */
  lemma ScanFinish(sent: seq<seq<byte>>, known: seq<byte>, part: seq<byte>, ct: nat)
    requires 1 <= ct <= 3 && |known| == 3 * (ct - 1) && |part| == 4
    ensures |known + part| in {4, 7, 10}
    ensures sent + CascadeFrames(known, 1) + [SelectFrame(ct, part)] == sent + SelectFrames(known + part)
  {
    assert |known| / 3 == ct - 1;
    SelectFramesSplit(known, part, 1);
    assert sent + (CascadeFrames(known, 1) + [SelectFrame(ct, part)]) == sent + CascadeFrames(known, 1) + [SelectFrame(ct, part)];
  }

  /** A scan that finds a cascade tag at level ct < 3 has sent the frames
      of its known UID grown by that level's three bytes. */
  lemma ScanCascade(sent: seq<seq<byte>>, known: seq<byte>, a: seq<byte>, ct: nat)
    requires 1 <= ct < 3 && |known| == 3 * (ct - 1) && |a| == 7 && a[2] == CascadeTag
    ensures |known + a[3..6]| == 3 * ct
    ensures sent + CascadeFrames(known, 1) + [SelectFrame(ct, a[2..6])] == sent + CascadeFrames(known + a[3..6], 1)
  {
    var piece := a[3..6];
    assert a[2..6] == [CascadeTag] + piece;
    assert |known| / 3 == ct - 1;
    CascadeFramesSnoc(known, piece, 1);
    assert sent + (CascadeFrames(known, 1) + [SelectFrame(ct, [CascadeTag] + piece)])
        == sent + CascadeFrames(known, 1) + [SelectFrame(ct, [CascadeTag] + piece)];
  }

  /** The first SELECT frame of a UID, and the frames that follow it. */
  lemma SelectFramesHead(rest: seq<byte>, ct: nat)
    requires |rest| in {4, 7, 10} && 1 <= ct && ct + |rest| / 3 <= 4
    ensures |rest| > 4 ==> |rest[3..]| in {4, 7} && ct + 1 + |rest[3..]| / 3 <= 4
    ensures |rest| > 4 ==>
      SelectFramesFrom(rest, ct) == [SelectFrame(ct, [CascadeTag] + rest[..3])] + SelectFramesFrom(rest[3..], ct + 1)
    ensures |rest| == 4 ==> SelectFramesFrom(rest, ct) == [SelectFrame(ct, rest)]
  {
  }

  /** How far a SELECT of a known UID has got: `done` holds the frames sent
      so far and `rest` the UID bytes still to select from level ct on. */
  predicate SelectProgress(uid: seq<byte>, done: seq<seq<byte>>, rest: seq<byte>, ct: nat)
    requires |uid| in {4, 7, 10}
  {
    PendingShape(rest, ct) && SelectFrames(uid) == done + PendingFrames(rest, ct)
  }

  /** The UID bytes still to select from level ct on fit the cascade levels left. */
  predicate PendingShape(rest: seq<byte>, ct: nat)
  {
    (|rest| == 10 && ct == 1) || (|rest| == 7 && 1 <= ct <= 2) || (|rest| == 4 && 1 <= ct <= 3) || (rest == [] && 2 <= ct)
  }

  /** The SELECT frames still to send for the UID bytes `rest` from level ct on. */
  function PendingFrames(rest: seq<byte>, ct: nat): seq<seq<byte>>
    requires PendingShape(rest, ct)
  {
    if rest == [] then [] else SelectFramesFrom(rest, ct)
  }

  /** The first pending frame is the SELECT of the next part; the rest are
      those of the bytes after it, from the next level on. */
  lemma PendingStep(rest: seq<byte>, ct: nat)
    requires PendingShape(rest, ct) && rest != []
    ensures ct <= 3 && |NextPart(rest)| == 4 && |AfterPart(rest)| < |rest| && PendingShape(AfterPart(rest), ct + 1)
    ensures PendingFrames(rest, ct) == [SelectFrame(ct, NextPart(rest))] + PendingFrames(AfterPart(rest), ct + 1)
  {
    SelectFramesHead(rest, ct);
  }

  /** The next UID part a SELECT sends: the cascade tag and three bytes while
      more than four remain, else the last four; and the bytes left after it. */
  function NextPart(rest: seq<byte>): seq<byte>
  {
    if |rest| > 4 then [CascadeTag] + rest[..3] else rest
  }

  function AfterPart(rest: seq<byte>): seq<byte>
  {
    if |rest| > 4 then rest[3..] else []
  }

  /** Sending the frame of the next part advances the progress by one level,
      and the frames sent stay a prefix of the UID's frames. */
  lemma SelectProgressStart(uid: seq<byte>)
    requires |uid| in {4, 7, 10}
    ensures SelectProgress(uid, [], uid, 1)
  {
    assert [] + SelectFramesFrom(uid, 1) == SelectFramesFrom(uid, 1);
  }

  lemma SelectProgressEnd(uid: seq<byte>, done: seq<seq<byte>>, ct: nat)
    requires |uid| in {4, 7, 10} && SelectProgress(uid, done, [], ct)
    ensures done == SelectFrames(uid)
  {
    assert done + [] == done;
  }

  lemma SelectProgressStep(uid: seq<byte>, done: seq<seq<byte>>, rest: seq<byte>, ct: nat)
    requires |uid| in {4, 7, 10} && SelectProgress(uid, done, rest, ct) && rest != []
    ensures ct <= 3 && |NextPart(rest)| == 4
    ensures SelectProgress(uid, done + [SelectFrame(ct, NextPart(rest))], AfterPart(rest), ct + 1)
    ensures done + [SelectFrame(ct, NextPart(rest))] <= SelectFrames(uid)
  {
    PendingStep(rest, ct);
    AppendAssoc(done, [SelectFrame(ct, NextPart(rest))], PendingFrames(AfterPart(rest), ct + 1));
  }

  /** Appending the BCC of a frame's four UID bytes completes the SELECT frame. */
  lemma AppendBcc(ct: nat, part: seq<byte>)
    requires 1 <= ct <= 3 && |part| == 4
    ensures var c := [SelectCode(ct), SelectNvb] + part;
      c + [c[2] ^ c[3] ^ c[4] ^ c[5]] == SelectFrame(ct, part)
  {
  }

  /** The collision position reported by a Coll register value: none when
      CollPosNotValid (bit 5) is set, otherwise CollPos minus one, which is -1
      when CollPos is 0. */
  function CollisionPosition(c: byte): (p: Option<int>)
    ensures p.None? <==> c & 0x20 != 0
    ensures p.Some? ==> -1 <= p.value <= 30
    ensures p.Some? ==> p.value + 1 == (c & 0x1F) as int
  {
    if c & 0x20 != 0 then None else Some((c & 0x1F) as int - 1)
  }

  /** The mask 0xFF >> (7 - k): bits 0 .. k set. */
  function LowBits(k: nat): (m: byte)
    requires k < 8
    ensures m as int + 1 == Pow2(k + 1)
  {
    assert Pow2(1) == 2 && Pow2(2) == 4 && Pow2(3) == 8 && Pow2(4) == 16;
    assert Pow2(5) == 32 && Pow2(6) == 64 && Pow2(7) == 128 && Pow2(8) == 256;
    assert k == 0 || k == 1 || k == 2 || k == 3 || k == 4 || k == 5 || k == 6 || k == 7;
    0xFF >> (7 - k)
  }

  function Pow2(n: nat): nat
  {
    if n == 0 then 1 else 2 * Pow2(n - 1)
  }

  /** The part of a received frame the walk keeps for a collision at bit p:
      the bytes up to byte p / 8, the last of them masked to its bits 0 .. p % 8.
      None where the source's indexing fails: p = -1 leaves an empty slice,
      or the frame is shorter than p / 8 + 1 bytes. */
  function KeepBeforeCollision(recv: seq<byte>, p: int): (r: Option<seq<byte>>)
    ensures r.Some? <==> 0 <= p && p / 8 < |recv|
    ensures r.Some? ==> |r.value| == p / 8 + 1 && r.value[..p / 8] == recv[..p / 8]
    ensures r.Some? ==> r.value[p / 8] == recv[p / 8] & LowBits(p % 8)
  {
    if p < 0 || p / 8 >= |recv| then None
    else Some(recv[..p / 8] + [recv[p / 8] & LowBits(p % 8)])
  }

  /** The same lines as written, when `recv` is an immutable `bytes` value,
      as a register read over UART returns it: the slice succeeds, reading
      recv[lastbyte] raises IndexError where KeepBeforeCollision has no
      result, and otherwise the item assignment raises TypeError. So every
      collision the walk could resolve aborts. */
  function KeepOnBytes(recv: seq<byte>, p: int): (r: Result<seq<byte>>)
    ensures r.Err?
    ensures r.error == TypeError <==> KeepBeforeCollision(recv, p).Some?
    ensures r.error == IndexError <==> KeepBeforeCollision(recv, p).None?
  {
    if p < 0 || p / 8 >= |recv| then Err(IndexError) else Err(TypeError)
  }

  /** A collision at bit 3 of a 5-byte answer: the bytes value aborts,
      while the mutable buffer keeps bits 0 .. 3 of the first byte. */
  lemma BytesCollisionAborts()
    ensures KeepOnBytes([0x04, 0x5A, 0xF6, 0x62, 0xCA], 3) == Err(TypeError)
    ensures KeepBeforeCollision([0x04, 0x5A, 0xF6, 0x62, 0xCA], 3) == Some([0x04])
  {
    assert LowBits(3) == 0x0F;
  }

  /** The outcome of one pass of the walk: the new count of known bits, the
      bytes to merge and the range [lo, hi) of UID byte positions they go to. */
  datatype Step = Step(good: nat, data: seq<byte>, lo: nat, hi: nat)

  /** One pass of the anticollision walk at g known bits, given the received
      bytes and the decoded collision position; IndexError where the source
      indexes outside the received bytes or the 7-byte command buffer. */
  function WalkStep(g: nat, recv: seq<byte>, col: Option<int>): (r: Result<Step>)
    requires g < LevelBits
    ensures r.Err? ==> r.error == IndexError
    ensures r.Ok? ==> g < r.value.good <= LevelBits
    ensures r.Ok? ==> r.value.lo == g / 8 && r.value.hi == (r.value.good + 7) / 8
    ensures r.Ok? ==> r.value.lo < r.value.hi <= 5 && r.value.hi - r.value.lo <= |r.value.data|
    ensures col.None? ==> (r.Ok? <==> 5 - g / 8 <= |recv|)
    ensures col.None? && r.Ok? ==> r.value.good == LevelBits && r.value.data == recv
    ensures col.Some? ==>
      (r.Ok? <==> (0 <= col.value && col.value / 8 < |recv| && g + col.value + 1 <= LevelBits
                   && g % 8 + col.value % 8 < 8))
    ensures col.Some? && r.Ok? ==>
      r.value.good == g + col.value + 1 && Some(r.value.data) == KeepBeforeCollision(recv, col.value)
  {
    if col.None? then
      if 5 - g / 8 <= |recv| then Ok(Step(LevelBits, recv, g / 8, 5)) else Err(IndexError)
    else
      var p := col.value;
      match KeepBeforeCollision(recv, p)
      case None => Err(IndexError)
      case Some(kept) =>
        var good := g + p + 1;
        var hi := (good + 7) / 8;
        if good <= LevelBits && hi - g / 8 <= |kept| then Ok(Step(good, kept, g / 8, hi))
        else Err(IndexError)
  }

  /** The 7-byte command buffer after ORing `data` into UID bytes lo .. hi - 1,
      which sit at buffer positions 2 + lo .. 2 + hi - 1. */
  function Merged(a: seq<byte>, data: seq<byte>, lo: nat, hi: nat): (m: seq<byte>)
    requires |a| == 7 && lo <= hi <= 5 && hi - lo <= |data|
    ensures |m| == 7 && m[..2] == a[..2]
  {
    seq(7, i requires 0 <= i < 7 => if 2 + lo <= i < 2 + hi then a[i] | data[i - 2 - lo] else a[i])
  }

  /** The merge leaves the select code, the NVB byte and every position
      outside 2 + lo .. 2 + hi - 1 alone, and never clears a bit. */
  lemma MergedKeeps(a: seq<byte>, data: seq<byte>, lo: nat, hi: nat)
    requires |a| == 7 && lo <= hi <= 5 && hi - lo <= |data|
    ensures |Merged(a, data, lo, hi)| == 7
    ensures Merged(a, data, lo, hi)[..2] == a[..2]
    ensures forall i :: 0 <= i < 7 && !(2 + lo <= i < 2 + hi) ==> Merged(a, data, lo, hi)[i] == a[i]
    ensures forall i :: 0 <= i < 7 ==> Merged(a, data, lo, hi)[i] & a[i] == a[i]
  {
  }
}
