/** MIFARE Ultralight C three-pass authentication (py522/ultralightc.py): the
    reader asks for the card's encrypted challenge, answers with its own
    challenge and the card's challenge rotated by one byte, and accepts the
    card when the card's answer decrypts to the reader's challenge rotated
    by one byte. Triple DES in CBC mode is a parameter: a pair of functions
    from (key, initial vector, data) to data. */
module UltralightC {
  import opened Common

  /** 3DES-CBC: encrypt and decrypt, both taking key, IV and data. */
  datatype Cipher = Cipher(
    encrypt: (seq<byte>, seq<byte>, seq<byte>) -> seq<byte>,
    decrypt: (seq<byte>, seq<byte>, seq<byte>) -> seq<byte>)

  /** What the reader sends in the run and how the run ends. */
  datatype AuthRun = AuthRun(result: Result<()>, requests: seq<seq<byte>>)

  /** AUTHENTICATE, first part. */
  const AuthStart: seq<byte> := [0x1A, 0x00]
  /** The status byte of the card's first answer and of the reader's second
      frame. */
  const AuthMore: byte := 0xAF
  const ZeroIv: seq<byte> := [0, 0, 0, 0, 0, 0, 0, 0]

  /** Python's s[1:] + s[0:1]: the first byte moved to the end. */
  function RotL(s: seq<byte>): (r: seq<byte>)
    ensures |r| == |s|
    ensures s != [] ==> r[..|s| - 1] == s[1..] && r[|s| - 1] == s[0]
  {
    if s == [] then [] else s[1..] + [s[0]]
  }

  /** Python's s[n:]. */
  function Drop(s: seq<byte>, n: nat): seq<byte>
  {
    if n <= |s| then s[n..] else []
  }

  /** An answer of the right shape: 9 bytes, the given status byte first. */
  predicate WellFormed(reply: seq<byte>, status: byte): (ok: bool)
    ensures ok ==> reply != [] && reply[0] == status && |reply[1..]| == 8
    ensures !ok ==> |reply| != 9 || reply[0] != status
  {
    |reply| == 9 && reply[0] == status
  }

  /** The reader's second frame: its challenge and the card's rotated
      challenge, encrypted under the key with the card's encrypted challenge
      as IV. With a cipher that inverts, the card recovers from it, under
      that IV, the 16 bytes rndA followed by its own challenge rotated by one
      byte. */
  function ReaderAnswer(key: seq<byte>, rndA: seq<byte>, cipher: Cipher, encryptedRndB: seq<byte>): (pndAuth: seq<byte>)
    ensures Inverts(cipher) && |rndA| == 8 && |cipher.decrypt(key, ZeroIv, encryptedRndB)| == 8 ==>
      var plain := cipher.decrypt(key, encryptedRndB, pndAuth);
      && |plain| == 16 && |pndAuth| == 16
      && plain[..8] == rndA && plain[8..] == RotL(cipher.decrypt(key, ZeroIv, encryptedRndB))
  {
    var rndB := cipher.decrypt(key, ZeroIv, encryptedRndB);
    cipher.encrypt(key, encryptedRndB, rndA + RotL(rndB))
  }

  /** One authentication run against `card`, which maps the requests sent so
      far to the answer to the last one; `rndA` is the reader's random
      challenge. */
  function Authenticate(key: seq<byte>, rndA: seq<byte>, cipher: Cipher, card: seq<seq<byte>> -> Result<seq<byte>>): (run: AuthRun)
    requires |rndA| == 8
    ensures 1 <= |run.requests| <= 2 && run.requests[0] == AuthStart
    ensures run.result.Ok? ==> |run.requests| == 2 && run.requests[1] != [] && run.requests[1][0] == AuthMore
  {
    var first := [AuthStart];
    var begin := card(first);
    if begin.Err? then AuthRun(Err(begin.error), first)
    else if !WellFormed(begin.value, AuthMore) then
      AuthRun(Err(Failure("Invalid auth start response from card: \"" + Hex(begin.value) + "\"")), first)
    else
      var encryptedRndB := begin.value[1..];
      var pndAuth := ReaderAnswer(key, rndA, cipher, encryptedRndB);
      var both := first + [[AuthMore] + pndAuth];
      var reply := card(both);
      if reply.Err? then AuthRun(Err(reply.error), both)
      else if !WellFormed(reply.value, 0x00) then
        AuthRun(Err(Failure("Invalid auth reply from card: \"" + Hex(reply.value) + "\"")), both)
      else if cipher.decrypt(key, Drop(pndAuth, 8), reply.value[1..]) != RotL(rndA) then
        AuthRun(Err(Failure("Card authentication failure")), both)
      else AuthRun(Ok(()), both)
  }

  /** The run starts with AUTHENTICATE; it sends a second frame only after a
      well-formed first answer, and that frame is 0xAF and the reader's
      encrypted answer. */
  lemma AuthenticateRequests(key: seq<byte>, rndA: seq<byte>, cipher: Cipher, card: seq<seq<byte>> -> Result<seq<byte>>)
    requires |rndA| == 8
    ensures var run := Authenticate(key, rndA, cipher, card);
      && 1 <= |run.requests| <= 2 && run.requests[0] == AuthStart
      && (|run.requests| == 2 <==> card([AuthStart]).Ok? && WellFormed(card([AuthStart]).value, AuthMore))
      && (|run.requests| == 2 ==>
            run.requests[1] == [AuthMore] + ReaderAnswer(key, rndA, cipher, card([AuthStart]).value[1..]))
  {
  }

  /** The run succeeds exactly when both answers are well formed and the
      second one decrypts, under the IV taken from the reader's answer, to the
      reader's challenge rotated by one byte. */
  lemma AuthenticateSucceeds(key: seq<byte>, rndA: seq<byte>, cipher: Cipher, card: seq<seq<byte>> -> Result<seq<byte>>)
    requires |rndA| == 8
    ensures var run := Authenticate(key, rndA, cipher, card);
      run.result.Ok? <==>
        && card([AuthStart]).Ok? && WellFormed(card([AuthStart]).value, AuthMore)
        && var pndAuth := ReaderAnswer(key, rndA, cipher, card([AuthStart]).value[1..]);
           var reply := card([AuthStart, [AuthMore] + pndAuth]);
           && reply.Ok? && WellFormed(reply.value, 0x00)
           && cipher.decrypt(key, Drop(pndAuth, 8), reply.value[1..]) == RotL(rndA)
  {
    if card([AuthStart]).Ok? && WellFormed(card([AuthStart]).value, AuthMore) {
      assert [AuthStart] + [[AuthMore] + ReaderAnswer(key, rndA, cipher, card([AuthStart]).value[1..])]
          == [AuthStart, [AuthMore] + ReaderAnswer(key, rndA, cipher, card([AuthStart]).value[1..])];
    }
  }

  /** A failing run fails with the card's own error on the last request, or
      with one of the three authentication errors. */
  lemma AuthenticateErrors(key: seq<byte>, rndA: seq<byte>, cipher: Cipher, card: seq<seq<byte>> -> Result<seq<byte>>)
    requires |rndA| == 8
    ensures var run := Authenticate(key, rndA, cipher, card);
      run.result.Err? ==>
        || (card(run.requests).Err? && run.result.error == card(run.requests).error)
        || (|run.requests| == 1 && card([AuthStart]).Ok? && run.result.error ==
              Failure("Invalid auth start response from card: \"" + Hex(card([AuthStart]).value) + "\""))
        || (|run.requests| == 2 && card(run.requests).Ok? && run.result.error ==
              Failure("Invalid auth reply from card: \"" + Hex(card(run.requests).value) + "\""))
        || (|run.requests| == 2 && run.result.error == Failure("Card authentication failure"))
  {
  }

  /** A cipher whose decryption undoes its encryption under the same key and
      IV, and which keeps lengths. */
  ghost predicate Inverts(cipher: Cipher)
  {
    && (forall k, iv, m :: cipher.decrypt(k, iv, cipher.encrypt(k, iv, m)) == m)
    && (forall k, iv, m :: |cipher.encrypt(k, iv, m)| == |m|)
  }

  /** A card that knows `key` and challenges with `rndB`: it answers the
      first request with its encrypted challenge; it answers the second only
      when the reader's frame carries its challenge rotated by one byte, with
      the reader's challenge rotated by one byte, encrypted with the last
      block of the reader's frame as IV. */
  function HonestCard(key: seq<byte>, rndB: seq<byte>, cipher: Cipher, requests: seq<seq<byte>>): Result<seq<byte>>
  {
    var encryptedRndB := cipher.encrypt(key, ZeroIv, rndB);
    if |requests| == 1 then Ok([AuthMore] + encryptedRndB)
    else if |requests| == 2 && |requests[1]| == 17 then
      var frame := requests[1][1..];
      var plain := cipher.decrypt(key, encryptedRndB, frame);
      if |plain| == 16 && plain[8..] == RotL(rndB) then Ok([0x00] + cipher.encrypt(key, frame[8..], RotL(plain[..8])))
      else Err(NoReply)
    else Err(NoReply)
  }

  /** With a cipher that inverts, the reader and a card sharing its key
      authenticate each other. */
  lemma HonestCardAuthenticates(key: seq<byte>, rndA: seq<byte>, rndB: seq<byte>, cipher: Cipher)
    requires |rndA| == 8 && |rndB| == 8 && Inverts(cipher)
    ensures Authenticate(key, rndA, cipher, requests => HonestCard(key, rndB, cipher, requests)).result == Ok(())
  {
    var card := requests => HonestCard(key, rndB, cipher, requests);
    var encryptedRndB := cipher.encrypt(key, ZeroIv, rndB);
    assert card([AuthStart]) == Ok([AuthMore] + encryptedRndB);
    var begin := [AuthMore] + encryptedRndB;
    assert begin[1..] == encryptedRndB;
    assert cipher.decrypt(key, ZeroIv, encryptedRndB) == rndB;
    var pndAuth := ReaderAnswer(key, rndA, cipher, encryptedRndB);
    assert pndAuth == cipher.encrypt(key, encryptedRndB, rndA + RotL(rndB));
    assert |pndAuth| == 16;
    var plain := cipher.decrypt(key, encryptedRndB, pndAuth);
    assert plain == rndA + RotL(rndB);
    assert plain[..8] == rndA && plain[8..] == RotL(rndB);
    var both := [AuthStart] + [[AuthMore] + pndAuth];
    assert ([AuthMore] + pndAuth)[1..] == pndAuth;
    var answer := cipher.encrypt(key, pndAuth[8..], RotL(rndA));
    assert card(both) == Ok([0x00] + answer);
    assert ([0x00] + answer)[1..] == answer;
    assert Drop(pndAuth, 8) == pndAuth[8..];
  }

  /** A card whose second answer decrypts to anything but the reader's
      rotated challenge is rejected, whatever else it does. */
  lemma WrongAnswerRejected(key: seq<byte>, rndA: seq<byte>, cipher: Cipher, card: seq<seq<byte>> -> Result<seq<byte>>)
    requires |rndA| == 8
    requires card([AuthStart]).Ok? && WellFormed(card([AuthStart]).value, AuthMore)
    requires var pndAuth := ReaderAnswer(key, rndA, cipher, card([AuthStart]).value[1..]);
      var reply := card([AuthStart, [AuthMore] + pndAuth]);
      reply.Ok? && WellFormed(reply.value, 0x00) && cipher.decrypt(key, Drop(pndAuth, 8), reply.value[1..]) != RotL(rndA)
    ensures Authenticate(key, rndA, cipher, card).result == Err(Failure("Card authentication failure"))
  {
    AuthenticateSucceeds(key, rndA, cipher, card);
    assert [AuthStart] + [[AuthMore] + ReaderAnswer(key, rndA, cipher, card([AuthStart]).value[1..])]
        == [AuthStart, [AuthMore] + ReaderAnswer(key, rndA, cipher, card([AuthStart]).value[1..])];
  }
}
