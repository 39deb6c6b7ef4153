/** Values shared by the whole driver: bytes, optional values, and the errors
    the driver raises (py522/exceptions.py), as a result type instead of
    exceptions. */
module Common {

  type byte = bv8

  datatype Option<T> = None | Some(value: T)

  /** The ways an operation of the driver can fail.
      NoReply, Reader and InvalidBcc are the driver's own exception classes;
      IndexError is the Python error raised by unchecked indexing in the
      anticollision walk; Failure is the plain Exception raised by the
      Ultralight-C authentication. */
  datatype Error =
    | NoReply
    | Reader(message: string)
    | InvalidBcc(expected: byte, calculated: byte)
    | IndexError
    | TypeError
    | Failure(message: string)

  datatype Result<T> = Ok(value: T) | Err(error: Error)

  /** The error of a register read that gets fewer bytes than it asked for. */
  const ReadFailed := Reader("Could not read register value")

  /** The decimal digits of n, most significant first, as Python's str()
      writes a non-negative int. */
  function Decimal(n: nat): (s: string)
    ensures |s| >= 1 && forall i :: 0 <= i < |s| ==> '0' <= s[i] <= '9'
    ensures |s| > 1 ==> s[0] != '0'
    decreases n
  {
    if n < 10 then [DigitChar(n)] else Decimal(n / 10) + [DigitChar(n % 10)]
  }

  function DigitChar(d: nat): (c: char)
    requires d < 10
    ensures '0' <= c <= '9' && (c as int) - ('0' as int) == d
  {
    (('0' as int) + d) as char
  }

  /** The value of a string of decimal digits. */
  function DecimalValue(s: string): nat
    requires forall i :: 0 <= i < |s| ==> '0' <= s[i] <= '9'
  {
    if s == [] then 0 else 10 * DecimalValue(s[..|s| - 1]) + ((s[|s| - 1] as int) - ('0' as int))
  }

  /** Reading back the digits gives the number. */
  lemma {:induction false} DecimalRoundTrip(n: nat)
    ensures DecimalValue(Decimal(n)) == n
    decreases n
  {
    if n >= 10 {
      DecimalRoundTrip(n / 10);
      var s := Decimal(n);
      assert s[..|s| - 1] == Decimal(n / 10);
    }
  }

  /** Python's str() of an int. */
  function IntString(n: int): (s: string)
    ensures s != [] && (s[0] == '-' <==> n < 0)
    ensures forall i :: 0 < i < |s| ==> '0' <= s[i] <= '9'
  {
    if n < 0 then "-" + Decimal(-n) else Decimal(n)
  }

  /** The value of a decimal string with an optional leading '-'. */
  function SignedValue(s: string): int
    requires s != [] && (s[0] == '-' || '0' <= s[0] <= '9')
    requires forall i :: 0 < i < |s| ==> '0' <= s[i] <= '9'
  {
    if s[0] == '-' then -(DecimalValue(s[1..]) as int) else DecimalValue(s)
  }

  /** Reading back str() of any int, negative ones included, gives it back. */
  lemma IntStringRoundTrip(n: int)
    ensures SignedValue(IntString(n)) == n
  {
    if n < 0 {
      DecimalRoundTrip(-n);
      assert IntString(n)[1..] == Decimal(-n);
    } else {
      DecimalRoundTrip(n);
    }
  }

  /** Python's bytes.hex(): two lower-case hex digits per byte, high
      nibble first. */
  function Hex(data: seq<byte>): (s: string)
    ensures |s| == 2 * |data|
    ensures data != [] ==> s[..2] == [HexDigit((data[0] >> 4) as nat), HexDigit((data[0] & 0x0F) as nat)]
  {
    if data == [] then []
    else [HexDigit((data[0] >> 4) as nat), HexDigit((data[0] & 0x0F) as nat)] + Hex(data[1..])
  }

  /** The lower-case hex digit of d. */
  function HexDigit(d: nat): (c: char)
    requires d < 16
    ensures d < 10 ==> (c as int) - ('0' as int) == d
    ensures d >= 10 ==> (c as int) - ('a' as int) == d - 10
  {
    "0123456789abcdef"[d]
  }

  /** Byte i of the data is written at positions 2i and 2i + 1 of its hex
      string, high nibble first. */
  lemma {:induction false} HexDigits(data: seq<byte>)
    ensures forall i :: 0 <= i < |data| ==>
      Hex(data)[2 * i] == HexDigit((data[i] >> 4) as nat) && Hex(data)[2 * i + 1] == HexDigit((data[i] & 0x0F) as nat)
  {
    if data != [] {
      HexDigits(data[1..]);
      var s := Hex(data);
      var tail := Hex(data[1..]);
      assert s[2..] == tail;
      forall i | 1 <= i < |data|
        ensures s[2 * i] == tail[2 * (i - 1)] && s[2 * i + 1] == tail[2 * (i - 1) + 1]
      {
      }
    }
  }

  lemma AppendAssoc<T>(a: seq<T>, b: seq<T>, c: seq<T>)
    ensures a + (b + c) == (a + b) + c
  {
  }

  lemma PrefixOfAppend<T>(a: seq<T>, b: seq<T>, c: seq<T>)
    requires b <= c
    ensures a + b <= a + c
  {
    assert a + c == (a + b) + c[|b|..];
  }

  lemma PrefixRefl<T>(a: seq<T>)
    ensures a <= a
  {
    assert a[..|a|] == a;
  }

  lemma PrefixTrans<T>(a: seq<T>, b: seq<T>, c: seq<T>)
    requires a <= b && b <= c
    ensures a <= c
  {
    assert c[..|a|] == b[..|a|];
  }

  lemma PrefixGrows<T>(a: seq<T>, b: seq<T>, c: seq<T>)
    requires a <= b
    ensures a <= b + c
  {
    assert (b + c)[..|a|] == b[..|a|];
  }

  lemma AppendFourAssoc<T>(a: seq<T>, b: seq<T>, c: seq<T>, d: seq<T>, e: seq<T>)
    ensures a + (b + c + d + e) == a + b + c + d + e
  {
  }

  lemma AppendPlusAssoc<T>(a: seq<T>, b: seq<T>, c: seq<T>, d: seq<T>)
    ensures a + (b + c + d) == a + b + c + d
  {
  }

  /** One step of a log kept as base + logged against a total still to come. */
  lemma LogStep<T>(base: seq<T>, logged: seq<T>, step: seq<T>, rest: seq<T>, total: seq<T>, log: seq<T>)
    requires log == base + logged + step && total == logged + (step + rest)
    ensures log == base + (logged + step) && total == (logged + step) + rest
    ensures rest == [] ==> log == base + total
  {
  }

  lemma AppendSixAssoc<T>(a: seq<T>, b: seq<T>, c: seq<T>, d: seq<T>, e: seq<T>, f: seq<T>, g: seq<T>)
    ensures a + (b + c + d + e + f + g) == a + b + c + d + e + f + g
  {
  }
}
