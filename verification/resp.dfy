/**
 * The RESP value union, the decoder's error type, and the two line-level
 * primitives of the wire decoder: finding a CRLF-terminated line and
 * reading an unsigned length header.
 */
module Resp {
  import opened Wrappers
  import opened Bytes

  const I64_MIN: int := -0x8000_0000_0000_0000
  const I64_MAX: int := 0x7FFF_FFFF_FFFF_FFFF

  /** The 64-bit signed integers a RESP integer carries. */
  newtype i64 = x: int | I64_MIN <= x <= I64_MAX

  /**
   * Every variant the server uses: the three declared next to the decoder
   * plus `Array`, `Integer`, `Error` and `Null`, which the command parser,
   * the store and GET rely on.
   */
  datatype RespType =
    | BulkString(str: string)
    | SimpleString(str: string)
    | SimpleError(str: string)
    | Error(str: string)
    | Integer(n: i64)
    | Array(items: seq<RespType>)
    | Null

  /** Decoder errors; `Incomplete` means "wait for more bytes". */
  datatype RespError =
    | InvalidBulkString(msg: string)
    | InvalidSimpleString(msg: string)
    | Other(msg: string)
    | Incomplete

  const InvalidUtf8Message: string := "Invalid UTF-8 string"
  const InvalidIntegerMessage: string := "Invalid value for an integer"

  /** The `Display` text of a decoder error: its message, verbatim. */
  function ErrorText(e: RespError): (r: string)
    requires !e.Incomplete?
    ensures r == e.msg
  {
    match e
    case Other(msg) => msg
    case InvalidBulkString(msg) => msg
    case InvalidSimpleString(msg) => msg
  }

  // ---------------------------------------------------------------------
  // Lines
  // ---------------------------------------------------------------------

  /** A CR at index `k` immediately followed by an LF. */
  predicate CrlfAt(s: seq<byte>, k: int)
  {
    0 <= k && k + 1 < |s| && s[k] == CR && s[k + 1] == LF
  }

  predicate NoCrlf(s: seq<byte>)
  {
    forall k :: 0 <= k < |s| ==> !CrlfAt(s, k)
  }

  /**
   * Scans for the first CRLF at or after index `k` (the CR's index; the
   * source's loop index is the LF's, one further on).
   */
  function FindCrlf(buf: seq<byte>, k: nat): (r: Option<nat>)
    ensures r.Some? ==> k <= r.value && CrlfAt(buf, r.value)
    ensures r.Some? ==> forall j :: k <= j < r.value ==> !CrlfAt(buf, j)
    ensures r.None? ==> forall j :: k <= j ==> !CrlfAt(buf, j)
    decreases |buf| - k
  {
    if k + 1 >= |buf| then None
    else if buf[k] == CR && buf[k + 1] == LF then Some(k)
    else FindCrlf(buf, k + 1)
  }

  /**
   * The bytes before the first CRLF and the number of bytes the line
   * occupies including its terminator; None when `buf` holds no CRLF.
   */
  function ReadLine(buf: seq<byte>): (r: Option<(seq<byte>, nat)>)
    ensures r.None? <==> NoCrlf(buf)
    ensures |buf| < 2 ==> r.None?
    ensures r.Some? ==>
      var (line, consumed) := r.value;
      && consumed == |line| + 2 <= |buf|
      && line == buf[..|line|]
      && CrlfAt(buf, |line|)
      && (forall j :: 0 <= j < |line| ==> !CrlfAt(buf, j))
      && NoCrlf(line)
  {
    match FindCrlf(buf, 0)
    case None => None
    case Some(k) =>
      assert NoCrlf(buf[..k]) by {
        forall j | CrlfAt(buf[..k], j) ensures false {
          assert CrlfAt(buf, j);
        }
      }
      Some((buf[..k], k + 2))
  }

  /** Terminating a CRLF-free line and reading it back gives the line. */
  lemma {:induction false} ReadLineRoundTrip(line: seq<byte>, rest: seq<byte>)
    requires NoCrlf(line)
    ensures ReadLine(line + [CR, LF] + rest) == Some((line, |line| + 2))
  {
    var buf := line + [CR, LF] + rest;
    assert CrlfAt(buf, |line|);
    forall j | 0 <= j < |line|
      ensures !CrlfAt(buf, j)
    {
      if j + 1 < |line| {
        assert !CrlfAt(line, j);
      } else {
        assert buf[j + 1] == CR;
      }
    }
    var r := ReadLine(buf);
    assert r.Some?;
    var l := r.value.0;
    assert |l| == |line|;
    assert l == buf[..|line|] == line;
  }

  // ---------------------------------------------------------------------
  // Length headers
  // ---------------------------------------------------------------------

  /** The digits of an unsigned numeral, after an optional leading `+`. */
  function UnsignedDigits(s: seq<byte>): seq<byte>
  {
    if |s| > 0 && s[0] == PLUS then s[1..] else s
  }

  /**
   * Decodes a length header: the bytes must be UTF-8 and then spell an
   * unsigned decimal (`usize::from_str`) that fits in 64 bits.
   */
  function ParseLength(buf: seq<byte>): (r: Result<nat, RespError>)
    ensures r.Err? ==> r.error == Other(InvalidUtf8Message) || r.error == Other(InvalidIntegerMessage)
    ensures r.Err? && r.error == Other(InvalidUtf8Message) <==> !ValidUtf8(buf)
    ensures r.Ok? ==> r.value <= USIZE_MAX
    ensures r.Ok? ==> AllDigits(UnsignedDigits(buf)) && r.value == DigitsValue(UnsignedDigits(buf))
    ensures r.Ok? ==> |UnsignedDigits(buf)| > 0 && |buf| > 0 && (IsDigit(buf[0]) || buf[0] == PLUS)
    ensures r.Ok? ==> forall i :: 0 < i < |buf| ==> IsDigit(buf[i])
    ensures |buf| == 0 || buf[0] == MINUS ==> r.Err?
  {
    if !ValidUtf8(buf) then Err(Other(InvalidUtf8Message))
    else
      var digits := UnsignedDigits(buf);
      if |digits| > 0 && AllDigits(digits) && DigitsValue(digits) <= USIZE_MAX then
        Ok(DigitsValue(digits))
      else
        Err(Other(InvalidIntegerMessage))
  }

  /**
   * Every non-empty digit string whose value fits in a `usize` is
   * accepted and read as that value, leading zeros included.
   */
  lemma ParseLengthDigits(s: seq<byte>)
    requires |s| > 0 && AllDigits(s) && DigitsValue(s) <= USIZE_MAX
    ensures ParseLength(s) == Ok(DigitsValue(s))
  {
    assert IsAscii(s);
    AsciiIsValidUtf8(s);
    assert UnsignedDigits(s) == s;
  }

  /** The same digit strings behind a `+` are read as the same value. */
  lemma ParseLengthPlusDigits(s: seq<byte>)
    requires |s| > 0 && AllDigits(s) && DigitsValue(s) <= USIZE_MAX
    ensures ParseLength([PLUS] + s) == Ok(DigitsValue(s))
  {
    var plus := [PLUS] + s;
    assert IsAscii(plus) by {
      forall i | 0 <= i < |plus| ensures plus[i] <= 0x7F {
        if i > 0 { assert plus[i] == s[i - 1]; }
      }
    }
    AsciiIsValidUtf8(plus);
    assert UnsignedDigits(plus) == s;
  }

  /** A sign with no digits after it is not a number: a lone `+` fails. */
  lemma ParseLengthLonePlus()
    ensures ParseLength([PLUS]) == Err(Other(InvalidIntegerMessage))
  {
    assert IsAscii([PLUS]);
    AsciiIsValidUtf8([PLUS]);
  }

  /** Zeros in front of a numeral do not change what it reads as: "007" is 7. */
  lemma ParseLengthLeadingZeros(zeros: seq<byte>, n: nat)
    requires forall i :: 0 <= i < |zeros| ==> zeros[i] == ZERO
    requires n <= USIZE_MAX
    ensures ParseLength(zeros + Decimal(n)) == Ok(n)
  {
    LeadingZerosValue(zeros, Decimal(n));
    DecimalRoundTrip(n);
    ParseLengthDigits(zeros + Decimal(n));
  }

  /** The canonical numeral of every `usize` reads back as that number. */
  lemma ParseLengthDecimal(n: nat)
    requires n <= USIZE_MAX
    ensures ParseLength(Decimal(n)) == Ok(n)
  {
    AsciiIsValidUtf8(Decimal(n));
    DecimalRoundTrip(n);
  }

  /** A leading `+` is accepted and ignored. */
  lemma ParseLengthPlus(n: nat)
    requires n <= USIZE_MAX
    ensures ParseLength([PLUS] + Decimal(n)) == Ok(n)
  {
    var s := [PLUS] + Decimal(n);
    AsciiIsValidUtf8(s);
    assert UnsignedDigits(s) == Decimal(n);
    DecimalRoundTrip(n);
  }

  /** A numeral above the `usize` range is refused as an invalid integer. */
  lemma ParseLengthOverflow(n: nat)
    requires n > USIZE_MAX
    ensures ParseLength(Decimal(n)) == Err(Other(InvalidIntegerMessage))
  {
    AsciiIsValidUtf8(Decimal(n));
    DecimalRoundTrip(n);
  }

  /** A signed header such as `-1` is refused as an invalid integer. */
  lemma ParseLengthNegative(n: nat)
    ensures ParseLength([MINUS] + Decimal(n)) == Err(Other(InvalidIntegerMessage))
  {
    var s := [MINUS] + Decimal(n);
    AsciiIsValidUtf8(s);
  }
}
