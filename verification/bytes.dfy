/**
 * Bytes and text: the byte type of the wire buffers, UTF-8 well-formedness
 * (what `String::from_utf8` accepts), ASCII case mapping (the part of
 * `str::to_uppercase` this model covers) and unsigned decimal numerals.
 */
module Bytes {

  newtype byte = x: int | 0 <= x < 256

  const CR: byte := 13
  const LF: byte := 10
  const PLUS: byte := 43
  const MINUS: byte := 45
  const ZERO: byte := 48
  const NINE: byte := 57

  /** Largest value of Rust's `usize` on a 64-bit target. */
  const USIZE_MAX: nat := 0xFFFF_FFFF_FFFF_FFFF

  // ---------------------------------------------------------------------
  // UTF-8 well-formedness (Unicode Standard, Table 3-7): no overlong
  // forms, no surrogates, nothing above U+10FFFF.
  // ---------------------------------------------------------------------

  predicate InRange(b: byte, lo: byte, hi: byte) { lo <= b <= hi }

  predicate Continuation(b: byte) { InRange(b, 0x80, 0xBF) }

  /** Length of the well-formed code-unit sequence starting `s`, or 0 if none does. */
  function LeadLength(s: seq<byte>): nat
    requires |s| > 0
  {
    var b := s[0];
    if b <= 0x7F then 1
    else if InRange(b, 0xC2, 0xDF) then
      if |s| >= 2 && Continuation(s[1]) then 2 else 0
    else if b == 0xE0 then
      if |s| >= 3 && InRange(s[1], 0xA0, 0xBF) && Continuation(s[2]) then 3 else 0
    else if InRange(b, 0xE1, 0xEC) || InRange(b, 0xEE, 0xEF) then
      if |s| >= 3 && Continuation(s[1]) && Continuation(s[2]) then 3 else 0
    else if b == 0xED then
      if |s| >= 3 && InRange(s[1], 0x80, 0x9F) && Continuation(s[2]) then 3 else 0
    else if b == 0xF0 then
      if |s| >= 4 && InRange(s[1], 0x90, 0xBF) && Continuation(s[2]) && Continuation(s[3]) then 4 else 0
    else if InRange(b, 0xF1, 0xF3) then
      if |s| >= 4 && Continuation(s[1]) && Continuation(s[2]) && Continuation(s[3]) then 4 else 0
    else if b == 0xF4 then
      if |s| >= 4 && InRange(s[1], 0x80, 0x8F) && Continuation(s[2]) && Continuation(s[3]) then 4 else 0
    else 0
  }

  predicate ValidUtf8(s: seq<byte>)
    decreases |s|
  {
    |s| == 0 || (var n := LeadLength(s); 0 < n <= |s| && ValidUtf8(s[n..]))
  }

  predicate IsAscii(s: seq<byte>) { forall i :: 0 <= i < |s| ==> s[i] <= 0x7F }

  /** Every ASCII byte string is well-formed UTF-8. */
  lemma {:induction false} AsciiIsValidUtf8(s: seq<byte>)
    requires IsAscii(s)
    ensures ValidUtf8(s)
    decreases |s|
  {
    if |s| > 0 {
      assert LeadLength(s) == 1;
      AsciiIsValidUtf8(s[1..]);
    }
  }

  // ---------------------------------------------------------------------
  // Unsigned decimal numerals.
  // ---------------------------------------------------------------------

  predicate IsDigit(b: byte) { ZERO <= b <= NINE }

  predicate AllDigits(s: seq<byte>) { forall i :: 0 <= i < |s| ==> IsDigit(s[i]) }

  /** Value of a digit string, accumulated left to right as `acc * 10 + d`. */
  function DigitsValue(s: seq<byte>): nat
    requires AllDigits(s)
    decreases |s|
  {
    if |s| == 0 then 0
    else DigitsValue(s[..|s| - 1]) * 10 + (s[|s| - 1] - ZERO) as nat
  }

  /** The shortest decimal numeral of `n` (no sign, no leading zeros). */
  function Decimal(n: nat): (r: seq<byte>)
    ensures |r| > 0 && AllDigits(r)
    ensures r[0] != ZERO || n == 0
    decreases n
  {
    if n < 10 then [ZERO + n as byte]
    else Decimal(n / 10) + [ZERO + (n % 10) as byte]
  }

  /** Reading back a numeral gives the number it was written from. */
  lemma {:induction false} DecimalRoundTrip(n: nat)
    ensures DigitsValue(Decimal(n)) == n
    decreases n
  {
    var d := Decimal(n);
    if n >= 10 {
      DecimalRoundTrip(n / 10);
      assert d[..|d| - 1] == Decimal(n / 10);
    }
  }

  /** A run of zeros reads as 0. */
  lemma {:induction false} ZerosValue(zeros: seq<byte>)
    requires forall i :: 0 <= i < |zeros| ==> zeros[i] == ZERO
    ensures AllDigits(zeros) && DigitsValue(zeros) == 0
    decreases |zeros|
  {
    if |zeros| > 0 {
      ZerosValue(zeros[..|zeros| - 1]);
    }
  }

  /** Leading zeros do not change the value of a digit string. */
  lemma {:induction false} LeadingZerosValue(zeros: seq<byte>, s: seq<byte>)
    requires forall i :: 0 <= i < |zeros| ==> zeros[i] == ZERO
    requires AllDigits(s)
    ensures AllDigits(zeros + s) && DigitsValue(zeros + s) == DigitsValue(s)
    decreases |s|
  {
    if |s| == 0 {
      assert zeros + s == zeros;
      ZerosValue(zeros);
    } else {
      var front := s[..|s| - 1];
      LeadingZerosValue(zeros, front);
      assert (zeros + s)[..|zeros + s| - 1] == zeros + front;
    }
  }

  // ---------------------------------------------------------------------
  // ASCII case mapping on text.
  // ---------------------------------------------------------------------

  function UpperChar(c: char): char
  {
    if 'a' <= c <= 'z' then (c as int - 32) as char else c
  }

  function LowerChar(c: char): char
  {
    if 'A' <= c <= 'Z' then (c as int + 32) as char else c
  }

  function UpperAscii(s: string): (r: string)
    ensures |r| == |s|
    ensures forall i :: 0 <= i < |s| ==> r[i] == UpperChar(s[i])
  {
    seq(|s|, i requires 0 <= i < |s| => UpperChar(s[i]))
  }

  function LowerAscii(s: string): (r: string)
    ensures |r| == |s|
    ensures forall i :: 0 <= i < |s| ==> r[i] == LowerChar(s[i])
  {
    seq(|s|, i requires 0 <= i < |s| => LowerChar(s[i]))
  }

  /** `s` and `t` spell the same word up to the case of ASCII letters. */
  predicate SameIgnoringCase(s: string, t: string)
  {
    |s| == |t| && forall i :: 0 <= i < |s| ==> UpperChar(s[i]) == UpperChar(t[i])
  }

  /** Upper-casing cannot tell apart two spellings that differ only in case. */
  lemma SameIgnoringCaseUpper(s: string, t: string)
    requires SameIgnoringCase(s, t)
    ensures UpperAscii(s) == UpperAscii(t)
  {
  }
}
