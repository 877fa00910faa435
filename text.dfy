/** Bytes, UTF-8 text and decimal numbers.

    Two library routines are used whose code is not part of this model:
    `std::str::from_utf8` (UTF-8 validation, in the decoder and in `get_string`) and
    `str::parse`, for `i64` in the decoder's number lines and for `u64` in SET's
    expiry amount. They are stated here as `ValidUtf8`, `ParseI64` and `ParseU64`. Text is kept as
    its UTF-8 bytes throughout the model. */
module Text {
  import opened Wrappers

  type byte = b: int | 0 <= b < 0x100
  type Bytes = seq<byte>

  const I64_MIN: int := -0x8000_0000_0000_0000
  const I64_LIMIT: int := 0x8000_0000_0000_0000
  const U64_LIMIT: int := 0x1_0000_0000_0000_0000

  type i64 = n: int | -0x8000_0000_0000_0000 <= n < 0x8000_0000_0000_0000
  type u64 = n: int | 0 <= n < 0x1_0000_0000_0000_0000

  const CR: byte := 13
  const LF: byte := 10
  const PLUS_SIGN: byte := 43
  const MINUS_SIGN: byte := 45
  const ZERO_DIGIT: byte := 48

  predicate IsAscii(s: Bytes) {
    forall i | 0 <= i < |s| :: s[i] < 0x80
  }

  /** The bytes of an ASCII string literal. */
  function Ascii(s: string): (r: Bytes)
    requires forall i | 0 <= i < |s| :: s[i] as int < 0x80
    ensures |r| == |s| && IsAscii(r)
    ensures forall i | 0 <= i < |s| :: r[i] == s[i] as int
  {
    seq(|s|, i requires 0 <= i < |s| => s[i] as int)
  }

  /** The bytes of a concatenation are the concatenated bytes. */
  lemma AsciiConcat(x: string, y: string)
    requires forall i | 0 <= i < |x| :: x[i] as int < 0x80
    requires forall i | 0 <= i < |y| :: y[i] as int < 0x80
    ensures Ascii(x + y) == Ascii(x) + Ascii(y)
  {
    assert forall i | 0 <= i < |x + y| :: (x + y)[i] as int < 0x80 by {
      forall i | 0 <= i < |x + y| ensures (x + y)[i] as int < 0x80 {
        if i >= |x| { assert (x + y)[i] == y[i - |x|]; }
      }
    }
  }

  // ---------------------------------------------------------------------------
  // UTF-8 (the well-formed byte sequences of the Unicode Standard, table 3-7)
  // ---------------------------------------------------------------------------

  predicate IsContinuation(b: byte) { 0x80 <= b <= 0xBF }

  /** Length of the well-formed UTF-8 encoding of one scalar value at the start of s,
      or 0 when s does not start with one. */
  function ScalarLength(s: Bytes): (n: nat)
    requires |s| > 0
    ensures n <= |s| && n <= 4
    ensures s[0] < 0x80 ==> n == 1
  {
    var b := s[0];
    if b <= 0x7F then 1
    else if 0xC2 <= b <= 0xDF then
      if |s| >= 2 && IsContinuation(s[1]) then 2 else 0
    else if b == 0xE0 then
      if |s| >= 3 && 0xA0 <= s[1] <= 0xBF && IsContinuation(s[2]) then 3 else 0
    else if 0xE1 <= b <= 0xEC || 0xEE <= b <= 0xEF then
      if |s| >= 3 && IsContinuation(s[1]) && IsContinuation(s[2]) then 3 else 0
    else if b == 0xED then
      if |s| >= 3 && 0x80 <= s[1] <= 0x9F && IsContinuation(s[2]) then 3 else 0
    else if b == 0xF0 then
      if |s| >= 4 && 0x90 <= s[1] <= 0xBF && IsContinuation(s[2]) && IsContinuation(s[3]) then 4 else 0
    else if 0xF1 <= b <= 0xF3 then
      if |s| >= 4 && IsContinuation(s[1]) && IsContinuation(s[2]) && IsContinuation(s[3]) then 4 else 0
    else if b == 0xF4 then
      if |s| >= 4 && 0x80 <= s[1] <= 0x8F && IsContinuation(s[2]) && IsContinuation(s[3]) then 4 else 0
    else 0
  }

  /** What `std::str::from_utf8` accepts: a concatenation of well-formed scalar encodings. */
  predicate ValidUtf8(s: Bytes)
    decreases |s|
  {
    |s| == 0 || (ScalarLength(s) > 0 && ValidUtf8(s[ScalarLength(s)..]))
  }

  /** Every ASCII byte string is valid UTF-8. */
  lemma {:induction false} AsciiIsUtf8(s: Bytes)
    requires IsAscii(s)
    ensures ValidUtf8(s)
    decreases |s|
  {
    if |s| > 0 {
      assert ScalarLength(s) == 1;
      assert IsAscii(s[1..]) by {
        forall i | 0 <= i < |s[1..]| ensures s[1..][i] < 0x80 {
          assert s[1..][i] == s[i + 1];
        }
      }
      AsciiIsUtf8(s[1..]);
    }
  }

  // ---------------------------------------------------------------------------
  // Decimal numbers
  // ---------------------------------------------------------------------------

  predicate IsDigit(b: byte) { ZERO_DIGIT <= b <= ZERO_DIGIT + 9 }

  predicate AllDigits(s: Bytes) {
    forall i | 0 <= i < |s| :: IsDigit(s[i])
  }

  /** The value of a string of decimal digits, most significant first. */
  function DigitsValue(s: Bytes): nat
    requires AllDigits(s)
  {
    if |s| == 0 then 0 else DigitsValue(s[..|s| - 1]) * 10 + (s[|s| - 1] - ZERO_DIGIT)
  }

  /** `str::parse::<i64>`: an optional `+` or `-`, then one or more ASCII digits,
      whose value must lie in the i64 range. Leading zeros are accepted. */
  function ParseI64(s: Bytes): (r: Option<i64>)
    ensures r.Some? ==> |s| > 0 && IsAscii(s) && CR !in s
  {
    if |s| == 0 then None
    else
      var signed := s[0] == PLUS_SIGN || s[0] == MINUS_SIGN;
      var digits := if signed then s[1..] else s;
      if |digits| == 0 || !AllDigits(digits) then None
      else
        var v: int := if s[0] == MINUS_SIGN then 0 - DigitsValue(digits) else DigitsValue(digits);
        if I64_MIN <= v < I64_LIMIT then
          assert IsAscii(s) by {
            forall i | 0 <= i < |s| ensures s[i] < 0x80 {
              if signed && i > 0 { assert s[i] == digits[i - 1]; }
            }
          }
          Some(v)
        else None
  }

  /** `str::parse::<u64>`: an optional `+`, then one or more ASCII digits, value below 2^64. */
  function ParseU64(s: Bytes): (r: Option<u64>)
    ensures r.Some? ==> |s| > 0 && IsAscii(s) && MINUS_SIGN !in s
  {
    if |s| == 0 then None
    else
      var digits := if s[0] == PLUS_SIGN then s[1..] else s;
      if |digits| == 0 || !AllDigits(digits) then None
      else
        var v := DigitsValue(digits);
        if v < U64_LIMIT then
          assert IsAscii(s) && MINUS_SIGN !in s by {
            forall i | 0 <= i < |s| ensures s[i] < 0x80 && s[i] != MINUS_SIGN {
              if s[0] == PLUS_SIGN && i > 0 { assert s[i] == digits[i - 1]; }
            }
          }
          Some(v)
        else None
  }

  /** Canonical decimal text of a natural number (no sign, no leading zeros). */
  function NatText(n: nat): Bytes
    decreases n
  {
    if n < 10 then [ZERO_DIGIT + n] else NatText(n / 10) + [ZERO_DIGIT + n % 10]
  }

  /** Canonical decimal text of an integer: `-` followed by the magnitude for negatives. */
  function IntText(n: int): Bytes {
    if n < 0 then [MINUS_SIGN] + NatText(-n) else NatText(n)
  }

  lemma {:induction false} NatTextDigits(n: nat)
    ensures |NatText(n)| > 0 && AllDigits(NatText(n))
    ensures DigitsValue(NatText(n)) == n
    ensures NatText(n)[0] != PLUS_SIGN && NatText(n)[0] != MINUS_SIGN
    decreases n
  {
    if n >= 10 {
      NatTextDigits(n / 10);
      var s := NatText(n);
      assert s[..|s| - 1] == NatText(n / 10);
      assert s[0] == NatText(n / 10)[0];
    }
  }

  /** Parsing the canonical text of an i64 gives the number back. */
  lemma ParseI64IntText(n: i64)
    ensures ParseI64(IntText(n)) == Some(n)
  {
    if n < 0 {
      var m: nat := -(n as int);
      NatTextDigits(m);
      assert IntText(n)[1..] == NatText(m);
    } else {
      NatTextDigits(n);
    }
  }

  /** Parsing the canonical text of a u64 gives the number back. */
  lemma ParseU64NatText(n: u64)
    ensures ParseU64(NatText(n)) == Some(n)
  {
    NatTextDigits(n);
  }

  /** Canonical integer text is ASCII without CR, so it is a valid protocol line. */
  lemma IntTextIsLine(n: int)
    ensures IsAscii(IntText(n)) && CR !in IntText(n) && ValidUtf8(IntText(n))
  {
    var m: nat := if n < 0 then -n else n;
    NatTextDigits(m);
    var s := IntText(n);
    assert IsAscii(s) && CR !in s by {
      forall i | 0 <= i < |s| ensures s[i] < 0x80 && s[i] != CR {
        if n < 0 && i > 0 { assert s[i] == NatText(m)[i - 1]; }
      }
    }
    AsciiIsUtf8(s);
  }
}
