/**
  The UTF-8 check of parson and the encoder behind `\u` escapes.

  Shifts and masks of the source are written as division and remainder.
 */
module Utf8 {
  import opened Bytes

  // ----- Section 4 of RFC 3629, the reference definition

  predicate Tail(b: byte) {
    0x80 <= b <= 0xBF
  }

  /** One UTF8-char of the grammar. */
  predicate Utf8Char(c: bytes) {
    || (|c| == 1 && c[0] <= 0x7F)
    || (|c| == 2 && 0xC2 <= c[0] <= 0xDF && Tail(c[1]))
    || (|c| == 3 && Tail(c[2]) && (
          || (c[0] == 0xE0 && 0xA0 <= c[1] <= 0xBF)
          || (0xE1 <= c[0] <= 0xEC && Tail(c[1]))
          || (c[0] == 0xED && 0x80 <= c[1] <= 0x9F)
          || (0xEE <= c[0] <= 0xEF && Tail(c[1]))))
    || (|c| == 4 && Tail(c[2]) && Tail(c[3]) && (
          || (c[0] == 0xF0 && 0x90 <= c[1] <= 0xBF)
          || (0xF1 <= c[0] <= 0xF3 && Tail(c[1]))
          || (c[0] == 0xF4 && 0x80 <= c[1] <= 0x8F)))
  }

  /** UTF8-octets: a sequence of UTF8-chars. */
  predicate WellFormed(s: bytes)
    decreases |s|
  {
    s == [] || exists k :: 1 <= k <= 4 && k <= |s| && Utf8Char(s[..k]) && WellFormed(s[k..])
  }

  /** A Unicode scalar value. */
  predicate Scalar(cp: int) {
    0 <= cp <= 0x10FFFF && !(0xD800 <= cp <= 0xDFFF)
  }

  // ----- The code

  predicate IsCont(b: byte) {
    b / 64 == 2
  }

  /** `num_bytes_in_utf8_sequence`. */
  function NumBytes(c: byte): nat {
    if c == 0xC0 || c == 0xC1 || c > 0xF4 || IsCont(c) then 0
    else if c / 128 == 0 then 1
    else if c / 32 == 6 then 2
    else if c / 16 == 14 then 3
    else if c / 8 == 30 then 4
    else 0
  }

  /** The code point that `verify_utf8_sequence` assembles from len bytes. */
  function CodePoint(c: bytes): nat
    requires 1 <= |c| <= 4
  {
    var x: seq<int> := c;
    if |x| == 1 then x[0]
    else if |x| == 2 then x[0] % 32 * 64 + x[1] % 64
    else if |x| == 3 then x[0] % 16 * 4096 + x[1] % 64 * 64 + x[2] % 64
    else x[0] % 8 * 262144 + x[1] % 64 * 4096 + x[2] % 64 * 64 + x[3] % 64
  }

  /** `verify_utf8_sequence`: the length of the sequence at the front of t, or 0.
      Bytes are inspected left to right and the terminator is no continuation
      byte, so nothing behind the terminator is read. */
  function VerifySequence(t: bytes): (len: nat)
    requires |t| > 0
    ensures len <= 4 && len <= |t|
  {
    var n := NumBytes(t[0]);
    if n == 0 || n > |t| || (exists i | 1 <= i < n :: !IsCont(t[i])) then 0
    else
      var cp := CodePoint(t[..n]);
      if (cp < 0x80 && n > 1) || (cp < 0x800 && n > 2) || (cp < 0x10000 && n > 3) then 0
      else if cp > 0x10FFFF then 0
      else if 0xD800 <= cp <= 0xDFFF then 0
      else n
  }

  /** `is_valid_utf8`: buf holds the bytes before the terminator of the memory
      that `string` points into, n is the `string_len` argument. */
  predicate Accepts(buf: bytes, n: int)
    decreases |buf|
  {
    n <= 0 || (|buf| > 0 && var k := VerifySequence(buf); k > 0 && Accepts(buf[k..], n - k))
  }

  method IsValidUtf8(buf: bytes, n: nat) returns (valid: bool)
    requires n <= |buf|
    ensures valid <==> exists j :: n <= j <= |buf| && WellFormed(buf[..j])
  {
    AcceptsExactly(buf, n);
    var t, m := buf, n as int;
    while 0 < m
      invariant m <= |t|
      invariant Accepts(t, m) == Accepts(buf, n)
      decreases |t|
    {
      var k := VerifySequence(t);
      if k == 0 {
        return false;
      }
      t, m := t[k..], m - k;
    }
    return true;
  }

  // ----- Acceptance is the grammar of RFC 3629

  lemma VerifyExactly(t: bytes, k: nat)
    requires |t| > 0
    requires 1 <= k <= 4 && k <= |t|
    ensures VerifySequence(t) == k <==> Utf8Char(t[..k])
  {
  }

  lemma {:induction false} AcceptsIsPrefix(buf: bytes, n: int)
    requires n <= |buf|
    requires Accepts(buf, n)
    ensures exists j :: 0 <= j <= |buf| && n <= j && WellFormed(buf[..j])
    decreases |buf|
  {
    if n <= 0 {
      assert WellFormed(buf[..0]);
    } else {
      var k := VerifySequence(buf);
      VerifyExactly(buf, k);
      AcceptsIsPrefix(buf[k..], n - k);
      var j :| 0 <= j <= |buf[k..]| && n - k <= j && WellFormed(buf[k..][..j]);
      TakeDrop(buf, k, k + j);
      assert WellFormed(buf[..k + j]);
    }
  }

  lemma {:induction false} PrefixIsAccepted(buf: bytes, n: int, j: nat)
    requires n <= j <= |buf|
    requires WellFormed(buf[..j])
    ensures Accepts(buf, n)
    decreases |buf|
  {
    hide Utf8Char;
    hide VerifySequence;
    if n > 0 {
      var s := buf[..j];
      var k :| 1 <= k <= 4 && k <= |s| && Utf8Char(s[..k]) && WellFormed(s[k..]);
      TakeDrop(buf, k, j);
      VerifyExactly(buf, k);
      assert VerifySequence(buf) == k;
      PrefixIsAccepted(buf[k..], n - k, j - k);
    }
  }

  /** For every buffer and every length, the check accepts exactly when some
      well-formed prefix of the memory reaches at least that length. */
  lemma AcceptsExactly(buf: bytes, n: nat)
    requires n <= |buf|
    ensures Accepts(buf, n) <==> exists j :: n <= j <= |buf| && WellFormed(buf[..j])
  {
    if Accepts(buf, n) {
      AcceptsIsPrefix(buf, n);
    }
    if exists j :: n <= j <= |buf| && WellFormed(buf[..j]) {
      var j :| n <= j <= |buf| && WellFormed(buf[..j]);
      PrefixIsAccepted(buf, n, j);
    }
  }

  /** On a terminated string of length n the check is the RFC 3629 grammar. */
  lemma AcceptsTerminated(s: bytes)
    ensures Accepts(s, |s|) <==> WellFormed(s)
  {
    assert s[..|s|] == s;
    if Accepts(s, |s|) {
      AcceptsIsPrefix(s, |s|);
    }
    if WellFormed(s) {
      PrefixIsAccepted(s, |s|, |s|);
    }
  }

  /** A length that ends inside a character is accepted all the same. */
  lemma AcceptsBeyondLength()
    ensures Accepts([0xC3, 0xA9], 1) && !WellFormed([0xC3, 0xA9][..1])
  {
    var buf: bytes := [0xC3, 0xA9];
    VerifyExactly(buf, 2);
    assert buf[..2] == buf;
    assert buf[..1] == [0xC3];
  }

  // ----- Encoding

  /** The bytes `parse_utf16` writes for a code point. */
  function Encode(cp: nat): (c: bytes)
    requires Scalar(cp)
    ensures 1 <= |c| <= 4
  {
    if cp < 0x80 then [cp]
    else if cp < 0x800 then [0xC0 + cp / 64 % 32, 0x80 + cp % 64]
    else if cp < 0x10000 then [0xE0 + cp / 4096 % 16, 0x80 + cp / 64 % 64, 0x80 + cp % 64]
    else [0xF0 + cp / 262144 % 8, 0x80 + cp / 4096 % 64, 0x80 + cp / 64 % 64, 0x80 + cp % 64]
  }

  /** The base-64 digits of a code point, lowest last. */
  lemma Digits(a: nat, b: nat, c: nat, d: nat, cp: nat)
    requires a < 64 && b < 64 && c < 64 && d < 64
    requires cp == a * 262144 + b * 4096 + c * 64 + d
    ensures cp % 64 == d && cp / 64 % 64 == c && cp / 4096 % 64 == b && cp / 262144 == a
    ensures cp / 64 == a * 4096 + b * 64 + c && cp / 4096 == a * 64 + b
  {
    assert cp / 64 == a * 4096 + b * 64 + c;
    assert cp / 4096 == a * 64 + b;
  }

  lemma Split(cp: nat) returns (a: nat, b: nat, c: nat, d: nat)
    requires cp < 8 * 262144
    ensures a < 8 && b < 64 && c < 64 && d < 64
    ensures cp == a * 262144 + b * 4096 + c * 64 + d
  {
    a, b, c, d := cp / 262144, cp / 4096 % 64, cp / 64 % 64, cp % 64;
    assert cp / 64 / 64 == cp / 4096 && cp / 4096 / 64 == cp / 262144;
  }

  lemma MarkedDigit(n: nat)
    requires n < 64
    ensures (0x80 + n) % 64 == n
    ensures n < 32 ==> (0xC0 + n) % 32 == n % 32 == n
    ensures n < 16 ==> (0xE0 + n) % 16 == n % 16 == n
    ensures n < 8 ==> (0xF0 + n) % 8 == n % 8 == n
  {
  }

  lemma EncodeDigits(a: nat, b: nat, c: nat, d: nat, cp: nat)
    requires a < 8 && b < 64 && c < 64 && d < 64
    requires cp == a * 262144 + b * 4096 + c * 64 + d && Scalar(cp) && cp >= 0x80
    ensures a > 0 || b >= 16 ==> Encode(cp) == [0xF0 + a, 0x80 + b, 0x80 + c, 0x80 + d]
    ensures a == 0 && b < 16 && (b > 0 || c >= 32) ==> Encode(cp) == [0xE0 + b, 0x80 + c, 0x80 + d]
    ensures a == 0 && b == 0 && c < 32 ==> Encode(cp) == [0xC0 + c, 0x80 + d]
  {
    Digits(a, b, c, d, cp);
    MarkedDigit(a); MarkedDigit(b); MarkedDigit(c);
  }

  /** Within a UTF8-char the masks just remove the marker bits. */
  lemma CodePointDigits(u: bytes)
    requires Utf8Char(u) && |u| >= 2
    ensures CodePoint(u) == Bits(u)
  {
    if |u| == 2 {
      MarkedDigit(u[0] - 0xC0); MarkedDigit(u[1] - 0x80);
    } else if |u| == 3 {
      MarkedDigit(u[0] - 0xE0); MarkedDigit(u[1] - 0x80); MarkedDigit(u[2] - 0x80);
    } else {
      MarkedDigit(u[0] - 0xF0); MarkedDigit(u[1] - 0x80); MarkedDigit(u[2] - 0x80); MarkedDigit(u[3] - 0x80);
    }
  }

  /** Encoding yields the one UTF8-char that stands for the code point. */
  lemma EncodeDecode(cp: nat)
    requires Scalar(cp)
    ensures Utf8Char(Encode(cp)) && CodePoint(Encode(cp)) == cp
  {
    var u := Encode(cp);
    if cp >= 0x80 {
      EncodeIsChar(cp, u);
      CodePointDigits(u);
    }
  }

  /** The linear form of the bits of a UTF8-char. */
  function Bits(u: bytes): int
    requires 2 <= |u| <= 4
  {
    var x: seq<int> := u;
    if |x| == 2 then (x[0] - 0xC0) * 64 + (x[1] - 0x80)
    else if |x| == 3 then (x[0] - 0xE0) * 4096 + (x[1] - 0x80) * 64 + (x[2] - 0x80)
    else (x[0] - 0xF0) * 262144 + (x[1] - 0x80) * 4096 + (x[2] - 0x80) * 64 + (x[3] - 0x80)
  }

  lemma EncodeIsChar(cp: nat, u: bytes)
    requires Scalar(cp) && u == Encode(cp) && cp >= 0x80
    ensures |u| >= 2 && Utf8Char(u) && Bits(u) == cp
  {
    var a, b, c, d := Split(cp);
    EncodeDigits(a, b, c, d, cp);
    if a > 0 || b >= 16 {
    } else if b > 0 || c >= 32 {
    } else {
      assert u == [0xC0 + c, 0x80 + d];
    }
  }

  /** Every UTF8-char stands for a scalar value and is its encoding. */
  lemma DecodeEncode(u: bytes)
    requires Utf8Char(u)
    ensures Scalar(CodePoint(u)) && Encode(CodePoint(u)) == u
  {
    if |u| >= 2 {
      CodePointDigits(u);
      EncodeBits(u);
    }
  }

  lemma EncodeBits(u: bytes)
    requires Utf8Char(u) && |u| >= 2
    ensures Scalar(Bits(u)) && Encode(Bits(u)) == u
  {
    if |u| == 2 {
      EncodeDigits(0, 0, u[0] - 0xC0, u[1] - 0x80, Bits(u));
    } else if |u| == 3 {
      EncodeDigits(0, u[0] - 0xE0, u[1] - 0x80, u[2] - 0x80, Bits(u));
    } else {
      EncodeDigits(u[0] - 0xF0, u[1] - 0x80, u[2] - 0x80, u[3] - 0x80, Bits(u));
    }
  }

  // ----- Concatenation

  lemma WellFormedCons(c: bytes, s: bytes)
    requires Utf8Char(c) && WellFormed(s)
    ensures WellFormed(c + s)
  {
    var t := c + s;
    assert t[..|c|] == c && t[|c|..] == s;
  }

  /** Dropping an ASCII byte from the front keeps a string well formed. */
  lemma WellFormedTail(s: bytes)
    requires WellFormed(s) && |s| > 0 && s[0] < 0x80
    ensures WellFormed(s[1..])
  {
    var k :| 1 <= k <= 4 && k <= |s| && Utf8Char(s[..k]) && WellFormed(s[k..]);
    assert s[..k][0] == s[0];
  }
}
