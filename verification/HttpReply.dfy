/**
  The byte-at-a-time reader of HTTP replies: status line, headers and the length of
  the body are taken off a stream, which then stands at the first byte of the body.
 */
module HttpReply {
  import opened Bytes
  import opened Decimal

  // ----- strstr on C strings

  predicate Occurs(t: bytes, what: bytes, i: nat) {
    i + |what| <= |t| && t[i..i + |what|] == what
  }

  ghost predicate FirstOccurs(t: bytes, what: bytes, i: nat) {
    Occurs(t, what, i) && forall j: nat | j < i :: !Occurs(t, what, j)
  }

  /** `strstr`: the position of the first occurrence. */
  function Find(t: bytes, what: bytes): (r: Option<nat>)
    ensures r.Some? ==> FirstOccurs(t, what, r.value)
    ensures r.None? ==> forall j: nat :: !Occurs(t, what, j)
  {
    FindFrom(t, what, 0)
  }

  function FindFrom(t: bytes, what: bytes, i: nat): (r: Option<nat>)
    requires i <= |t|
    requires forall j: nat | j < i :: !Occurs(t, what, j)
    ensures r.Some? ==> FirstOccurs(t, what, r.value)
    ensures r.None? ==> forall j: nat :: !Occurs(t, what, j)
    decreases |t| - i
  {
    if Occurs(t, what, i) then Some(i)
    else if i == |t| then None
    else FindFrom(t, what, i + 1)
  }

  /** The part of a buffer that C string functions see. */
  function CString(t: bytes): (s: bytes)
    ensures NUL !in s && |s| <= |t| && s == t[..|s|]
    ensures |s| < |t| ==> t[|s|] == NUL
  {
    match FindByte(t, NUL)
    case None => assert t == t[..|t|]; t
    case Some(i) => t[..i]
  }

  lemma CStringIs(t: bytes, s: bytes)
    requires NUL !in s && |s| <= |t| && s == t[..|s|] && (|s| < |t| ==> t[|s|] == NUL)
    ensures CString(t) == s
  {
    hide CString;
    var u := CString(t);
    assert u == t[..|u|];
  }

  lemma CStringOfPrefix(t: bytes, n: nat)
    requires n <= |t|
    ensures CString(t[..n]) == CString(t)[..if n < |CString(t)| then n else |CString(t)|]
  {
    hide CString;
    var s := CString(t);
    var u := s[..if n < |s| then n else |s|];
    assert u == t[..n][..|u|];
    CStringIs(t[..n], u);
  }

  // ----- ReadUntilStringFound

  /** The least number of bytes, from n on, after which the marker is seen. */
  function Until(t: bytes, what: bytes, n: nat): (r: Option<nat>)
    requires n > 0
    ensures r.Some? ==> n <= r.value <= |t|
    decreases |t| - n
  {
    if n > |t| then None
    else if Find(CString(t[..n]), what).Some? then Some(n)
    else Until(t, what, n + 1)
  }

  /** For every stream: exactly the bytes through the first marker are consumed,
      where a marker behind a NUL byte is never found. */
  lemma UntilExactly(t: bytes, what: bytes)
    requires |what| > 0
    ensures Until(t, what, 1) == match Find(CString(t), what)
                                 case None => None
                                 case Some(i) => Some(i + |what|)
  {
    UntilFrom(t, what, 1);
  }

  lemma {:induction false} UntilFrom(t: bytes, what: bytes, n: nat)
    requires |what| > 0 && n > 0
    requires Find(CString(t), what).Some? ==> n <= Find(CString(t), what).value + |what|
    ensures Until(t, what, n) == match Find(CString(t), what)
                                 case None => None
                                 case Some(i) => Some(i + |what|)
    decreases |t| - n
  {
    hide Find;
    hide CString;
    if n <= |t| {
      SeenExactly(t, what, n);
      if Find(CString(t[..n]), what).None? {
        UntilFrom(t, what, n + 1);
      }
    }
  }

  lemma SeenExactly(t: bytes, what: bytes, n: nat)
    requires n <= |t|
    ensures Find(CString(t[..n]), what).Some? <==> Find(CString(t), what).Some? && Find(CString(t), what).value + |what| <= n
  {
    hide Find;
    hide CString;
    CStringOfPrefix(t, n);
    var s, u := CString(t), CString(t[..n]);
    if Find(u, what).Some? {
      OccursInPrefix(s, |u|, what, Find(u, what).value);
    }
    if Find(s, what).Some? && Find(s, what).value + |what| <= n {
      OccursInPrefix(s, |u|, what, Find(s, what).value);
    }
  }

  lemma OccursInPrefix(s: bytes, m: nat, what: bytes, i: nat)
    requires m <= |s|
    ensures Occurs(s[..m], what, i) <==> Occurs(s, what, i) && i + |what| <= m
  {
    if i + |what| <= m {
      assert s[..m][i..i + |what|] == s[i..i + |what|];
    }
  }

  lemma FindIs(t: bytes, what: bytes, i: nat)
    requires FirstOccurs(t, what, i)
    ensures Find(t, what) == Some(i)
  {
    hide Find;
    var r := Find(t, what);
    if r.Some? {
      assert !(r.value < i) && !(i < r.value);
    }
  }

  /** The stream: what has been sent and not yet been read. */
  class Socket {
    var rest: bytes

    constructor (sent: bytes)
      ensures rest == sent
    {
      rest := sent;
    }

    /** `read` for up to n bytes, of which the system delivers at most offered. */
    method Read(n: nat, offered: nat) returns (got: bytes)
      modifies this
      ensures got == Delivered(old(rest), n, offered)
      ensures got + rest == old(rest)
    {
      got := Delivered(rest, n, offered);
      rest := rest[|got|..];
    }

    /** `ReadUntilStringFound`, with the NULL result as None. */
    method ReadUntilStringFound(what: bytes) returns (buffer: Option<bytes>)
      modifies this
      ensures match Until(old(rest), what, 1)
              case None => buffer == None && rest == []
              case Some(n) => buffer == Some(old(rest)[..n]) && rest == old(rest)[n..]
    {
      hide Find;
      hide CString;
      hide Delivered;
      hide FirstOccurs;
      ghost var t := rest;
      var read: bytes := [];
      var b := Read(1, 1);
      Assoc(read, b, rest);
      while |b| == 1
        invariant |b| <= 1
        invariant |b| == 0 ==> rest == []
        invariant t == (read + b) + rest
        invariant Until(t, what, 1) == Until(t, what, |read| + 1)
        decreases |b| + |rest|
      {
        read := read + b;
        Splits(read, rest);
        if Find(CString(read), what).Some? {
          return Some(read);
        }
        b := Read(1, 1);
        Assoc(read, b, rest);
      }
      assert |read| == |t|;
      return None;
    }

    /** `ReadHttpStatusFromSocket`; offered is what the system delivers of the
        three status bytes. */
    method ReadHttpStatus(offered: nat) returns (status: int)
      modifies this
      ensures (status, rest) == StatusOf(old(rest), offered)
    {
      status := 404;
      var buffer := ReadUntilStringFound(HTTP_PREFIX);
      if buffer.None? {
        return;
      }
      var space := Read(1, 1);
      if space == [SPACE] {
        var digits := Read(3, offered);
        if IsStatus(digits) {
          status := Atoi(digits);
        }
      }
    }

    /** `ReadHttpContentLengthFromSocket`. */
    method ReadHttpContentLength() returns (length: int)
      modifies this
      ensures (length, rest) == LengthOf(old(rest))
    {
      length := 0;
      var buffer := ReadUntilStringFound(DOUBLE_TERMINATOR);
      if buffer.None? {
        return;
      }
      var text := CString(buffer.value);
      var found := Find(text, LABEL);
      if found.None? {
        return;
      }
      var contentLength := text[found.value + |LABEL|..];
      var isolated := Isolate(contentLength);
      if |isolated| > 0 {
        length := Atoi(isolated);
      }
    }
  }

  function Delivered(t: bytes, n: nat, offered: nat): (got: bytes)
    ensures |got| <= n && |got| <= |t| && got == t[..|got|]
    ensures offered >= n ==> |got| == n || got == t
  {
    var k := if n < offered then n else offered;
    if |t| < k then t else t[..k]
  }

  const CRLF: bytes := [CR, LF]
  const DOUBLE_TERMINATOR: bytes := CRLF + CRLF

  /** "HTTP/1.1" */
  const HTTP_PREFIX: bytes := [0x48, 0x54, 0x54, 0x50, 0x2F, 0x31, 0x2E, 0x31]

  /** "Content-Length: " */
  const LABEL: bytes := [0x43, 0x6F, 0x6E, 0x74, 0x65, 0x6E, 0x74, 0x2D, 0x4C, 0x65, 0x6E, 0x67, 0x74, 0x68, 0x3A, 0x20]

  const ISOLATED: nat := 63

  /** The loop that copies leading digits, at most 63 of them. */
  method Isolate(t: bytes) returns (digits: bytes)
    ensures digits == IsolatedDigits(t)
  {
    digits := [];
    var i := 0;
    while i < ISOLATED && IsDigit(Peek(t[i..]))
      invariant 0 <= i <= |t| && i <= ISOLATED && digits == t[..i] && AllDigits(digits)
      decreases ISOLATED - i
    {
      digits := digits + [t[i]];
      i := i + 1;
    }
    IsolatedIs(t, i);
  }

  function IsolatedDigits(t: bytes): (d: bytes)
    ensures AllDigits(d) && |d| <= ISOLATED
  {
    var k := DigitRun(t);
    if k <= ISOLATED then t[..k] else t[..k][..ISOLATED]
  }

  lemma IsolatedIs(t: bytes, i: nat)
    requires i <= |t| && i <= ISOLATED && AllDigits(t[..i])
    requires i < ISOLATED ==> i == |t| || !IsDigit(t[i])
    ensures IsolatedDigits(t) == t[..i]
  {
    var k := DigitRun(t);
    assert forall j | 0 <= j < i :: t[j] == t[..i][j];
    assert forall j | 0 <= j < k :: t[j] == t[..k][j];
    assert k == i || (i == ISOLATED && t[..k][..i] == t[..i]);
  }

  const LONG_MAX: int := 0x7FFF_FFFF_FFFF_FFFF

  /** `atoi` on digits: strtol saturates, and the result is narrowed to 32 bits. */
  function Atoi(s: bytes): (r: int)
    requires AllDigits(s)
    ensures -0x8000_0000 <= r <= 0x7FFF_FFFF
    ensures ValueOf(s) <= 0x7FFF_FFFF ==> r == ValueOf(s)
  {
    var v: int := if ValueOf(s) > LONG_MAX then LONG_MAX else ValueOf(s);
    var low := v % 0x1_0000_0000;
    if low >= 0x8000_0000 then low - 0x1_0000_0000 else low
  }

  /** Numbers of 64 bits are taken modulo 2^32 into the range of `int`; larger ones
      all give -1. */
  lemma AtoiExactly(s: bytes)
    requires AllDigits(s)
    ensures ValueOf(s) < 0x8000_0000_0000_0000 ==> (ValueOf(s) - Atoi(s)) % 0x1_0000_0000 == 0
    ensures ValueOf(s) >= 0x8000_0000_0000_0000 ==> Atoi(s) == -1
  {
    hide ValueOf;
    if ValueOf(s) < 0x8000_0000_0000_0000 {
      SameRemainder(ValueOf(s), Atoi(s));
    }
  }

  lemma SameRemainder(v: int, r: int)
    requires v % 0x1_0000_0000 == r % 0x1_0000_0000
    ensures (v - r) % 0x1_0000_0000 == 0
  {
  }

  predicate IsStatus(s: bytes) {
    |s| == 3 && AllDigits(s) && 0x31 <= s[0] <= 0x35
  }

  function StatusOf(t: bytes, offered: nat): (int, bytes) {
    match Until(t, HTTP_PREFIX, 1)
    case None => (404, [])
    case Some(n) =>
      var u := t[n..];
      if Peek(u) != SPACE then (404, if |u| == 0 then u else u[1..])
      else
        var digits := Delivered(u[1..], 3, offered);
        (if IsStatus(digits) then Atoi(digits) else 404, u[1..][|digits|..])
  }

  /** The number behind the first label in the headers, 0 if there is none. */
  function HeaderLength(text: bytes): int {
    match Find(text, LABEL)
    case None => 0
    case Some(i) => Atoi(IsolatedDigits(text[i + |LABEL|..]))
  }

  function LengthOf(t: bytes): (int, bytes) {
    match Until(t, DOUBLE_TERMINATOR, 1)
    case None => (0, [])
    case Some(n) => (HeaderLength(CString(t[..n])), t[n..])
  }

  // ----- Well-formed replies, section 2.1 of RFC 9112

  /** reason stands for all of the status line behind the status code. */
  datatype Reply = Reply(status: bytes, reason: bytes, fields: seq<bytes>, body: bytes)

  predicate LineText(s: bytes) {
    CR !in s && LF !in s && NUL !in s
  }

  predicate ValidReply(r: Reply) {
    && IsStatus(r.status) && LineText(r.reason)
    && (forall i | 0 <= i < |r.fields| :: |r.fields[i]| > 0 && LineText(r.fields[i]))
  }

  /** Field lines and the empty line that ends them. */
  function Lines(fields: seq<bytes>): bytes {
    if |fields| == 0 then CRLF else fields[0] + (CRLF + Lines(fields[1..]))
  }

  function Head(r: Reply): bytes {
    r.reason + (CRLF + Lines(r.fields))
  }

  function ReplyText(r: Reply): bytes {
    HTTP_PREFIX + ([SPACE] + (r.status + (Head(r) + r.body)))
  }

  /** The empty line is the first double line end. */
  lemma {:induction false} EndOfHead(x: bytes, fields: seq<bytes>, body: bytes)
    requires LineText(x) && forall i | 0 <= i < |fields| :: |fields[i]| > 0 && LineText(fields[i])
    ensures var h := x + (CRLF + Lines(fields));
      |h| >= 4 && NUL !in h && FirstOccurs(h + body, DOUBLE_TERMINATOR, |h| - 4)
    decreases |fields|
  {
    var h, t := x + (CRLF + Lines(fields)), x + (CRLF + Lines(fields)) + body;
    if |fields| == 0 {
      assert t[|x|..|x| + 4] == DOUBLE_TERMINATOR;
      forall j: nat | j < |x| ensures !Occurs(t, DOUBLE_TERMINATOR, j) {
        StartsWithCR(t, j);
        assert t[j] == x[j];
      }
    } else {
      var h' := Lines(fields);
      EndOfHead(fields[0], fields[1..], body);
      assert t == (x + CRLF) + (h' + body);
      forall j: nat | j <= |h| - 4 ensures Occurs(t, DOUBLE_TERMINATOR, j) <==> j == |h| - 4 {
        if j < |x| + 2 {
          BlankAfterLine(x, h' + body, j);
        } else {
          OccursShifted(x + CRLF, h' + body, DOUBLE_TERMINATOR, j);
        }
      }
    }
  }

  /** A line end in front of something else is not an empty line. */
  lemma BlankAfterLine(x: bytes, t: bytes, j: nat)
    requires CR !in x && j < |x| + 2 && |t| > 0 && t[0] != CR
    ensures !Occurs(x + CRLF + t, DOUBLE_TERMINATOR, j)
  {
    var u := x + CRLF + t;
    StartsWithCR(u, j);
    assert j < |x| ==> u[j] == x[j];
    assert u[|x| + 1] == LF && u[|x| + 2] == t[0];
  }

  lemma StartsWithCR(t: bytes, j: nat)
    ensures Occurs(t, DOUBLE_TERMINATOR, j) ==> t[j] == CR && t[j + 2] == CR
  {
    if Occurs(t, DOUBLE_TERMINATOR, j) {
      assert t[j] == t[j..j + 4][0] && t[j + 2] == t[j..j + 4][2];
    }
  }

  /** The three status bytes are asked for behind the prefix and the space. */
  lemma StatusBytes(r: Reply, offered: nat)
    requires ValidReply(r)
    ensures var digits := Delivered(r.status + (Head(r) + r.body), 3, offered);
      StatusOf(ReplyText(r), offered) == (if IsStatus(digits) then Atoi(digits) else 404, (r.status + (Head(r) + r.body))[|digits|..])
  {
    hide CString;
    hide Find;
    hide Head;
    hide ValueOf;
    hide Atoi;
    hide Delivered;
    var t := ReplyText(r);
    var u := [SPACE] + (r.status + (Head(r) + r.body));
    Splits(HTTP_PREFIX, u);
    PrefixVisible(u);
    FindIs(CString(t), HTTP_PREFIX, 0);
    UntilExactly(t, HTTP_PREFIX);
    assert u[1..] == r.status + (Head(r) + r.body);
  }

  /** The literals of the reader. */
  lemma ReaderLiterals()
    ensures HTTP_PREFIX == Ascii("HTTP/1.1") && LABEL == Ascii("Content-Length: ") && DOUBLE_TERMINATOR == Ascii("\r\n\r\n")
  {
    assert Ascii("HTTP/1.1") == HTTP_PREFIX;
    assert Ascii("Content-Length: ") == LABEL;
    assert Ascii("\r\n\r\n") == DOUBLE_TERMINATOR;
  }

  lemma ThreeDigitText(n: nat)
    requires 100 <= n < 1000
    ensures NatText(n) == [ZERO + n / 100, ZERO + n / 10 % 10, ZERO + n % 10]
  {
    assert NatText(n / 10) == NatText(n / 100) + [ZERO + n / 10 % 10];
    assert NatText(n / 100) == [ZERO + n / 100];
  }

  lemma DigitsOf(a: nat, b: nat, c: nat)
    requires a < 10 && b < 10 && c < 10
    ensures var n := 100 * a + 10 * b + c;
      n / 100 == a && n / 10 % 10 == b && n % 10 == c
  {
  }

  /** The status codes are the decimal texts of 100 to 599. */
  lemma StatusCodes(s: bytes)
    ensures IsStatus(s) <==> exists n :: 100 <= n < 600 && s == NatText(n)
  {
    if IsStatus(s) {
      var a, b, c := s[0] - ZERO, s[1] - ZERO, s[2] - ZERO;
      DigitsOf(a, b, c);
      ThreeDigitText(100 * a + 10 * b + c);
      assert s == NatText(100 * a + 10 * b + c);
    }
    hide NatText;
    if exists n :: 100 <= n < 600 && s == NatText(n) {
      var n :| 100 <= n < 600 && s == NatText(n);
      ThreeDigitText(n);
    }
  }

  /** For every status code from 100 to 599, in a reply with any reason, fields and
      body, the number is read from the text "HTTP/1.1 " and its three digits. */
  lemma StatusNumber(n: nat, r: Reply, offered: nat)
    requires 100 <= n < 600 && offered >= 3 && r.status == NatText(n)
    requires LineText(r.reason) && forall i | 0 <= i < |r.fields| :: |r.fields[i]| > 0 && LineText(r.fields[i])
    ensures StatusOf(Ascii("HTTP/1.1 ") + (NatText(n) + (Head(r) + r.body)), offered) == (n, Head(r) + r.body)
  {
    hide StatusOf;
    hide Head;
    hide NatText;
    hide ValueOf;
    hide IsStatus;
    StatusCodes(NatText(n));
    TextIsCanonical(n);
    StatusRead(r, offered);
    assert Ascii("HTTP/1.1 ") == HTTP_PREFIX + [SPACE];
    Assoc(HTTP_PREFIX, [SPACE], NatText(n) + (Head(r) + r.body));
  }

  /** With its three bytes delivered, the status is the one sent, and the headers
      come next. */
  lemma StatusRead(r: Reply, offered: nat)
    requires ValidReply(r) && offered >= 3
    ensures StatusOf(ReplyText(r), offered) == (ValueOf(r.status), Head(r) + r.body)
  {
    hide StatusOf;
    hide Head;
    hide ValueOf;
    hide Atoi;
    StatusBytes(r, offered);
    Splits(r.status, Head(r) + r.body);
    ThreeDigits(r.status);
  }

  /** One `read` is made for the three bytes: a short one turns every status but 404
      into 404. */
  lemma StatusExactly(r: Reply, offered: nat)
    requires ValidReply(r)
    ensures StatusOf(ReplyText(r), offered).0 == ValueOf(r.status) <==> offered >= 3 || ValueOf(r.status) == 404
  {
    hide StatusOf;
    hide Head;
    hide ValueOf;
    hide Atoi;
    StatusBytes(r, offered);
    if offered >= 3 {
      StatusRead(r, offered);
    }
  }

  lemma PrefixVisible(u: bytes)
    ensures FirstOccurs(CString(HTTP_PREFIX + u), HTTP_PREFIX, 0)
  {
    hide CString;
    var t := HTTP_PREFIX + u;
    var s := CString(t);
    assert forall i | 0 <= i < 8 :: t[i] == HTTP_PREFIX[i] != NUL;
    assert s[0..8] == HTTP_PREFIX;
  }

  lemma ThreeDigits(s: bytes)
    requires |s| == 3 && AllDigits(s)
    ensures ValueOf(s) < 1000 && Atoi(s) == ValueOf(s)
  {
    var a, b := s[..2], s[..1];
    assert a[..1] == b && b[..0] == [];
    assert ValueOf(b) == s[0] - ZERO;
    assert ValueOf(a) == 10 * ValueOf(b) + (s[1] - ZERO);
  }

  /** After the length the stream stands at the first byte of the body. */
  lemma HeadRead(r: Reply)
    requires ValidReply(r)
    ensures LengthOf(Head(r) + r.body) == (HeaderLength(Head(r)), r.body)
  {
    hide CString;
    hide Find;
    hide HeaderLength;
    hide Lines;
    hide FirstOccurs;
    var h := Head(r);
    var t := h + r.body;
    var s := CString(t);
    EndOfHead(r.reason, r.fields, r.body);
    Visible(h, r.body);
    UntilExactly(t, DOUBLE_TERMINATOR);
    FirstInPrefix(t, |s|, DOUBLE_TERMINATOR, |h| - 4);
    FindIs(s, DOUBLE_TERMINATOR, |h| - 4);
    Splits(h, r.body);
    Visible(h, []);
    assert h + [] == h;
    assert CString(h) == h;
  }

  /** Without a NUL in front, the C string goes at least through h. */
  lemma Visible(h: bytes, body: bytes)
    requires NUL !in h
    ensures |CString(h + body)| >= |h|
  {
    hide CString;
    var s := CString(h + body);
    assert forall i | 0 <= i < |h| :: (h + body)[i] == h[i];
  }

  lemma FirstInPrefix(t: bytes, m: nat, what: bytes, i: nat)
    requires FirstOccurs(t, what, i) && i + |what| <= m <= |t|
    ensures FirstOccurs(t[..m], what, i)
  {
    OccursInPrefix(t, m, what, i);
    forall j: nat | j < i ensures !Occurs(t[..m], what, j) {
      OccursInPrefix(t, m, what, j);
    }
  }

  lemma OccursShifted(a: bytes, t: bytes, what: bytes, j: nat)
    requires j >= |a|
    ensures Occurs(a + t, what, j) <==> Occurs(t, what, j - |a|)
  {
    var i := j - |a|;
    if i + |what| <= |t| {
      assert (a + t)[j..j + |what|] == t[i..i + |what|];
    }
  }
}
