/**
  Quoted JSON strings: where they end, how their text is decoded, and the strings
  that stand for a sequence of characters, against which both are measured. These
  are the strings of section 7 of RFC 8259 in which surrogates come in pairs;
  JsonSection7 says how they relate to the whole of that grammar.
 */
module JsonStrings {
  import opened Bytes
  import Utf8

  // ----- A string is a sequence of pieces

  /** One character of a quoted string as it is spelled in the text. */
  datatype Piece =
    | Plain(b: byte)
    | Escaped(c: byte)
    | Unit(h: bytes)
    | Pair(lead: bytes, trail: bytes)

  predicate IsHex(b: byte) {
    0x30 <= b <= 0x39 || 0x61 <= b <= 0x66 || 0x41 <= b <= 0x46
  }

  predicate Hex4(h: bytes) {
    |h| == 4 && forall i | 0 <= i < |h| :: IsHex(h[i])
  }

  /** `hex_char_to_int`, -1 for anything but a hexadecimal digit. */
  function HexDigit(b: byte): (n: int)
    ensures if IsHex(b) then 0 <= n < 16 else n == -1
  {
    if 0x30 <= b <= 0x39 then b - 0x30
    else if 0x61 <= b <= 0x66 then b - 0x61 + 10
    else if 0x41 <= b <= 0x46 then b - 0x41 + 10
    else -1
  }

  /** The number a row of hexadecimal digits denotes. */
  function HexValue(h: bytes): (n: nat)
    requires forall i | 0 <= i < |h| :: IsHex(h[i])
    ensures |h| == 0 ==> n < 0x1
    ensures |h| == 1 ==> n < 0x10
    ensures |h| == 2 ==> n < 0x100
    ensures |h| == 3 ==> n < 0x1000
    ensures |h| == 4 ==> n < 0x10000
  {
    if |h| == 0 then 0 else HexValue(h[..|h| - 1]) * 16 + HexDigit(h[|h| - 1])
  }

  /** The byte a two-character escape stands for. */
  function Unescape(c: byte): (r: Option<byte>)
  {
    if c == QUOTE || c == BACKSLASH || c == SLASH then Some(c)
    else if c == 0x62 then Some(0x08)
    else if c == 0x66 then Some(0x0C)
    else if c == 0x6E then Some(LF)
    else if c == 0x72 then Some(CR)
    else if c == 0x74 then Some(TAB)
    else None
  }

  predicate IsSurrogate(n: int) {
    0xD800 <= n <= 0xDFFF
  }

  function Combine(lead: nat, trail: nat): (cp: nat)
    requires 0xD800 <= lead <= 0xDBFF && 0xDC00 <= trail <= 0xDFFF
    ensures 0x10000 <= cp <= 0x10FFFF
  {
    (lead - 0xD800) * 1024 + (trail - 0xDC00) + 0x10000
  }

  predicate PieceValid(p: Piece) {
    match p
    case Plain(b) => b >= 0x20 && b != QUOTE && b != BACKSLASH
    case Escaped(c) => Unescape(c).Some?
    case Unit(h) => Hex4(h) && !IsSurrogate(HexValue(h))
    case Pair(l, t) => Hex4(l) && Hex4(t) && 0xD800 <= HexValue(l) <= 0xDBFF && 0xDC00 <= HexValue(t) <= 0xDFFF
  }

  const UNICODE_PREFIX: bytes := [BACKSLASH, 0x75]

  function PieceText(p: Piece): (t: bytes)
    ensures PieceValid(p) ==> |t| > 0
  {
    match p
    case Plain(b) => [b]
    case Escaped(c) => [BACKSLASH, c]
    case Unit(h) => UNICODE_PREFIX + h
    case Pair(l, t) => (UNICODE_PREFIX + l) + (UNICODE_PREFIX + t)
  }

  function PieceValue(p: Piece): bytes
    requires PieceValid(p)
  {
    match p
    case Plain(b) => [b]
    case Escaped(c) => [Unescape(c).value]
    case Unit(h) => Utf8.Encode(HexValue(h))
    case Pair(l, t) => Utf8.Encode(Combine(HexValue(l), HexValue(t)))
  }

  predicate PiecesValid(ps: seq<Piece>) {
    forall i | 0 <= i < |ps| :: PieceValid(ps[i])
  }

  function PiecesText(ps: seq<Piece>): bytes {
    if |ps| == 0 then [] else PieceText(ps[0]) + PiecesText(ps[1..])
  }

  function PiecesValue(ps: seq<Piece>): bytes
    requires PiecesValid(ps)
  {
    if |ps| == 0 then [] else PieceValue(ps[0]) + PiecesValue(ps[1..])
  }

  // ----- The code, as functions of the remaining text

  /** `skip_quotes` behind the opening quote: the text behind the closing one. */
  function SkipBody(t: bytes): (r: Option<bytes>)
    ensures r.Some? ==> |r.value| < |t|
    decreases |t|
  {
    if Peek(t) == NUL then None
    else if t[0] == QUOTE then Some(t[1..])
    else if t[0] == BACKSLASH then
      if Peek(t[1..]) == NUL then None else SkipBody(t[2..])
    else SkipBody(t[1..])
  }

  datatype Step = Step(out: bytes, used: nat) | Bad

  /** `parse_utf16_hex` at the front of t. */
  function ParseHex(t: bytes): (r: Option<nat>)
    ensures r.Some? <==> |t| >= 4 && Hex4(t[..4])
    ensures r.Some? ==> r.value == HexValue(t[..4])
  {
    if |t| < 4 || HexDigit(t[0]) == -1 || HexDigit(t[1]) == -1 || HexDigit(t[2]) == -1 || HexDigit(t[3]) == -1 then
      assert |t| >= 4 ==> t[0] == t[..4][0] && t[1] == t[..4][1] && t[2] == t[..4][2] && t[3] == t[..4][3];
      None
    else
      Some(HexValue(t[..4]))
  }

  /** `parse_utf16`, at the backslash of a `\u` escape. */
  function DecodeUnicode(t: bytes): Step
    requires |t| >= 2 && t[..2] == UNICODE_PREFIX
  {
    match ParseHex(t[2..])
    case None => Bad
    case Some(cp) =>
      if !IsSurrogate(cp) then Step(Utf8.Encode(cp), 6)
      else if cp <= 0xDBFF then
        if |t| >= 8 && t[6] == BACKSLASH && t[7] == 0x75 then
          match ParseHex(t[8..])
          case None => Bad
          case Some(trail) =>
            if trail < 0xDC00 || trail > 0xDFFF then Bad
            else Step(Utf8.Encode(Combine(cp, trail)), 12)
        else Bad
      else Bad
  }

  /** One iteration of the loop of `process_string`. */
  function DecodeOne(t: bytes): (s: Step)
    requires |t| > 0
    ensures s.Step? ==> 0 < |s.out| <= s.used <= |t|
  {
    if t[0] == BACKSLASH then
      if |t| == 1 then Bad
      else if t[1] == 0x75 then
        DecodeUnicode(t)
      else
        match Unescape(t[1])
        case Some(b) => Step([b], 2)
        case None => Bad
    else if t[0] < 0x20 then Bad
    else Step([t[0]], 1)
  }

  datatype Decoded = Decoded(out: bytes, used: nat) | Invalid

  /** `process_string`: t is the text behind the opening quote, n is `input_len`. */
  function Decode(t: bytes, n: int): (d: Decoded)
    decreases |t|
  {
    if n <= 0 || Peek(t) == NUL then Decoded([], 0)
    else
      match DecodeOne(t)
      case Bad => Invalid
      case Step(out, used) =>
        match Decode(t[used..], n - used)
        case Invalid => Invalid
        case Decoded(rest, more) => Decoded(out + rest, used + more)
  }

  datatype Quoted = Quoted(text: bytes, next: bytes) | NoString

  /** `get_quoted_string`. */
  function GetQuoted(t: bytes): (q: Quoted)
    ensures q.Quoted? ==> Peek(t) == QUOTE && |q.next| < |t|
  {
    if Peek(t) != QUOTE then NoString
    else
      match SkipBody(t[1..])
      case None => NoString
      case Some(next) =>
        match Decode(t[1..], |t| - |next| - 2)
        case Invalid => NoString
        case Decoded(out, _) => Quoted(out, next)
  }

  // ----- Every piece is decoded to its value

  lemma DecodeOneComplete(p: Piece, post: bytes)
    requires PieceValid(p)
    ensures DecodeOne(PieceText(p) + post) == Step(PieceValue(p), |PieceText(p)|)
  {
    var t := PieceText(p) + post;
    match p
    case Plain(b) =>
    case Escaped(c) =>
    case Unit(h) =>
      assert t[..2] == UNICODE_PREFIX && t[2..][..4] == h;
    case Pair(l, r) =>
      assert t[..2] == UNICODE_PREFIX && t[2..][..4] == l;
      assert t[6] == BACKSLASH && t[7] == 0x75 && t[8..][..4] == r;
  }

  lemma DecodeOneSound(t: bytes) returns (p: Piece)
    requires |t| > 0 && t[0] != QUOTE
    requires DecodeOne(t).Step?
    ensures PieceValid(p) && DecodeOne(t) == Step(PieceValue(p), |PieceText(p)|)
    ensures t[..|PieceText(p)|] == PieceText(p)
  {
    if t[0] == BACKSLASH {
      if t[1] == 0x75 {
        var h := t[2..][..4];
        if IsSurrogate(HexValue(h)) {
          p := Pair(h, t[8..][..4]);
        } else {
          p := Unit(h);
        }
      } else {
        p := Escaped(t[1]);
      }
    } else {
      p := Plain(t[0]);
    }
  }

  // ----- skip_quotes steps over whole pieces

  lemma SkipHex(h: bytes, post: bytes)
    requires Hex4(h)
    ensures SkipBody(h + post) == SkipBody(post)
  {
    var t := h + post;
    assert t[1..][1..][1..][1..] == post;
    assert SkipBody(t) == SkipBody(t[1..]);
    assert SkipBody(t[1..]) == SkipBody(t[1..][1..]);
    assert SkipBody(t[1..][1..]) == SkipBody(t[1..][1..][1..]);
  }

  lemma SkipUnit(h: bytes, post: bytes)
    requires Hex4(h)
    ensures SkipBody(UNICODE_PREFIX + h + post) == SkipBody(post)
  {
    var t := UNICODE_PREFIX + h + post;
    assert t[0] == BACKSLASH && Peek(t[1..]) == 0x75 && t[2..] == h + post;
    SkipHex(h, post);
  }

  lemma SkipPiece(p: Piece, post: bytes)
    requires PieceValid(p)
    ensures SkipBody(PieceText(p) + post) == SkipBody(post)
  {
    hide HexValue;
    match p
    case Plain(b) => Splits([b], post);
    case Escaped(c) => Splits([BACKSLASH, c], post);
    case Unit(h) => SkipUnit(h, post);
    case Pair(l, r) =>
      Assoc(UNICODE_PREFIX + l, UNICODE_PREFIX + r, post);
      SkipUnit(l, UNICODE_PREFIX + r + post);
      SkipUnit(r, post);
  }

  // ----- Strings as a whole

  /** Every spelling of the grammar is found and decoded, whatever follows it. */
  lemma {:induction false} BodyComplete(ps: seq<Piece>, next: bytes)
    requires PiecesValid(ps)
    ensures SkipBody(PiecesText(ps) + ([QUOTE] + next)) == Some(next)
    ensures Decode(PiecesText(ps) + ([QUOTE] + next), |PiecesText(ps)|) == Decoded(PiecesValue(ps), |PiecesText(ps)|)
  {
    var tail := [QUOTE] + next;
    if |ps| == 0 {
      assert PiecesText(ps) + tail == tail;
      assert tail[1..] == next;
    } else {
      var text, rest := PieceText(ps[0]), PiecesText(ps[1..]);
      var u := rest + tail;
      Assoc(text, rest, tail);
      BodyComplete(ps[1..], next);
      SkipPiece(ps[0], u);
      DecodeOneComplete(ps[0], u);
      assert (text + u)[|text|..] == u;
      PieceStart(ps[0]);
    }
  }

  lemma PieceStart(p: Piece)
    requires PieceValid(p)
    ensures |PieceText(p)| > 0 && PieceText(p)[0] != NUL && PieceText(p)[0] != QUOTE
  {
  }

  /** skip_quotes and process_string agree: a successful decode consumes exactly
      the bytes between the quotes, and those bytes are a string of the grammar. */
  lemma {:induction false} BodySound(t: bytes, next: bytes, n: nat, d: Decoded) returns (ps: seq<Piece>)
    requires SkipBody(t) == Some(next) && n == |t| - |next| - 1
    requires d == Decode(t, n) && d.Decoded?
    ensures PiecesValid(ps) && d == Decoded(PiecesValue(ps), n)
    ensures t == PiecesText(ps) + ([QUOTE] + next)
    decreases |t|
  {
    hide DecodeOne;
    hide PieceText;
    hide PieceValue;
    hide PieceValid;
    if t[0] == QUOTE {
      ps := [];
      assert t == [QUOTE] + t[1..];
    } else {
      SkipBodyLonger(t);
      var p := DecodeOneSound(t);
      var k := |PieceText(p)|;
      Rejoin(t, k);
      SkipPiece(p, t[k..]);
      var qs := BodySound(t[k..], next, n - k, Decode(t[k..], n - k));
      ps := [p] + qs;
      PiecesCons(p, qs);
      Assoc(PieceText(p), PiecesText(qs), [QUOTE] + next);
    }
  }

  lemma PiecesCons(p: Piece, ps: seq<Piece>)
    requires PieceValid(p) && PiecesValid(ps)
    ensures PiecesValid([p] + ps)
    ensures PiecesText([p] + ps) == PieceText(p) + PiecesText(ps)
    ensures PiecesValue([p] + ps) == PieceValue(p) + PiecesValue(ps)
  {
    assert ([p] + ps)[1..] == ps;
  }

  lemma SkipBodyLonger(t: bytes)
    requires SkipBody(t).Some? && t[0] != QUOTE
    ensures |SkipBody(t).value| < |t| - 1
  {
  }

  /** The decoded text never outgrows the bytes it was decoded from. */
  lemma {:induction false} DecodedFits(t: bytes, n: int)
    requires Decode(t, n).Decoded?
    ensures |Decode(t, n).out| <= Decode(t, n).used
    decreases |t|
  {
    if n > 0 && Peek(t) != NUL {
      var step := DecodeOne(t);
      DecodedFits(t[step.used..], n - step.used);
    }
  }

  /** A quoted string followed by the text next. */
  function QuotedText(ps: seq<Piece>, next: bytes): bytes {
    [QUOTE] + (PiecesText(ps) + ([QUOTE] + next))
  }

  /** get_quoted_string reads every sequence of pieces, and nothing else. */
  lemma QuotedComplete(ps: seq<Piece>, next: bytes)
    requires PiecesValid(ps)
    ensures GetQuoted(QuotedText(ps, next)) == Quoted(PiecesValue(ps), next)
  {
    assert QuotedText(ps, next)[1..] == PiecesText(ps) + ([QUOTE] + next);
    BodyComplete(ps, next);
  }

  lemma QuotedSound(t: bytes) returns (ps: seq<Piece>)
    requires GetQuoted(t).Quoted?
    ensures PiecesValid(ps) && PiecesValue(ps) == GetQuoted(t).text
    ensures t == QuotedText(ps, GetQuoted(t).next)
  {
    var next, u := GetQuoted(t).next, t[1..];
    assert t == [QUOTE] + u;
    ps := BodySound(u, next, |t| - |next| - 2, Decode(u, |t| - |next| - 2));
  }

  // ----- Decoding preserves UTF-8

  /** If the text between the quotes is UTF-8, so is what it decodes to. */
  lemma {:induction false} ValueIsUtf8(ps: seq<Piece>)
    requires PiecesValid(ps) && Utf8.WellFormed(PiecesText(ps))
    ensures Utf8.WellFormed(PiecesValue(ps))
    decreases |ps|
  {
    if |ps| > 0 {
      var s := PiecesText(ps);
      if ps[0].Plain? {
        var k :| 1 <= k <= 4 && k <= |s| && Utf8.Utf8Char(s[..k]) && Utf8.WellFormed(s[k..]);
        HighTail(s[..k], s);
        var qs := PlainRun(ps, k);
        ValueIsUtf8(qs);
        Utf8.WellFormedCons(s[..k], PiecesValue(qs));
      } else {
        EscapeIsAscii(ps[0]);
        DropAscii(PieceText(ps[0]), PiecesText(ps[1..]));
        ValueIsUtf8(ps[1..]);
        Utf8.WellFormedCons(PieceValue(ps[0]), PiecesValue(ps[1..]));
      }
    }
  }

  /** An escape is spelled in ASCII and stands for one UTF8-char, namely the
      encoding of the code point its digits denote. */
  lemma EscapeIsAscii(p: Piece)
    requires PieceValid(p) && !p.Plain?
    ensures forall i | 0 <= i < |PieceText(p)| :: PieceText(p)[i] < 0x80
    ensures Utf8.Utf8Char(PieceValue(p))
    ensures p.Unit? ==> Utf8.CodePoint(PieceValue(p)) == HexValue(p.h)
    ensures p.Pair? ==> Utf8.CodePoint(PieceValue(p)) == Combine(HexValue(p.lead), HexValue(p.trail))
  {
    match p
    case Escaped(c) =>
    case Unit(h) => Utf8.EncodeDecode(HexValue(h));
    case Pair(l, r) => Utf8.EncodeDecode(Combine(HexValue(l), HexValue(r)));
  }

  lemma {:induction false} DropAscii(a: bytes, s: bytes)
    requires forall i | 0 <= i < |a| :: a[i] < 0x80
    requires Utf8.WellFormed(a + s)
    ensures Utf8.WellFormed(s)
  {
    if |a| == 0 {
      assert a + s == s;
    } else {
      Utf8.WellFormedTail(a + s);
      assert (a + s)[1..] == a[1..] + s;
      DropAscii(a[1..], s);
    }
  }

  /** A byte outside ASCII is spelled by a plain piece, so a UTF8-char that starts
      in a plain piece is spelled by plain pieces alone. */
  lemma {:induction false} PlainRun(ps: seq<Piece>, k: nat) returns (qs: seq<Piece>)
    requires PiecesValid(ps)
    requires k <= |PiecesText(ps)|
    requires k > 0 ==> |ps| > 0 && ps[0].Plain?
    requires forall i | 1 <= i < k :: PiecesText(ps)[i] >= 0x80
    ensures PiecesValid(qs) && |qs| + k == |ps|
    ensures PiecesText(qs) == PiecesText(ps)[k..]
    ensures PiecesValue(ps) == PiecesText(ps)[..k] + PiecesValue(qs)
    decreases k
  {
    var s := PiecesText(ps);
    if k == 0 {
      qs := ps;
    } else {
      var b, rest := ps[0].b, PiecesText(ps[1..]);
      assert s == [b] + rest;
      assert forall i | 0 <= i < k - 1 :: rest[i] == s[i + 1];
      if k > 1 {
        HighIsPlain(ps[1..]);
      }
      qs := PlainRun(ps[1..], k - 1);
      Assoc([b], rest[..k - 1], PiecesValue(qs));
      assert s[..k] == [b] + rest[..k - 1];
    }
  }

  lemma HighTail(c: bytes, s: bytes)
    requires |c| <= |s| && c == s[..|c|] && Utf8.Utf8Char(c)
    ensures forall i | 1 <= i < |c| :: s[i] >= 0x80
  {
    forall i | 1 <= i < |c| ensures s[i] >= 0x80 {
      assert c[i] == s[i];
    }
  }

  lemma HighIsPlain(ps: seq<Piece>)
    requires PiecesValid(ps) && |PiecesText(ps)| > 0 && PiecesText(ps)[0] >= 0x80
    ensures |ps| > 0 && ps[0].Plain?
  {
    PieceStart(ps[0]);
    assert PiecesText(ps)[0] == PieceText(ps[0])[0];
  }

  /** The string parson stores for a quoted text that is UTF-8 is UTF-8. */
  lemma QuotedKeepsUtf8(t: bytes)
    requires GetQuoted(t).Quoted?
    requires Utf8.WellFormed(t[1..|t| - |GetQuoted(t).next| - 1])
    ensures Utf8.WellFormed(GetQuoted(t).text)
  {
    var ps := QuotedSound(t);
    var next := GetQuoted(t).next;
    Splits([QUOTE], PiecesText(ps) + ([QUOTE] + next));
    assert t[1..|t| - |next| - 1] == PiecesText(ps);
    ValueIsUtf8(ps);
  }
}
