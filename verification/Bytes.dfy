/**
  Bytes, byte strings and the few helpers every other module shares.

  A C string is modelled by the bytes before its terminator; a `const char **`
  cursor is modelled by the bytes that remain to be read, so that advancing the
  cursor drops a prefix and reading at the end of the text yields the terminator.
 */
module Bytes {

  type byte = b: int | 0 <= b < 256

  type bytes = seq<byte>

  datatype Option<+T> = None | Some(value: T)

  const NUL: byte := 0x00
  const TAB: byte := 0x09
  const LF: byte := 0x0A
  const CR: byte := 0x0D
  const SPACE: byte := 0x20
  const QUOTE: byte := 0x22
  const COMMA: byte := 0x2C
  const MINUS: byte := 0x2D
  const DOT: byte := 0x2E
  const SLASH: byte := 0x2F
  const COLON: byte := 0x3A
  const LBRACKET: byte := 0x5B
  const BACKSLASH: byte := 0x5C
  const RBRACKET: byte := 0x5D
  const LBRACE: byte := 0x7B
  const RBRACE: byte := 0x7D

  /** The characters behind the names. */
  lemma CharacterCodes()
    ensures NUL == '\0' as int && TAB == '\t' as int && LF == '\n' as int && CR == '\r' as int && SPACE == ' ' as int
    ensures QUOTE == '"' as int && COMMA == ',' as int && MINUS == '-' as int && DOT == '.' as int && SLASH == '/' as int
    ensures COLON == ':' as int && BACKSLASH == '\\' as int
    ensures LBRACKET == '[' as int && RBRACKET == ']' as int && LBRACE == '{' as int && RBRACE == '}' as int
  {
  }

  /** The bytes of an ASCII literal. */
  function Ascii(s: string): (r: bytes)
    ensures |r| == |s|
    ensures forall i | 0 <= i < |s| && s[i] as int < 128 :: r[i] == s[i] as int
  {
    seq(|s|, i requires 0 <= i < |s| => if s[i] as int < 128 then s[i] as int else 0x3F)
  }

  /** Reading through the cursor: the terminator stands behind the last byte. */
  function Peek(t: bytes): (b: byte)
    ensures b != NUL ==> |t| > 0 && t[0] == b
  {
    if |t| == 0 then NUL else t[0]
  }

  /** `tolower` in the C locale. */
  function LowerCase(b: byte): byte {
    if 0x41 <= b <= 0x5A then b + 0x20 else b
  }

  function Lower(s: bytes): (t: bytes)
    ensures |t| == |s| && forall i | 0 <= i < |s| :: t[i] == LowerCase(s[i])
  {
    seq(|s|, i requires 0 <= i < |s| => LowerCase(s[i]))
  }

  /** `isspace` in the C locale. */
  predicate IsSpace(b: byte) {
    b == SPACE || 0x09 <= b <= 0x0D
  }

  predicate AllSpace(s: bytes) {
    forall i | 0 <= i < |s| :: IsSpace(s[i])
  }

  /** `SKIP_WHITESPACES`, as the text that remains. */
  function SkipSpace(t: bytes): (r: bytes)
    ensures |r| <= |t|
    ensures !IsSpace(Peek(r))
  {
    if |t| == 0 || !IsSpace(t[0]) then t else SkipSpace(t[1..])
  }

  lemma {:induction false} SkipSpaceSplit(t: bytes) returns (ws: bytes)
    ensures AllSpace(ws) && t == ws + SkipSpace(t)
  {
    if |t| == 0 || !IsSpace(t[0]) {
      ws := [];
    } else {
      ws := SkipSpaceSplit(t[1..]);
      Rejoin(t, 1);
      ws := t[..1] + ws;
    }
  }

  /** `SKIP_WHITESPACES` as the loop of the source. */
  method SkipWhitespaces(t: bytes) returns (r: bytes)
    ensures r == SkipSpace(t)
  {
    r := t;
    while IsSpace(Peek(r))
      invariant SkipSpace(r) == SkipSpace(t)
      decreases |r|
    {
      r := r[1..];
    }
  }

  lemma {:induction false} SkipSpacePrefix(ws: bytes, t: bytes)
    requires AllSpace(ws)
    requires !IsSpace(Peek(t))
    ensures SkipSpace(ws + t) == t
  {
    if |ws| == 0 {
      assert ws + t == t;
    } else {
      assert (ws + t)[1..] == ws[1..] + t;
      SkipSpacePrefix(ws[1..], t);
    }
  }

  /** `strchr` and `std::string::find`: the first position of a byte. */
  function FindByte(t: bytes, b: byte): (r: Option<nat>)
    ensures r.Some? ==> r.value < |t| && t[r.value] == b && b !in t[..r.value]
    ensures r.None? ==> b !in t
  {
    if |t| == 0 then None
    else if t[0] == b then Some(0)
    else
      match FindByte(t[1..], b)
      case None => HeadTail(t); None
      case Some(i) => assert t[..i + 1] == [t[0]] + t[1..][..i]; Some(i + 1)
  }

  lemma {:induction false} FindByteAt(a: bytes, b: byte, c: bytes)
    requires b !in a
    ensures FindByte(a + [b] + c, b) == Some(|a|)
  {
    var t := a + [b] + c;
    if |a| == 0 {
      assert t[0] == b;
    } else {
      assert t[0] == a[0] && a[0] in a;
      assert t[1..] == a[1..] + [b] + c;
      FindByteAt(a[1..], b, c);
    }
  }

  /** The parts with a separator between each two. */
  function Join(parts: seq<bytes>, separator: byte): bytes {
    if |parts| == 0 then []
    else if |parts| == 1 then parts[0]
    else parts[0] + [separator] + Join(parts[1..], separator)
  }

  /** No part holds the byte. */
  predicate Without(parts: seq<bytes>, b: byte) {
    forall i | 0 <= i < |parts| :: b !in parts[i]
  }

  /** Lists of parts that do not hold the separator are told apart by their joins. */
  lemma {:induction false} JoinInjective(a: seq<bytes>, b: seq<bytes>, separator: byte)
    requires |a| > 0 && |b| > 0 && Without(a, separator) && Without(b, separator)
    requires Join(a, separator) == Join(b, separator)
    ensures a == b
  {
    JoinHead(a, separator);
    JoinHead(b, separator);
    if |a| > 1 {
      Splits(a[0] + [separator], Join(a[1..], separator));
      Splits(b[0] + [separator], Join(b[1..], separator));
      JoinInjective(a[1..], b[1..], separator);
    }
    assert a == [a[0]] + a[1..] && b == [b[0]] + b[1..];
  }

  /** The first separator of a join stands behind the first part. */
  lemma JoinHead(parts: seq<bytes>, separator: byte)
    requires |parts| > 0 && Without(parts, separator)
    ensures |parts| == 1 ==> separator !in Join(parts, separator) && Join(parts, separator) == parts[0]
    ensures |parts| > 1 ==> FindByte(Join(parts, separator), separator) == Some(|parts[0]|)
    ensures |parts| > 1 ==> Join(parts, separator)[..|parts[0]|] == parts[0]
  {
    if |parts| > 1 {
      FindByteAt(parts[0], separator, Join(parts[1..], separator));
    }
  }

  lemma Assoc(a: bytes, b: bytes, c: bytes)
    ensures a + b + c == a + (b + c)
  {
  }

  lemma Rejoin(t: bytes, k: nat)
    requires k <= |t|
    ensures t == t[..k] + t[k..]
  {
  }

  lemma HeadTail(t: bytes)
    requires |t| > 0
    ensures t == [t[0]] + t[1..]
  {
  }

  lemma DropDrop(t: bytes, i: nat, k: nat)
    requires i + k <= |t|
    ensures t[i..][k..] == t[i + k..]
  {
  }

  lemma TakeDrop(t: bytes, k: nat, j: nat)
    requires k <= j <= |t|
    ensures t[..j][..k] == t[..k] && t[..j][k..] == t[k..][..j - k]
  {
  }

  lemma Splits(a: bytes, b: bytes)
    ensures (a + b)[..|a|] == a && (a + b)[|a|..] == b
  {
  }
}
