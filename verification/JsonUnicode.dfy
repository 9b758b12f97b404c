/**
  Which characters the escapes of a string stand for. The text of an escape is
  written here from its code point, by an own hexadecimal writer and the formulas of
  UTF-16, in any mixture of upper and lower case digits; reading it back must give
  the UTF-8 encoding of that code point.
 */
module JsonUnicode {
  import opened Bytes
  import opened JsonStrings
  import Utf8

  function Digit(n: nat, upper: bool): byte
    requires n < 16
  {
    if n < 10 then '0' as int + n else if upper then 'A' as int + (n - 10) else 'a' as int + (n - 10)
  }

  /** Four hexadecimal digits, most significant first. */
  function Digits(n: nat, upper: seq<bool>): bytes
    requires n < 0x10000 && |upper| == 4
  {
    [Digit(n / 0x1000, upper[0]), Digit(n / 0x100 % 0x10, upper[1]), Digit(n / 0x10 % 0x10, upper[2]), Digit(n % 0x10, upper[3])]
  }

  /** A character to be escaped, with the case of each digit. */
  datatype Character = Character(cp: nat, upper: seq<bool>)

  predicate ValidCharacter(c: Character) {
    Utf8.Scalar(c.cp) && |c.upper| == 8
  }

  function BackslashU(): bytes {
    ['\\' as int, 'u' as int]
  }

  /** One UTF-16 unit, or the lead and trail unit of a character beyond the BMP. */
  function EscapeOf(c: Character): bytes
    requires ValidCharacter(c)
  {
    if c.cp < 0x10000 then BackslashU() + Digits(c.cp, c.upper[..4])
    else (BackslashU() + Digits(0xD800 + (c.cp - 0x10000) / 0x400, c.upper[..4]))
         + (BackslashU() + Digits(0xDC00 + (c.cp - 0x10000) % 0x400, c.upper[4..]))
  }

  predicate ValidCharacters(cs: seq<Character>) {
    forall i | 0 <= i < |cs| :: ValidCharacter(cs[i])
  }

  function EscapesOf(cs: seq<Character>): bytes
    requires ValidCharacters(cs)
  {
    if |cs| == 0 then [] else EscapeOf(cs[0]) + EscapesOf(cs[1..])
  }

  function EncodeAll(cs: seq<Character>): bytes
    requires ValidCharacters(cs)
  {
    if |cs| == 0 then [] else Utf8.Encode(cs[0].cp) + EncodeAll(cs[1..])
  }

  // ----- Digits are read as they are written

  lemma DigitRead(n: nat, upper: bool)
    requires n < 16
    ensures IsHex(Digit(n, upper)) && HexDigit(Digit(n, upper)) == n
  {
  }

  lemma DigitsRead(n: nat, upper: seq<bool>)
    requires n < 0x10000 && |upper| == 4
    ensures Hex4(Digits(n, upper)) && HexValue(Digits(n, upper)) == n
  {
    hide Digit;
    hide HexDigit;
    hide IsHex;
    hide HexValue;
    var a, b, c, d := n / 0x1000, n / 0x100 % 0x10, n / 0x10 % 0x10, n % 0x10;
    DigitRead(a, upper[0]);
    DigitRead(b, upper[1]);
    DigitRead(c, upper[2]);
    DigitRead(d, upper[3]);
    FourDigits(Digit(a, upper[0]), Digit(b, upper[1]), Digit(c, upper[2]), Digit(d, upper[3]));
    Positional(n);
  }

  lemma Positional(n: nat)
    requires n < 0x10000
    ensures n == 0x1000 * (n / 0x1000) + 0x100 * (n / 0x100 % 0x10) + 0x10 * (n / 0x10 % 0x10) + n % 0x10
  {
    var q, r := n / 0x10, n / 0x100;
    assert r == q / 0x10 && n / 0x1000 == r / 0x10;
  }

  lemma FourDigits(a: byte, b: byte, c: byte, d: byte)
    requires IsHex(a) && IsHex(b) && IsHex(c) && IsHex(d)
    ensures HexValue([a, b, c, d]) == 0x1000 * HexDigit(a) + 0x100 * HexDigit(b) + 0x10 * HexDigit(c) + HexDigit(d)
  {
    hide HexDigit;
    hide IsHex;
    var h := [a, b, c, d];
    assert h[..3] == [a, b, c] && [a, b, c][..2] == [a, b] && [a, b][..1] == [a] && [a][..0] == [];
    assert HexValue([a]) == HexDigit(a);
    assert HexValue([a, b]) == 0x10 * HexDigit(a) + HexDigit(b);
    assert HexValue([a, b, c]) == 0x100 * HexDigit(a) + 0x10 * HexDigit(b) + HexDigit(c);
  }

  // ----- Escapes are read as the characters they are written for

  function PieceFor(c: Character): Piece
    requires ValidCharacter(c)
  {
    if c.cp < 0x10000 then Unit(Digits(c.cp, c.upper[..4]))
    else Pair(Digits(0xD800 + (c.cp - 0x10000) / 0x400, c.upper[..4]), Digits(0xDC00 + (c.cp - 0x10000) % 0x400, c.upper[4..]))
  }

  lemma EscapeRead(c: Character)
    requires ValidCharacter(c)
    ensures var p := PieceFor(c);
      PieceValid(p) && PieceText(p) == EscapeOf(c) && PieceValue(p) == Utf8.Encode(c.cp)
  {
    hide Digits;
    hide Hex4;
    hide HexValue;
    hide Utf8.Encode;
    if c.cp < 0x10000 {
      DigitsRead(c.cp, c.upper[..4]);
    } else {
      DigitsRead(0xD800 + (c.cp - 0x10000) / 0x400, c.upper[..4]);
      DigitsRead(0xDC00 + (c.cp - 0x10000) % 0x400, c.upper[4..]);
    }
  }

  lemma {:induction false} EscapesRead(cs: seq<Character>) returns (ps: seq<Piece>)
    requires ValidCharacters(cs)
    ensures PiecesValid(ps) && PiecesText(ps) == EscapesOf(cs) && PiecesValue(ps) == EncodeAll(cs)
  {
    hide EscapeOf;
    hide PieceText;
    hide PieceValue;
    hide PieceValid;
    if |cs| == 0 {
      ps := [];
    } else {
      EscapeRead(cs[0]);
      var rest := EscapesRead(cs[1..]);
      PiecesCons(PieceFor(cs[0]), rest);
      ps := [PieceFor(cs[0])] + rest;
    }
  }

  /** For every sequence of Unicode characters, written as escapes with one UTF-16
      unit each, or two beyond the BMP, in any case of digits: `get_quoted_string`
      gives their UTF-8 encodings, in order. */
  lemma EscapedText(cs: seq<Character>, next: bytes)
    requires ValidCharacters(cs)
    ensures GetQuoted([QUOTE] + (EscapesOf(cs) + ([QUOTE] + next))) == Quoted(EncodeAll(cs), next)
  {
    hide GetQuoted;
    var ps := EscapesRead(cs);
    QuotedComplete(ps, next);
  }

  // ----- Literal readings

  /** The characters of section 7 of RFC 3629 and a face. */
  lemma EncodeLiterals()
    ensures Utf8.Encode(0x24) == [0x24] && Utf8.Encode(0xE9) == [0xC3, 0xA9]
    ensures Utf8.Encode(0x2262) == [0xE2, 0x89, 0xA2] && Utf8.Encode(0x65E5) == [0xE6, 0x97, 0xA5]
    ensures Utf8.Encode(0x233B4) == [0xF0, 0xA3, 0x8E, 0xB4] && Utf8.Encode(0x1F600) == [0xF0, 0x9F, 0x98, 0x80]
  {
  }

  /** The two-character escapes. */
  const SHORT: map<char, byte> := map['"' := 0x22, '\\' := 0x5C, '/' := 0x2F, 'b' := 0x08, 'f' := 0x0C, 'n' := 0x0A, 'r' := 0x0D, 't' := 0x09]

  /** A backslash and a letter are read as the byte of the table, and for any other
      letter but u there is no string. */
  lemma ShortEscapes(c: byte, next: bytes)
    requires c != 'u' as int
    ensures GetQuoted([QUOTE, BACKSLASH, c, QUOTE] + next) ==
      if c as char in SHORT then Quoted([SHORT[c as char]], next) else NoString
  {
    hide GetQuoted;
    var t := [QUOTE, BACKSLASH, c, QUOTE] + next;
    if Unescape(c).Some? {
      var ps := [Escaped(c)];
      PiecesCons(Escaped(c), []);
      assert [Escaped(c)] + [] == ps;
      assert [BACKSLASH, c] + [] == [BACKSLASH, c] && [Unescape(c).value] + [] == [Unescape(c).value];
      QuotedComplete(ps, next);
      assert t == QuotedText(ps, next);
    } else if GetQuoted(t).Quoted? {
      var ps := QuotedSound(t);
      assert t[1..] == PiecesText(ps) + ([QUOTE] + GetQuoted(t).next);
      assert t[1] == BACKSLASH && t[2] == c;
      FirstPiece(ps, GetQuoted(t).next);
    }
  }

  /** A string that starts with a backslash starts with an escape. */
  lemma FirstPiece(ps: seq<Piece>, next: bytes)
    requires PiecesValid(ps)
    ensures var u := PiecesText(ps) + ([QUOTE] + next);
      u[0] == BACKSLASH ==> |u| > 1 && (u[1] == 'u' as int || Unescape(u[1]).Some?)
  {
    if |ps| > 0 {
      var t := PieceText(ps[0]);
      assert PiecesText(ps) == t + PiecesText(ps[1..]);
    }
  }
}
