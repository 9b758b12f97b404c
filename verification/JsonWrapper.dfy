/**
  `JsonWrapper::FromString`, the gate in front of the parser: it refuses raw NUL
  bytes and, by a scan of its own that knows nothing of JSON but quotes and
  backslashes, the escape \u0000. The scan is shown to agree with the parser about
  what is inside a string.
 */
module JsonWrapper {
  import opened Bytes
  import opened JsonStrings
  import opened JsonValues
  import opened JsonGrammar
  import opened JsonParser
  import opened JsonParserSound
  import opened JsonParserExact
  import opened JsonText
  import opened JsonRoundTrip
  import Decimal
  import Utf8

  const FOUR_ZEROS: bytes := [0x30, 0x30, 0x30, 0x30]

  /** The loop of `ContainsNul` over the text that remains. */
  predicate Scan(t: bytes, inString: bool)
    decreases |t|
  {
    if |t| == 0 then false
    else if !inString then Scan(t[1..], t[0] == QUOTE)
    else if t[0] == QUOTE then Scan(t[1..], false)
    else if t[0] != BACKSLASH then Scan(t[1..], true)
    else if |t| == 1 then false
    else if t[1] == 0x75 && |t| >= 6 && t[2..6] == FOUR_ZEROS then true
    else Scan(t[2..], true)
  }

  /** `ContainsNul`. */
  method ContainsNul(input: bytes) returns (found: bool)
    ensures found <==> NUL in input || Scan(input, false)
  {
    if FindByte(input, NUL).Some? {
      return true;
    }
    var inString, index := false, 0;
    assert input[0..] == input;
    while index < |input|
      invariant 0 <= index
      invariant index <= |input| ==> Scan(input[index..], inString) == Scan(input, false)
      invariant index > |input| ==> !Scan(input, false)
    {
      DropDrop(input, index, 1);
      var value := input[index];
      if !inString {
        inString := value == QUOTE;
      } else if value == QUOTE {
        inString := false;
      } else if value == BACKSLASH {
        index := index + 1;
        if index < |input| {
          DropDrop(input, index - 1, 2);
          if input[index] == 0x75 && index + 4 < |input| && input[index + 1..index + 5] == FOUR_ZEROS {
            assert input[index - 1..][2..6] == FOUR_ZEROS;
            return true;
          }
          assert |input| - (index - 1) >= 6 ==> input[index - 1..][2..6] == input[index + 1..index + 5];
        }
      }
      index := index + 1;
    }
    return false;
  }

  /** `JsonWrapper::FromString`. */
  function FromString(t: bytes): Parsed {
    if NUL in t || Scan(t, false) then Err(Malformed) else ParseText(t)
  }

  // ----- No string of the tree holds a NUL

  predicate NulFree(v: Value) {
    match v
    case String(s) => NUL !in s
    case Array(xs) => forall i | 0 <= i < |xs| :: NulFree(xs[i])
    case Object(ms) => forall i | 0 <= i < |ms| :: NUL !in ms[i].key && NulFree(ms[i].value)
    case _ => true
  }

  predicate NulPiece(p: Piece) {
    p.Unit? && p.h == FOUR_ZEROS
  }

  predicate NulPieces(ps: seq<Piece>) {
    |ps| > 0 && (NulPiece(ps[0]) || NulPieces(ps[1..]))
  }

  lemma {:induction false} HexZero(h: bytes)
    requires forall i | 0 <= i < |h| :: IsHex(h[i])
    ensures HexValue(h) == 0 <==> forall i | 0 <= i < |h| :: h[i] == 0x30
  {
    if |h| > 0 {
      HexZero(h[..|h| - 1]);
      assert HexDigit(h[|h| - 1]) == 0 <==> h[|h| - 1] == 0x30;
    }
  }

  lemma EncodeNul(cp: nat)
    requires Utf8.Scalar(cp)
    ensures NUL in Utf8.Encode(cp) <==> cp == 0
  {
  }

  /** A piece stands for a NUL exactly when it is spelled \u0000. */
  lemma PieceNul(p: Piece)
    requires PieceValid(p)
    ensures NUL in PieceValue(p) <==> NulPiece(p)
  {
    match p
    case Plain(_) =>
    case Escaped(_) =>
    case Unit(h) =>
      HexZero(h);
      EncodeNul(HexValue(h));
      assert h == FOUR_ZEROS <==> HexValue(h) == 0;
    case Pair(l, t) => EncodeNul(Combine(HexValue(l), HexValue(t)));
  }

  lemma {:induction false} PiecesNul(ps: seq<Piece>)
    requires PiecesValid(ps)
    ensures NUL in PiecesValue(ps) <==> NulPieces(ps)
  {
    if |ps| > 0 {
      hide PieceValue;
      PieceNul(ps[0]);
      PiecesNul(ps[1..]);
    }
  }

  // ----- The scan over one string

  lemma ScanHex(h: bytes, tail: bytes)
    requires Hex4(h)
    ensures Scan(h + tail, true) == Scan(tail, true)
  {
    var t := h + tail;
    assert t[1..][1..][1..][1..] == tail;
    assert Scan(t, true) == Scan(t[1..], true);
    assert Scan(t[1..], true) == Scan(t[1..][1..], true);
    assert Scan(t[1..][1..], true) == Scan(t[1..][1..][1..], true);
  }

  lemma ScanUnit(h: bytes, tail: bytes)
    requires Hex4(h)
    ensures Scan(UNICODE_PREFIX + h + tail, true) == (h == FOUR_ZEROS || Scan(tail, true))
  {
    var t := UNICODE_PREFIX + h + tail;
    assert t[0] == BACKSLASH && t[1] == 0x75 && t[2..6] == h && t[2..] == h + tail;
    ScanHex(h, tail);
  }

  lemma ScanPiece(p: Piece, tail: bytes)
    requires PieceValid(p)
    ensures Scan(PieceText(p) + tail, true) == (NulPiece(p) || Scan(tail, true))
    ensures NUL !in PieceText(p)
  {
    hide HexValue;
    match p
    case Plain(b) => Splits([b], tail);
    case Escaped(c) => Splits([BACKSLASH, c], tail);
    case Unit(h) => ScanUnit(h, tail);
    case Pair(l, r) =>
      SurrogateIsNoZero(l);
      SurrogateIsNoZero(r);
      Assoc(UNICODE_PREFIX + l, UNICODE_PREFIX + r, tail);
      ScanUnit(l, UNICODE_PREFIX + r + tail);
      ScanUnit(r, tail);
  }

  lemma SurrogateIsNoZero(h: bytes)
    requires Hex4(h) && HexValue(h) != 0
    ensures h != FOUR_ZEROS
  {
    HexZero(h);
  }

  lemma {:induction false} ScanPieces(ps: seq<Piece>, tail: bytes)
    requires PiecesValid(ps)
    ensures Scan(PiecesText(ps) + tail, true) == (NulPieces(ps) || Scan(tail, true))
    ensures NUL !in PiecesText(ps)
  {
    if |ps| == 0 {
      assert PiecesText(ps) + tail == tail;
    } else {
      hide PieceText;
      Assoc(PieceText(ps[0]), PiecesText(ps[1..]), tail);
      ScanPiece(ps[0], PiecesText(ps[1..]) + tail);
      ScanPieces(ps[1..], tail);
    }
  }

  /** A quoted string as a whole leaves the scan outside again. */
  lemma ScanQuoted(ps: seq<Piece>, next: bytes)
    requires PiecesValid(ps)
    ensures Scan(QuotedText(ps, next), false) == (NulPieces(ps) || Scan(next, false))
    ensures NUL in QuotedText(ps, next) <==> NUL in next
  {
    ScanPieces(ps, [QUOTE] + next);
    Splits([QUOTE], next);
    Splits([QUOTE], PiecesText(ps) + ([QUOTE] + next));
  }

  // ----- The scan between strings

  predicate Quiet(s: bytes) {
    forall i | 0 <= i < |s| :: s[i] != QUOTE && s[i] != NUL
  }

  lemma {:induction false} ScanQuiet(s: bytes, next: bytes)
    requires Quiet(s)
    ensures Scan(s + next, false) == Scan(next, false)
    ensures NUL in s + next <==> NUL in next
  {
    if |s| == 0 {
      assert s + next == next;
    } else {
      assert (s + next)[1..] == s[1..] + next;
      ScanQuiet(s[1..], next);
      HeadTail(s + next);
    }
  }

  lemma NumberIsQuiet(n: int)
    ensures Quiet(Decimal.IntText(n))
  {
    Decimal.TextIsCanonical(if n < 0 then -n else n);
  }

  // ----- The scan over a whole text of the grammar

  predicate NulIn(c: Syntax) {
    match c
    case SString(ps) => NulPieces(ps)
    case SArray(_, es) => NulInElems(es)
    case SObject(_, fs) => NulInFields(fs)
    case _ => false
  }

  predicate NulInElems(es: seq<Elem>) {
    |es| > 0 && (NulIn(es[0].c) || NulInElems(es[1..]))
  }

  predicate NulInFields(fs: seq<Field>) {
    |fs| > 0 && (NulPieces(fs[0].key) || NulIn(fs[0].val.c) || NulInFields(fs[1..]))
  }

  /** t scans as s does, but for a NUL that was seen on the way. */
  ghost predicate Scans(t: bytes, seen: bool, s: bytes) {
    Scan(t, false) == (seen || Scan(s, false)) && (NUL in t <==> NUL in s)
  }

  lemma {:induction false} ScanSyntax(c: Syntax, post: bytes)
    requires Valid(c)
    ensures Scans(Spell(c, post), NulIn(c), post)
    decreases c, 1
  {
    match c
    case SNull => ScanQuiet(NULL_TEXT, post);
    case SBool(b) => ScanQuiet(if b then TRUE_TEXT else FALSE_TEXT, post);
    case SNumber(n) =>
      NumberIsQuiet(n);
      ScanQuiet(Decimal.IntText(n), post);
    case SString(ps) => ScanQuoted(ps, post);
    case SArray(ws, es) =>
      if |es| == 0 {
        ScanQuiet([RBRACKET], post);
        ScanQuiet(ws, [RBRACKET] + post);
        ScanQuiet([LBRACKET], ws + ([RBRACKET] + post));
      } else {
        ScanElems(es, post);
        ScanQuiet([LBRACKET], SpellElems(es, post));
      }
    case SObject(ws, fs) =>
      if |fs| == 0 {
        ScanQuiet([RBRACE], post);
        ScanQuiet(ws, [RBRACE] + post);
        ScanQuiet([LBRACE], ws + ([RBRACE] + post));
      } else {
        ScanFields(fs, post);
        ScanQuiet([LBRACE], SpellFields(fs, post));
      }
  }

  lemma {:induction false} ScanElem(e: Elem, tail: bytes)
    requires AllSpace(e.pre) && AllSpace(e.post) && Valid(e.c)
    ensures Scans(e.pre + Spell(e.c, e.post + tail), NulIn(e.c), tail)
    decreases e
  {
    hide Spell;
    hide NulIn;
    ScanQuiet(e.post, tail);
    ScanSyntax(e.c, e.post + tail);
    ScanQuiet(e.pre, Spell(e.c, e.post + tail));
  }

  lemma {:induction false} ScanElems(es: seq<Elem>, post: bytes)
    requires |es| > 0 && ValidElems(es)
    ensures Scans(SpellElems(es, post), NulInElems(es), post)
    decreases es, 0
  {
    hide Spell;
    hide NulIn;
    ScanElem(es[0], ElemsTail(es, post));
    if |es| == 1 {
      ScanQuiet([RBRACKET], post);
    } else {
      ScanElems(es[1..], post);
      ScanQuiet([COMMA], SpellElems(es[1..], post));
    }
  }

  lemma {:induction false} ScanFields(fs: seq<Field>, post: bytes)
    requires |fs| > 0 && ValidFields(fs)
    ensures Scans(SpellFields(fs, post), NulInFields(fs), post)
    decreases fs, 0
  {
    hide Spell;
    hide NulIn;
    hide QuotedText;
    ScanElem(fs[0].val, FieldsTail(fs, post));
    if |fs| == 1 {
      ScanQuiet([RBRACE], post);
    } else {
      ScanFields(fs[1..], post);
      ScanQuiet([COMMA], SpellFields(fs[1..], post));
    }
    ScanQuiet([COLON], SpellVal(fs, post));
    ScanQuiet(fs[0].mid, [COLON] + SpellVal(fs, post));
    ScanQuoted(fs[0].key, fs[0].mid + ([COLON] + SpellVal(fs, post)));
    ScanQuiet(fs[0].pre, QuotedText(fs[0].key, fs[0].mid + ([COLON] + SpellVal(fs, post))));
  }

  lemma {:induction false} NulInValue(c: Syntax)
    requires Valid(c)
    ensures NulIn(c) <==> !NulFree(Eval(c))
    decreases c
  {
    match c
    case SString(ps) => PiecesNul(ps);
    case SArray(_, es) => NulInItems(es);
    case SObject(_, fs) => NulInMembers(fs);
    case _ =>
  }

  lemma {:induction false} NulInItems(es: seq<Elem>)
    requires ValidElems(es)
    ensures NulInElems(es) <==> !NulFree(Array(EvalElems(es)))
    decreases es
  {
    if |es| > 0 {
      NulInValue(es[0].c);
      NulInItems(es[1..]);
      var xs, ys := EvalElems(es), EvalElems(es[1..]);
      assert xs[0] == Eval(es[0].c);
      assert forall i | 0 <= i < |ys| :: xs[i + 1] == ys[i];
      assert forall i | 1 <= i < |xs| :: xs[i] == ys[i - 1];
    }
  }

  lemma {:induction false} NulInMembers(fs: seq<Field>)
    requires ValidFields(fs)
    ensures NulInFields(fs) <==> !NulFree(Object(EvalFields(fs)))
    decreases fs
  {
    if |fs| > 0 {
      PiecesNul(fs[0].key);
      NulInValue(fs[0].val.c);
      NulInMembers(fs[1..]);
      var xs, ys := EvalFields(fs), EvalFields(fs[1..]);
      assert xs[0] == Member(PiecesValue(fs[0].key), Eval(fs[0].val.c));
      assert forall i | 0 <= i < |ys| :: xs[i + 1] == ys[i];
      assert forall i | 1 <= i < |xs| :: xs[i] == ys[i - 1];
    }
  }

  // ----- The gate

  lemma ScanParsed(t: bytes, nesting: nat)
    requires ParseValue(t, nesting).Ok?
    ensures Scans(t, !NulFree(ParseValue(t, nesting).value), ParseValue(t, nesting).next)
  {
    hide ParseValue;
    hide Spell;
    if BareMinus(t) {
      BareMinusIsZero(t, nesting);
      var ws := SkipSpaceSplit(t);
      ScanQuiet(ws, SkipSpace(t));
    } else {
      var ws, c := ParseSound(t, nesting);
      ScanSyntax(c, ParseValue(t, nesting).next);
      NulInValue(c);
      ScanQuiet(ws, SkipSpace(t));
    }
  }

  /** On every text the parser accepts, the scan finds an escaped NUL exactly when
      some string of the tree holds one, or the ignored rest of the text scans as
      holding one. */
  lemma ScanIsExact(t: bytes)
    requires ParseText(t).Ok?
    ensures Scan(t, false) <==> !NulFree(ParseText(t).value) || Scan(ParseText(t).next, false)
    ensures NUL in t <==> NUL in ParseText(t).next
  {
    hide ParseValue;
    var bom: bytes := [0xEF, 0xBB, 0xBF];
    if StartsWith(t, bom) {
      Rejoin(t, 3);
      ScanQuiet(bom, t[3..]);
      ScanParsed(t[3..], 0);
    } else {
      ScanParsed(t, 0);
    }
  }

  /** What passes the gate holds no NUL anywhere, neither raw nor escaped. */
  lemma LoadedIsNulFree(t: bytes)
    requires FromString(t).Ok?
    ensures NulFree(FromString(t).value) && WellFormed(FromString(t).value)
    ensures Depth(FromString(t).value) <= MAX_NESTING
  {
    hide ParseValue;
    hide Scan;
    ScanIsExact(t);
    ParsedIsWellFormed(if StartsWith(t, [0xEF, 0xBB, 0xBF]) then t[3..] else t, 0);
  }

  /** The gate reads a serialized tree back exactly when the tree is free of NUL
      and within the nesting limit. */
  lemma GateRoundTrip(v: Value, st: Style)
    requires WellFormed(v) && Depth(v) <= MAX_NESTING
    ensures FromString(Serialize(v, st)) == Ok(v, []) <==> NulFree(v)
    ensures !NulFree(v) ==> FromString(Serialize(v, st)) == Err(Malformed)
  {
    hide ParseValue;
    hide Text;
    RoundTrip(v, st);
    ScanIsExact(Serialize(v, st));
  }
}
