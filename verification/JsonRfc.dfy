/**
  RFC 8259 proper, as opposed to what parson takes for it: white space is the four
  characters of section 2, and strings are those of section 7. An accepted text is
  shown to be RFC 8259 text exactly when it is free of vertical tabs and form feeds.
 */
module JsonRfc {
  import opened Bytes
  import opened JsonStrings
  import opened JsonSection7
  import opened JsonValues
  import opened JsonGrammar
  import opened JsonParser
  import opened JsonParserSound
  import opened JsonParserExact
  import Decimal

  const VT: byte := 0x0B
  const FF: byte := 0x0C

  /** The `ws` of section 2; odd adds what `isspace` accepts beyond it. */
  predicate Ws(s: bytes, odd: bool) {
    forall i | 0 <= i < |s| ::
      s[i] == SPACE || s[i] == TAB || s[i] == LF || s[i] == CR || (odd && (s[i] == VT || s[i] == FF))
  }

  /** A character of section 7, or two escapes in a row. */
  predicate Char(p: Piece) {
    if p.Pair? then Hex4(p.lead) && Hex4(p.trail) else Spelling(p)
  }

  predicate Chars(ps: seq<Piece>) {
    forall i | 0 <= i < |ps| :: Char(ps[i])
  }

  /** The syntax trees of RFC 8259, whatever they denote and however deep they are. */
  predicate Rfc(c: Syntax, odd: bool) {
    match c
    case SString(ps) => Chars(ps)
    case SArray(ws, es) => Ws(ws, odd) && (|es| > 0 ==> ws == []) && forall i | 0 <= i < |es| :: RfcElem(es[i], odd)
    case SObject(ws, fs) => Ws(ws, odd) && (|fs| > 0 ==> ws == []) && forall i | 0 <= i < |fs| :: RfcField(fs[i], odd)
    case _ => true
  }

  predicate RfcElem(e: Elem, odd: bool) {
    Ws(e.pre, odd) && Rfc(e.c, odd) && Ws(e.post, odd)
  }

  predicate RfcField(f: Field, odd: bool) {
    Ws(f.pre, odd) && Chars(f.key) && Ws(f.mid, odd) && RfcElem(f.val, odd)
  }

  /** A value of RFC 8259 with white space in front. */
  ghost predicate RfcText(t: bytes) {
    exists ws, c :: Ws(ws, false) && Rfc(c, false) && t == ws + Spell(c, [])
  }

  predicate Free(t: bytes) {
    VT !in t && FF !in t
  }

  // ----- What the parser takes is RFC 8259 but for its white space

  lemma SpaceIsWs(s: bytes)
    ensures AllSpace(s) <==> Ws(s, true)
    ensures Ws(s, false) <==> Ws(s, true) && Free(s)
  {
    forall i | 0 <= i < |s| ensures s[i] in s {
    }
  }

  lemma PiecesAreChars(ps: seq<Piece>)
    requires PiecesValid(ps)
    ensures Chars(ps)
  {
  }

  lemma {:induction false} ValidIsRfc(c: Syntax)
    requires Valid(c)
    ensures Rfc(c, true)
  {
    hide AllSpace;
    hide Ws;
    hide Chars;
    match c
    case SString(ps) => PiecesAreChars(ps);
    case SArray(ws, es) =>
      SpaceIsWs(ws);
      forall i | 0 <= i < |es| ensures RfcElem(es[i], true) {
        ElemIsRfc(es[i]);
      }
    case SObject(ws, fs) =>
      SpaceIsWs(ws);
      forall i | 0 <= i < |fs| ensures RfcField(fs[i], true) {
        assert FieldValid(fs[i]);
        SpaceIsWs(fs[i].pre);
        SpaceIsWs(fs[i].mid);
        PiecesAreChars(fs[i].key);
        ElemIsRfc(fs[i].val);
      }
    case _ =>
  }

  lemma {:induction false} ElemIsRfc(e: Elem)
    requires AllSpace(e.pre) && Valid(e.c) && AllSpace(e.post)
    ensures RfcElem(e, true)
  {
    SpaceIsWs(e.pre);
    SpaceIsWs(e.post);
    ValidIsRfc(e.c);
  }

  // ----- Strings and numbers are free of VT and FF

  lemma {:induction false} CharsFree(ps: seq<Piece>)
    requires Chars(ps)
    ensures Free(PiecesText(ps))
  {
    hide PieceText;
    if |ps| > 0 {
      CharFree(ps[0]);
      CharsFree(ps[1..]);
    }
  }

  lemma CharFree(p: Piece)
    requires Char(p)
    ensures Free(PieceText(p))
  {
  }

  lemma NumberFree(n: int)
    ensures Free(Decimal.IntText(n))
  {
    Decimal.TextIsCanonical(if n < 0 then -n else n);
  }

  lemma QuotedFree(ps: seq<Piece>, post: bytes)
    requires Chars(ps)
    ensures Free(QuotedText(ps, post)) <==> Free(post)
  {
    CharsFree(ps);
  }

  // ----- The text of a syntax tree

  /** A text of the wider grammar is free of VT and FF exactly when it is RFC 8259. */
  lemma {:induction false} SyntaxFree(c: Syntax, post: bytes)
    requires Rfc(c, true)
    ensures Free(Spell(c, post)) <==> Rfc(c, false) && Free(post)
    decreases c, 1
  {
    hide Ws;
    match c
    case SNull =>
    case SBool(_) =>
    case SNumber(n) => NumberFree(n);
    case SString(ps) => QuotedFree(ps, post);
    case SArray(ws, es) =>
      SpaceIsWs(ws);
      if |es| > 0 {
        ElemsFree(es, post);
      }
    case SObject(ws, fs) =>
      SpaceIsWs(ws);
      if |fs| > 0 {
        FieldsFree(fs, post);
      }
  }

  lemma {:induction false} ElemFree(e: Elem, tail: bytes)
    requires RfcElem(e, true)
    ensures Free(e.pre + Spell(e.c, e.post + tail)) <==> RfcElem(e, false) && Free(tail)
    decreases e
  {
    hide Ws;
    hide Rfc;
    hide Spell;
    SpaceIsWs(e.pre);
    SpaceIsWs(e.post);
    SyntaxFree(e.c, e.post + tail);
  }

  lemma {:induction false} ElemsFree(es: seq<Elem>, post: bytes)
    requires |es| > 0 && forall i | 0 <= i < |es| :: RfcElem(es[i], true)
    ensures Free(SpellElems(es, post)) <==> (forall i | 0 <= i < |es| :: RfcElem(es[i], false)) && Free(post)
    decreases es, 0
  {
    hide RfcElem;
    hide Spell;
    ElemFree(es[0], ElemsTail(es, post));
    if |es| > 1 {
      var rest := es[1..];
      assert forall i | 1 <= i < |es| :: es[i] == rest[i - 1];
      ElemsFree(rest, post);
    }
  }

  lemma {:induction false} FieldsFree(fs: seq<Field>, post: bytes)
    requires |fs| > 0 && forall i | 0 <= i < |fs| :: RfcField(fs[i], true)
    ensures Free(SpellFields(fs, post)) <==> (forall i | 0 <= i < |fs| :: RfcField(fs[i], false)) && Free(post)
    decreases fs, 0
  {
    hide RfcElem;
    hide Ws;
    hide Chars;
    hide Spell;
    hide QuotedText;
    var f := fs[0];
    assert RfcField(f, true);
    SpaceIsWs(f.pre);
    SpaceIsWs(f.mid);
    ElemFree(f.val, FieldsTail(fs, post));
    QuotedFree(f.key, f.mid + ([COLON] + SpellVal(fs, post)));
    assert Free(SpellFields(fs, post)) <==> RfcField(f, false) && Free(FieldsTail(fs, post));
    if |fs| > 1 {
      var rest := fs[1..];
      assert forall i | 1 <= i < |fs| :: fs[i] == rest[i - 1];
      FieldsFree(rest, post);
    }
  }

  // ----- The text of a tree in front of something else

  lemma QuotedAppend(ps: seq<Piece>, a: bytes, b: bytes)
    ensures QuotedText(ps, a + b) == QuotedText(ps, a) + b
  {
    Assoc([QUOTE], a, b);
    Assoc(PiecesText(ps), [QUOTE] + a, b);
    Assoc([QUOTE], PiecesText(ps) + ([QUOTE] + a), b);
  }

  lemma {:induction false} SpellAppend(c: Syntax, a: bytes, b: bytes)
    ensures Spell(c, a + b) == Spell(c, a) + b
    decreases c, 1
  {
    match c
    case SNull => Assoc(NULL_TEXT, a, b);
    case SBool(v) => Assoc(if v then TRUE_TEXT else FALSE_TEXT, a, b);
    case SNumber(n) => Assoc(Decimal.IntText(n), a, b);
    case SString(ps) => QuotedAppend(ps, a, b);
    case SArray(ws, es) =>
      if |es| == 0 {
        Assoc([RBRACKET], a, b);
        Assoc(ws, [RBRACKET] + a, b);
        Assoc([LBRACKET], ws + ([RBRACKET] + a), b);
      } else {
        ElemsAppend(es, a, b);
        Assoc([LBRACKET], SpellElems(es, a), b);
      }
    case SObject(ws, fs) =>
      if |fs| == 0 {
        Assoc([RBRACE], a, b);
        Assoc(ws, [RBRACE] + a, b);
        Assoc([LBRACE], ws + ([RBRACE] + a), b);
      } else {
        FieldsAppend(fs, a, b);
        Assoc([LBRACE], SpellFields(fs, a), b);
      }
  }

  lemma {:induction false} ElemAppend(e: Elem, tail: bytes, b: bytes)
    ensures e.pre + Spell(e.c, e.post + (tail + b)) == e.pre + Spell(e.c, e.post + tail) + b
    decreases e
  {
    hide Spell;
    Assoc(e.post, tail, b);
    SpellAppend(e.c, e.post + tail, b);
    Assoc(e.pre, Spell(e.c, e.post + tail), b);
  }

  lemma {:induction false} ElemsAppend(es: seq<Elem>, a: bytes, b: bytes)
    requires |es| > 0
    ensures SpellElems(es, a + b) == SpellElems(es, a) + b
    decreases es, 0
  {
    hide Spell;
    if |es| == 1 {
      Assoc([RBRACKET], a, b);
    } else {
      ElemsAppend(es[1..], a, b);
      Assoc([COMMA], SpellElems(es[1..], a), b);
    }
    ElemAppend(es[0], ElemsTail(es, a), b);
  }

  lemma {:induction false} FieldsAppend(fs: seq<Field>, a: bytes, b: bytes)
    requires |fs| > 0
    ensures SpellFields(fs, a + b) == SpellFields(fs, a) + b
    decreases fs, 0
  {
    hide Spell;
    hide QuotedText;
    var f := fs[0];
    if |fs| == 1 {
      Assoc([RBRACE], a, b);
    } else {
      FieldsAppend(fs[1..], a, b);
      Assoc([COMMA], SpellFields(fs[1..], a), b);
    }
    ElemAppend(f.val, FieldsTail(fs, a), b);
    assert SpellVal(fs, a + b) == SpellVal(fs, a) + b;
    Assoc([COLON], SpellVal(fs, a), b);
    Assoc(f.mid, [COLON] + SpellVal(fs, a), b);
    QuotedAppend(f.key, f.mid + ([COLON] + SpellVal(fs, a)), b);
    Assoc(f.pre, QuotedText(f.key, f.mid + ([COLON] + SpellVal(fs, a))), b);
  }

  // ----- Main result

  /** The part of an accepted text that the parser has consumed. */
  function Consumed(t: bytes, nesting: nat): bytes
    requires ParseValue(t, nesting).Ok?
  {
    t[..|t| - |ParseValue(t, nesting).next|]
  }

  lemma RfcStart(c: Syntax)
    ensures |Spell(c, [])| > 0 && !IsSpace(Spell(c, [])[0])
  {
    if c.SNumber? {
      Decimal.TextIsCanonical(if c.n < 0 then -c.n else c.n);
    }
  }

  /** RFC 8259 text is free of VT and FF and is not white space alone. */
  lemma RfcIsFree(t: bytes)
    requires RfcText(t)
    ensures Free(t) && !AllSpace(t)
  {
    hide Spell;
    hide Rfc;
    hide Ws;
    var ws, c :| Ws(ws, false) && Rfc(c, false) && t == ws + Spell(c, []);
    SpaceIsWs(ws);
    RfcWidens(c);
    SyntaxFree(c, []);
    RfcStart(c);
    assert t[|ws|] == Spell(c, [])[0];
  }

  lemma {:induction false} RfcWidens(c: Syntax)
    requires Rfc(c, false)
    ensures Rfc(c, true)
  {
    match c
    case SArray(ws, es) =>
      forall i | 0 <= i < |es| ensures RfcElem(es[i], true) {
        RfcWidens(es[i].c);
      }
    case SObject(ws, fs) =>
      forall i | 0 <= i < |fs| ensures RfcField(fs[i], true) {
        assert RfcField(fs[i], false);
        assert RfcElem(fs[i].val, false);
        RfcWidens(fs[i].val.c);
        assert RfcElem(fs[i].val, true);
      }
    case _ =>
  }

  /** For every accepted text: what the parser consumed is RFC 8259 text exactly when
      it is no bare minus sign and holds neither a vertical tab nor a form feed. */
  lemma AcceptedIsRfcExactly(t: bytes, nesting: nat)
    requires ParseValue(t, nesting).Ok?
    ensures RfcText(Consumed(t, nesting)) <==> !BareMinus(t) && Free(Consumed(t, nesting))
  {
    hide ParseValue;
    hide Spell;
    hide Rfc;
    hide RfcText;
    hide Ws;
    var used := Consumed(t, nesting);
    if RfcText(used) {
      RfcIsFree(used);
    }
    if BareMinus(t) {
      BareMinusIsZero(t, nesting);
      var ws := SkipSpaceSplit(t);
      Splits(ws, SkipSpace(t));
    } else {
      GrammarConsumed(t, nesting);
    }
  }

  lemma GrammarConsumed(t: bytes, nesting: nat)
    requires ParseValue(t, nesting).Ok? && !BareMinus(t)
    ensures Free(Consumed(t, nesting)) ==> RfcText(Consumed(t, nesting))
  {
    hide ParseValue;
    hide Spell;
    hide Rfc;
    hide Ws;
    var next := ParseValue(t, nesting).next;
    var ws, c := ParseSound(t, nesting);
    assert [] + next == next;
    SpellAppend(c, [], next);
    Assoc(ws, Spell(c, []), next);
    Splits(ws + Spell(c, []), next);
    assert Consumed(t, nesting) == ws + Spell(c, []);
    if Free(Consumed(t, nesting)) {
      SpaceIsWs(ws);
      ValidIsRfc(c);
      SyntaxFree(c, []);
    }
  }

  /** A vertical tab in front of a number is skipped, which RFC 8259 does not allow. */
  lemma VerticalTabAccepted()
    ensures ParseText([VT, 0x31]) == Ok(Number(1), [])
    ensures !RfcText([VT, 0x31])
  {
    var t: bytes := [VT, 0x31];
    assert t[1..] == [0x31] && SkipSpace([0x31]) == [0x31];
    assert [0x31][..1] == [0x31] && [0x31][1..] == [] && [0x31][..0] == [];
    assert Decimal.DigitRun([0x31]) == 1;
    assert Decimal.ValueOf([0x31]) == 1;
    assert VT in t;
    if RfcText(t) {
      RfcIsFree(t);
    }
  }
}
