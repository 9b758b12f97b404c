/**
  The text parson writes for a tree, compact and pretty, with and without escaped
  slashes, and the fact that each is a spelling of the tree in the grammar.
 */
module JsonText {
  import opened Bytes
  import opened JsonStrings
  import opened JsonValues
  import opened JsonGrammar
  import Decimal

  /** `is_pretty` and the global `parson_escape_slashes`. */
  datatype Style = Style(pretty: bool, slashes: bool)

  function HexLower(n: nat): byte
    requires n < 16
  {
    if n < 10 then 0x30 + n else 0x61 + n - 10
  }

  /** What `json_serialize_string` writes for one byte. */
  function EscapeText(b: byte, slashes: bool): (t: bytes)
    ensures |t| > 0
  {
    if b == QUOTE || b == BACKSLASH then [BACKSLASH, b]
    else if b == 0x08 then [BACKSLASH, 0x62]
    else if b == 0x0C then [BACKSLASH, 0x66]
    else if b == LF then [BACKSLASH, 0x6E]
    else if b == CR then [BACKSLASH, 0x72]
    else if b == TAB then [BACKSLASH, 0x74]
    else if b < 0x20 then [BACKSLASH, 0x75, 0x30, 0x30, HexLower(b / 16), HexLower(b % 16)]
    else if b == SLASH && slashes then [BACKSLASH, SLASH]
    else [b]
  }

  function EscapeAll(s: bytes, slashes: bool): bytes {
    if |s| == 0 then [] else EscapeText(s[0], slashes) + EscapeAll(s[1..], slashes)
  }

  function StringText(s: bytes, slashes: bool): bytes {
    [QUOTE] + EscapeAll(s, slashes) + [QUOTE]
  }

  const FOUR_SPACES: bytes := [SPACE, SPACE, SPACE, SPACE]

  /** `append_indent`. */
  function Indent(level: nat): bytes {
    if level == 0 then [] else FOUR_SPACES + Indent(level - 1)
  }

  function Ind(level: nat, st: Style): bytes {
    if st.pretty then Indent(level) else []
  }

  function Nl(st: Style): bytes {
    if st.pretty then [LF] else []
  }

  /** `json_serialize_to_buffer_r`. */
  function Text(v: Value, level: nat, st: Style): bytes
    decreases v, 1
  {
    match v
    case Null => NULL_TEXT
    case Bool(b) => if b then TRUE_TEXT else FALSE_TEXT
    case Number(n) => Decimal.IntText(n)
    case String(s) => StringText(s, st.slashes)
    case Array(xs) =>
      [LBRACKET] + ((if |xs| == 0 then [] else Nl(st) + (ItemsText(xs, level, st) + Ind(level, st))) + [RBRACKET])
    case Object(ms) =>
      [LBRACE] + ((if |ms| == 0 then [] else Nl(st) + (MembersText(ms, level, st) + Ind(level, st))) + [RBRACE])
  }

  function Sep(more: bool): bytes {
    if more then [COMMA] else []
  }

  function ItemText(x: Value, more: bool, level: nat, st: Style): bytes
    decreases x, 2
  {
    Ind(level + 1, st) + (Text(x, level + 1, st) + (Sep(more) + Nl(st)))
  }

  function ItemsText(xs: seq<Value>, level: nat, st: Style): bytes
    decreases xs, 0
  {
    if |xs| == 0 then [] else ItemText(xs[0], |xs| > 1, level, st) + ItemsText(xs[1..], level, st)
  }

  function AfterColon(st: Style): bytes {
    if st.pretty then [COLON, SPACE] else [COLON]
  }

  function MemberText(m: Member, more: bool, level: nat, st: Style): bytes
    decreases m, 2
  {
    Ind(level + 1, st) + (StringText(m.key, st.slashes) + (AfterColon(st) + (Text(m.value, level + 1, st) + (Sep(more) + Nl(st)))))
  }

  function MembersText(ms: seq<Member>, level: nat, st: Style): bytes
    decreases ms, 0
  {
    if |ms| == 0 then [] else MemberText(ms[0], |ms| > 1, level, st) + MembersText(ms[1..], level, st)
  }

  /** `json_serialize_to_string` and `json_serialize_to_string_pretty`. */
  function Serialize(v: Value, st: Style): bytes {
    Text(v, 0, st)
  }

  // ----- The same text as a spelling of the grammar

  function PieceOf(b: byte, slashes: bool): Piece {
    if b == QUOTE || b == BACKSLASH then Escaped(b)
    else if b == 0x08 then Escaped(0x62)
    else if b == 0x0C then Escaped(0x66)
    else if b == LF then Escaped(0x6E)
    else if b == CR then Escaped(0x72)
    else if b == TAB then Escaped(0x74)
    else if b < 0x20 then Unit([0x30, 0x30, HexLower(b / 16), HexLower(b % 16)])
    else if b == SLASH && slashes then Escaped(SLASH)
    else Plain(b)
  }

  function PiecesOf(s: bytes, slashes: bool): seq<Piece> {
    if |s| == 0 then [] else [PieceOf(s[0], slashes)] + PiecesOf(s[1..], slashes)
  }

  /** An element and a field as they are placed on a line. */
  function PlaceElem(c: Syntax, pre: bytes, last: bool, level: nat, st: Style): Elem {
    Elem(pre, c, if last then Nl(st) + Ind(level, st) else [])
  }

  function PlaceField(key: bytes, c: Syntax, last: bool, level: nat, st: Style): Field {
    Field(Nl(st) + Ind(level + 1, st), PiecesOf(key, st.slashes), [],
          PlaceElem(c, if st.pretty then [SPACE] else [], last, level, st))
  }

  function Layout(v: Value, level: nat, st: Style): Syntax
    decreases v
  {
    match v
    case Null => SNull
    case Bool(b) => SBool(b)
    case Number(n) => SNumber(n)
    case String(s) => SString(PiecesOf(s, st.slashes))
    case Array(xs) => SArray([], LayoutItems(xs, level, st))
    case Object(ms) => SObject([], LayoutMembers(ms, level, st))
  }

  function LayoutItems(xs: seq<Value>, level: nat, st: Style): (es: seq<Elem>)
    ensures |es| == |xs|
    decreases xs
  {
    if |xs| == 0 then []
    else [PlaceElem(Layout(xs[0], level + 1, st), Nl(st) + Ind(level + 1, st), |xs| == 1, level, st)]
         + LayoutItems(xs[1..], level, st)
  }

  function LayoutMembers(ms: seq<Member>, level: nat, st: Style): (fs: seq<Field>)
    ensures |fs| == |ms|
    decreases ms
  {
    if |ms| == 0 then []
    else [PlaceField(ms[0].key, Layout(ms[0].value, level + 1, st), |ms| == 1, level, st)]
         + LayoutMembers(ms[1..], level, st)
  }

  // ----- Strings

  lemma PieceOfByte(b: byte, slashes: bool)
    ensures var p := PieceOf(b, slashes);
      PieceValid(p) && PieceText(p) == EscapeText(b, slashes) && PieceValue(p) == [b]
  {
    if PieceOf(b, slashes).Unit? {
      UnitOfByte(b);
    }
  }

  lemma UnitOfByte(b: byte)
    requires b < 0x20
    ensures Hex4([0x30, 0x30, HexLower(b / 16), HexLower(b % 16)])
    ensures HexValue([0x30, 0x30, HexLower(b / 16), HexLower(b % 16)]) == b
  {
    var h: bytes := [0x30, 0x30, HexLower(b / 16), HexLower(b % 16)];
    assert h[..3] == [0x30, 0x30, HexLower(b / 16)] && h[..3][..2] == [0x30, 0x30];
    assert h[..3][..2][..1] == [0x30];
    assert HexValue([0x30][..0]) == 0;
    assert HexValue([0x30]) == 0;
    assert HexValue([0x30, 0x30]) == 0;
    assert HexValue(h[..3]) == b / 16;
  }

  lemma {:induction false} PiecesOfBytes(s: bytes, slashes: bool)
    ensures var ps := PiecesOf(s, slashes);
      PiecesValid(ps) && PiecesText(ps) == EscapeAll(s, slashes) && PiecesValue(ps) == s
  {
    if |s| > 0 {
      hide PieceOf;
      hide EscapeText;
      PieceOfByte(s[0], slashes);
      PiecesOfBytes(s[1..], slashes);
      PiecesCons(PieceOf(s[0], slashes), PiecesOf(s[1..], slashes));
      HeadTail(s);
    }
  }

  lemma StringSpells(s: bytes, slashes: bool, post: bytes)
    ensures StringText(s, slashes) + post == QuotedText(PiecesOf(s, slashes), post)
  {
    PiecesOfBytes(s, slashes);
    var e := EscapeAll(s, slashes);
    Assoc([QUOTE] + e, [QUOTE], post);
    Assoc([QUOTE], e, [QUOTE] + post);
  }

  // ----- Trees

  lemma {:induction false} IndentIsSpace(level: nat)
    ensures AllSpace(Indent(level))
  {
    if level > 0 {
      IndentIsSpace(level - 1);
    }
  }

  lemma LayoutSpace(level: nat, st: Style)
    ensures AllSpace(Nl(st) + Ind(level, st)) && AllSpace(Ind(level, st))
  {
    IndentIsSpace(level);
  }

  /** The layout is valid and denotes the tree it lays out. */
  lemma {:induction false} LayoutDenotes(v: Value, level: nat, st: Style)
    requires WellFormed(v)
    ensures Valid(Layout(v, level, st)) && Eval(Layout(v, level, st)) == v
    decreases v
  {
    match v
    case String(s) => PiecesOfBytes(s, st.slashes);
    case Array(xs) => LayoutItemsDenote(xs, level, st);
    case Object(ms) => LayoutMembersDenote(ms, level, st);
    case _ =>
  }

  lemma {:induction false} LayoutItemsDenote(xs: seq<Value>, level: nat, st: Style)
    requires forall i | 0 <= i < |xs| :: WellFormed(xs[i])
    ensures ValidElems(LayoutItems(xs, level, st)) && EvalElems(LayoutItems(xs, level, st)) == xs
    decreases xs
  {
    if |xs| > 0 {
      hide Layout;
      hide Eval;
      hide Valid;
      hide PiecesOf;
      LayoutSpace(level, st);
      LayoutSpace(level + 1, st);
      LayoutDenotes(xs[0], level + 1, st);
      LayoutItemsDenote(xs[1..], level, st);
      assert LayoutItems(xs, level, st)[1..] == LayoutItems(xs[1..], level, st);
      assert xs == [xs[0]] + xs[1..];
    }
  }

  lemma PlaceFieldDenotes(key: bytes, c: Syntax, last: bool, level: nat, st: Style)
    requires Valid(c)
    ensures FieldValid(PlaceField(key, c, last, level, st))
    ensures PiecesValue(PlaceField(key, c, last, level, st).key) == key
  {
    LayoutSpace(level, st);
    LayoutSpace(level + 1, st);
    PiecesOfBytes(key, st.slashes);
  }

  lemma {:induction false} LayoutMembersDenote(ms: seq<Member>, level: nat, st: Style)
    requires forall i | 0 <= i < |ms| :: WellFormed(ms[i].value)
    ensures ValidFields(LayoutMembers(ms, level, st)) && EvalFields(LayoutMembers(ms, level, st)) == ms
    decreases ms
  {
    if |ms| > 0 {
      hide ValidFields;
      hide EvalFields;
      var c := Layout(ms[0].value, level + 1, st);
      LayoutDenotes(ms[0].value, level + 1, st);
      PlaceFieldDenotes(ms[0].key, c, |ms| == 1, level, st);
      LayoutMembersDenote(ms[1..], level, st);
      EvalFieldsCons(PlaceField(ms[0].key, c, |ms| == 1, level, st), LayoutMembers(ms[1..], level, st));
      assert ms == [ms[0]] + ms[1..];
    }
  }

  /** The text written is the spelling of the layout. */
  lemma {:induction false} TextSpells(v: Value, level: nat, st: Style, post: bytes)
    ensures Text(v, level, st) + post == Spell(Layout(v, level, st), post)
    decreases v, 1
  {
    match v
    case String(s) => StringSpells(s, st.slashes, post);
    case Array(xs) =>
      if |xs| == 0 {
        assert [] + [RBRACKET] == [RBRACKET];
        Assoc([LBRACKET], [RBRACKET], post);
        assert [] + ([RBRACKET] + post) == [RBRACKET] + post;
      } else {
        var body := Nl(st) + (ItemsText(xs, level, st) + Ind(level, st));
        Assoc([LBRACKET], body + [RBRACKET], post);
        Assoc(body, [RBRACKET], post);
        ItemsSpell(xs, level, st, post);
      }
    case Object(ms) =>
      if |ms| == 0 {
        assert [] + [RBRACE] == [RBRACE];
        Assoc([LBRACE], [RBRACE], post);
        assert [] + ([RBRACE] + post) == [RBRACE] + post;
      } else {
        var body := Nl(st) + (MembersText(ms, level, st) + Ind(level, st));
        Assoc([LBRACE], body + [RBRACE], post);
        Assoc(body, [RBRACE], post);
        MembersSpell(ms, level, st, post);
      }
    case _ =>
  }

  lemma {:induction false} ItemsSpell(xs: seq<Value>, level: nat, st: Style, post: bytes)
    requires |xs| > 0
    ensures Nl(st) + (ItemsText(xs, level, st) + Ind(level, st)) + ([RBRACKET] + post)
         == SpellElems(LayoutItems(xs, level, st), post)
    decreases xs, 0
  {
    hide Text;
    hide Layout;
    hide Spell;
    var es := LayoutItems(xs, level, st);
    var nl, ind, out, tail := Nl(st), Ind(level + 1, st), Ind(level, st), [RBRACKET] + post;
    var text, rest := Text(xs[0], level + 1, st), ItemsText(xs[1..], level, st);
    TextSpells(xs[0], level + 1, st, es[0].post + ElemsTail(es, post));
    if |xs| == 1 {
      assert rest == [] && Sep(false) == [];
      LastItem(nl, ind, text, out, tail);
    } else {
      assert es[1..] == LayoutItems(xs[1..], level, st);
      ItemsSpell(xs[1..], level, st, post);
      InnerItem(nl, ind, text, rest, out, tail);
    }
  }

  /** Regrouping the pieces of one item, at the end and before the end. */
  lemma LastItem(nl: bytes, ind: bytes, text: bytes, out: bytes, tail: bytes)
    ensures nl + ((ind + (text + ([] + nl))) + [] + out) + tail == (nl + ind) + (text + ((nl + out) + tail))
  {
  }

  lemma InnerItem(nl: bytes, ind: bytes, text: bytes, rest: bytes, out: bytes, tail: bytes)
    ensures nl + ((ind + (text + ([COMMA] + nl))) + rest + out) + tail
         == (nl + ind) + (text + ([] + ([COMMA] + (nl + (rest + out) + tail))))
  {
  }

  lemma {:induction false} MembersSpell(ms: seq<Member>, level: nat, st: Style, post: bytes)
    requires |ms| > 0
    ensures Nl(st) + (MembersText(ms, level, st) + Ind(level, st)) + ([RBRACE] + post)
         == SpellFields(LayoutMembers(ms, level, st), post)
    decreases ms, 0
  {
    hide Text;
    hide Layout;
    hide Spell;
    hide StringText;
    hide QuotedText;
    var fs := LayoutMembers(ms, level, st);
    var nl, ind, out, tail := Nl(st), Ind(level + 1, st), Ind(level, st), [RBRACE] + post;
    var key, text, rest := StringText(ms[0].key, st.slashes), Text(ms[0].value, level + 1, st), MembersText(ms[1..], level, st);
    var sp := if st.pretty then [SPACE] else [];
    assert AfterColon(st) == [COLON] + sp;
    var e := fs[0].val;
    assert e.pre == sp && e.post == if |ms| == 1 then nl + out else [];
    TextSpells(ms[0].value, level + 1, st, e.post + FieldsTail(fs, post));
    assert SpellVal(fs, post) == sp + (text + (e.post + FieldsTail(fs, post)));
    StringSpells(ms[0].key, st.slashes, [] + ([COLON] + SpellVal(fs, post)));
    if |ms| == 1 {
      assert rest == [] && Sep(false) == [];
      LastMember(nl, ind, key, sp, text, out, tail);
    } else {
      assert fs[1..] == LayoutMembers(ms[1..], level, st);
      MembersSpell(ms[1..], level, st, post);
      InnerMember(nl, ind, key, sp, text, rest, out, tail);
    }
  }

  lemma LastMember(nl: bytes, ind: bytes, key: bytes, sp: bytes, text: bytes, out: bytes, tail: bytes)
    ensures nl + ((ind + (key + (([COLON] + sp) + (text + ([] + nl))))) + [] + out) + tail
         == (nl + ind) + (key + ([] + ([COLON] + (sp + (text + ((nl + out) + tail))))))
  {
  }

  lemma InnerMember(nl: bytes, ind: bytes, key: bytes, sp: bytes, text: bytes, rest: bytes, out: bytes, tail: bytes)
    ensures nl + ((ind + (key + (([COLON] + sp) + (text + ([COMMA] + nl))))) + rest + out) + tail
         == (nl + ind) + (key + ([] + ([COLON] + (sp + (text + ([] + ([COMMA] + (nl + (rest + out) + tail))))))))
  {
  }
}
