/**
  What compact and pretty text look like, said of the bytes alone by two scanners
  that know strings, brackets, commas and colons but no trees: one drops the white
  space outside strings, the other breaks and indents lines.
 */
module JsonPretty {
  import opened Bytes
  import opened JsonValues
  import opened JsonGrammar
  import opened JsonText
  import Decimal

  // ----- The scanners

  predicate IsWhite(b: byte) {
    b == ' ' as int || b == '\t' as int || b == '\n' as int || b == '\r' as int
  }

  /** The text without the white space outside its strings. */
  function Strip(t: bytes, inString: bool): bytes
    decreases |t|
  {
    if |t| == 0 then []
    else if !inString then
      if IsWhite(t[0]) then Strip(t[1..], false) else [t[0]] + Strip(t[1..], t[0] == QUOTE)
    else if t[0] == BACKSLASH && |t| > 1 then t[..2] + Strip(t[2..], true)
    else [t[0]] + Strip(t[1..], t[0] != QUOTE)
  }

  predicate Opens(b: byte) {
    b == '[' as int || b == '{' as int
  }

  predicate Closes(b: byte) {
    b == ']' as int || b == '}' as int
  }

  /** A new line with four spaces per level. */
  function Line(level: nat): bytes {
    ['\n' as int] + seq(4 * level, _ => ' ' as int)
  }

  /** Pretty-printing of compact text. Outside strings
      - an empty container stays as it is;
      - an opening bracket is followed by a line of the next level;
      - a closing bracket stands on a line of the level of its container;
      - a comma is followed by a line, a colon by a space. */
  function Reindent(t: bytes, level: nat, inString: bool): bytes
    decreases |t|
  {
    if |t| == 0 then []
    else if inString then
      if t[0] == BACKSLASH && |t| > 1 then t[..2] + Reindent(t[2..], level, true)
      else [t[0]] + Reindent(t[1..], level, t[0] != QUOTE)
    else if Opens(t[0]) then
      if |t| > 1 && Closes(t[1]) then t[..2] + Reindent(t[2..], level, false)
      else [t[0]] + (Line(level + 1) + Reindent(t[1..], level + 1, false))
    else if Closes(t[0]) then
      var outer := if level == 0 then 0 else level - 1;
      Line(outer) + ([t[0]] + Reindent(t[1..], outer, false))
    else if t[0] == ',' as int then [t[0]] + (Line(level) + Reindent(t[1..], level, false))
    else if t[0] == ':' as int then [t[0]] + ([' ' as int] + Reindent(t[1..], level, false))
    else [t[0]] + Reindent(t[1..], level, t[0] == QUOTE)
  }

  // ----- Both scanners copy strings

  /** A byte of a string as it is escaped: one harmless byte, or a backslash and what
      belongs to it. */
  lemma EscapeShape(b: byte, slashes: bool)
    ensures var e := EscapeText(b, slashes);
      || (|e| == 1 && e[0] != QUOTE && e[0] != BACKSLASH)
      || (|e| == 2 && e[0] == BACKSLASH)
      || (|e| == 6 && e[0] == BACKSLASH && forall i | 2 <= i < 6 :: e[i] != QUOTE && e[i] != BACKSLASH)
  {
  }

  lemma {:induction false} StripPlain(a: bytes, t: bytes)
    requires forall i | 0 <= i < |a| :: a[i] != QUOTE && a[i] != BACKSLASH
    ensures Strip(a + t, true) == a + Strip(t, true)
  {
    if |a| == 0 {
      assert a + t == t && a + Strip(t, true) == Strip(t, true);
    } else {
      assert (a + t)[1..] == a[1..] + t;
      StripPlain(a[1..], t);
      HeadTail(a);
      Assoc([a[0]], a[1..], Strip(t, true));
    }
  }

  lemma StripEscape(e: bytes, t: bytes)
    requires |e| >= 2 && e[0] == BACKSLASH && forall i | 2 <= i < |e| :: e[i] != QUOTE && e[i] != BACKSLASH
    ensures Strip(e + t, true) == e + Strip(t, true)
  {
    assert (e + t)[..2] == e[..2] && (e + t)[2..] == e[2..] + t;
    StripPlain(e[2..], t);
    Rejoin(e, 2);
    Assoc(e[..2], e[2..], Strip(t, true));
  }

  lemma {:induction false} StripEscaped(s: bytes, slashes: bool, t: bytes)
    ensures Strip(EscapeAll(s, slashes) + t, true) == EscapeAll(s, slashes) + Strip(t, true)
  {
    hide EscapeText;
    if |s| == 0 {
      assert [] + t == t && [] + Strip(t, true) == Strip(t, true);
    } else {
      var e, rest := EscapeText(s[0], slashes), EscapeAll(s[1..], slashes);
      EscapeShape(s[0], slashes);
      Assoc(e, rest, t);
      if |e| == 1 {
        StripPlain(e, rest + t);
      } else {
        StripEscape(e, rest + t);
      }
      StripEscaped(s[1..], slashes, t);
      Assoc(e, rest, Strip(t, true));
    }
  }

  lemma StripString(s: bytes, slashes: bool, t: bytes)
    ensures Strip(StringText(s, slashes) + t, false) == StringText(s, slashes) + Strip(t, false)
  {
    var e := EscapeAll(s, slashes);
    Assoc([QUOTE] + e, [QUOTE], t);
    Assoc([QUOTE], e, [QUOTE] + t);
    Splits([QUOTE], e + ([QUOTE] + t));
    Splits([QUOTE], t);
    StripEscaped(s, slashes, [QUOTE] + t);
    Assoc([QUOTE], e, [QUOTE] + Strip(t, false));
    Assoc([QUOTE] + e, [QUOTE], Strip(t, false));
  }

  lemma {:induction false} ReindentPlain(a: bytes, t: bytes, level: nat)
    requires forall i | 0 <= i < |a| :: a[i] != QUOTE && a[i] != BACKSLASH
    ensures Reindent(a + t, level, true) == a + Reindent(t, level, true)
  {
    if |a| == 0 {
      assert a + t == t && a + Reindent(t, level, true) == Reindent(t, level, true);
    } else {
      assert (a + t)[1..] == a[1..] + t;
      ReindentPlain(a[1..], t, level);
      HeadTail(a);
      Assoc([a[0]], a[1..], Reindent(t, level, true));
    }
  }

  lemma ReindentEscape(e: bytes, t: bytes, level: nat)
    requires |e| >= 2 && e[0] == BACKSLASH && forall i | 2 <= i < |e| :: e[i] != QUOTE && e[i] != BACKSLASH
    ensures Reindent(e + t, level, true) == e + Reindent(t, level, true)
  {
    assert (e + t)[..2] == e[..2] && (e + t)[2..] == e[2..] + t;
    ReindentPlain(e[2..], t, level);
    Rejoin(e, 2);
    Assoc(e[..2], e[2..], Reindent(t, level, true));
  }

  lemma {:induction false} ReindentEscaped(s: bytes, slashes: bool, t: bytes, level: nat)
    ensures Reindent(EscapeAll(s, slashes) + t, level, true) == EscapeAll(s, slashes) + Reindent(t, level, true)
  {
    hide EscapeText;
    if |s| == 0 {
      assert [] + t == t && [] + Reindent(t, level, true) == Reindent(t, level, true);
    } else {
      var e, rest := EscapeText(s[0], slashes), EscapeAll(s[1..], slashes);
      EscapeShape(s[0], slashes);
      Assoc(e, rest, t);
      if |e| == 1 {
        ReindentPlain(e, rest + t, level);
      } else {
        ReindentEscape(e, rest + t, level);
      }
      ReindentEscaped(s[1..], slashes, t, level);
      Assoc(e, rest, Reindent(t, level, true));
    }
  }

  lemma ReindentString(s: bytes, slashes: bool, t: bytes, level: nat)
    ensures Reindent(StringText(s, slashes) + t, level, false) == StringText(s, slashes) + Reindent(t, level, false)
  {
    var e := EscapeAll(s, slashes);
    Assoc([QUOTE] + e, [QUOTE], t);
    Assoc([QUOTE], e, [QUOTE] + t);
    Splits([QUOTE], e + ([QUOTE] + t));
    Splits([QUOTE], t);
    ReindentEscaped(s, slashes, [QUOTE] + t, level);
    Assoc([QUOTE], e, [QUOTE] + Reindent(t, level, false));
    Assoc([QUOTE] + e, [QUOTE], Reindent(t, level, false));
  }

  // ----- Numbers and names of values

  /** Bytes that neither scanner looks at. */
  predicate Quiet(a: bytes) {
    forall i | 0 <= i < |a| ::
      a[i] != QUOTE && !IsWhite(a[i]) && !Opens(a[i]) && !Closes(a[i]) && a[i] != ',' as int && a[i] != ':' as int
  }

  lemma {:induction false} ScanQuiet(a: bytes, t: bytes, level: nat)
    requires Quiet(a)
    ensures Strip(a + t, false) == a + Strip(t, false)
    ensures Reindent(a + t, level, false) == a + Reindent(t, level, false)
  {
    if |a| == 0 {
      assert a + t == t && a + Strip(t, false) == Strip(t, false) && a + Reindent(t, level, false) == Reindent(t, level, false);
    } else {
      assert (a + t)[1..] == a[1..] + t;
      ScanQuiet(a[1..], t, level);
      HeadTail(a);
      Assoc([a[0]], a[1..], Strip(t, false));
      Assoc([a[0]], a[1..], Reindent(t, level, false));
    }
  }

  lemma NumberIsQuiet(n: int)
    ensures Quiet(Decimal.IntText(n))
  {
    Decimal.TextIsCanonical(if n < 0 then -n else n);
  }

  // ----- White space

  lemma {:induction false} StripWhite(a: bytes, t: bytes)
    requires forall i | 0 <= i < |a| :: IsWhite(a[i])
    ensures Strip(a + t, false) == Strip(t, false)
  {
    if |a| == 0 {
      assert a + t == t;
    } else {
      assert (a + t)[1..] == a[1..] + t;
      StripWhite(a[1..], t);
    }
  }

  lemma {:induction false} IndentIsWhite(level: nat)
    ensures Indent(level) == seq(4 * level, _ => ' ' as int)
  {
    if level > 0 {
      IndentIsWhite(level - 1);
      assert seq(4 * level, _ => ' ' as int) == FOUR_SPACES + seq(4 * (level - 1), _ => ' ' as int);
    }
  }

  function Compact(st: Style): Style {
    st.(pretty := false)
  }

  // ----- Pretty text without its white space

  /** The scanner turns a into b, whatever follows. */
  ghost predicate Strips(a: bytes, b: bytes) {
    forall t :: Strip(a + t, false) == b + Strip(t, false)
  }

  lemma StripsConcat(a: bytes, b: bytes, c: bytes, d: bytes)
    requires Strips(a, b) && Strips(c, d)
    ensures Strips(a + c, b + d)
  {
    forall t ensures Strip((a + c) + t, false) == (b + d) + Strip(t, false) {
      Assoc(a, c, t);
      Assoc(b, d, Strip(t, false));
    }
  }

  lemma StripsQuiet(a: bytes)
    requires Quiet(a)
    ensures Strips(a, a)
  {
    forall t ensures Strip(a + t, false) == a + Strip(t, false) {
      ScanQuiet(a, t, 0);
    }
  }

  lemma StripsByte(b: byte)
    requires b != QUOTE && !IsWhite(b)
    ensures Strips([b], [b])
  {
    forall t ensures Strip([b] + t, false) == [b] + Strip(t, false) {
      Splits([b], t);
    }
  }

  lemma StripsWhites(a: bytes)
    requires forall i | 0 <= i < |a| :: IsWhite(a[i])
    ensures Strips(a, [])
  {
    forall t ensures Strip(a + t, false) == [] + Strip(t, false) {
      StripWhite(a, t);
    }
  }

  lemma StripsString(s: bytes, slashes: bool)
    ensures Strips(StringText(s, slashes), StringText(s, slashes))
  {
    forall t ensures Strip(StringText(s, slashes) + t, false) == StringText(s, slashes) + Strip(t, false) {
      StripString(s, slashes, t);
    }
  }

  lemma StripsBreaks(level: nat, st: Style)
    ensures Strips(Nl(st), Nl(Compact(st))) && Strips(Ind(level, st), Ind(level, Compact(st)))
  {
    IndentIsWhite(level);
    StripsWhites(Nl(st));
    StripsWhites(Ind(level, st));
  }

  lemma StripsPunctuation(st: Style, more: bool)
    ensures Strips(Sep(more), Sep(more)) && Strips(AfterColon(st), AfterColon(Compact(st))) && Strips([], [])
    ensures Strips([LBRACKET], [LBRACKET]) && Strips([RBRACKET], [RBRACKET])
    ensures Strips([LBRACE], [LBRACE]) && Strips([RBRACE], [RBRACE])
  {
    hide Strips;
    StripsQuiet([]);
    StripsByte(COMMA);
    StripsByte(COLON);
    StripsByte(LBRACKET);
    StripsByte(RBRACKET);
    StripsByte(LBRACE);
    StripsByte(RBRACE);
    StripsWhites([SPACE]);
    StripsConcat([COLON], [COLON], [SPACE], []);
    assert [COLON] + [SPACE] == [COLON, SPACE] && [COLON] + [] == [COLON];
  }

  lemma {:induction false} StripsText(v: Value, level: nat, st: Style)
    ensures Strips(Text(v, level, st), Text(v, level, Compact(st)))
    decreases v, 1
  {
    hide Strips;
    hide Nl;
    hide Ind;
    var c := Compact(st);
    StripsPunctuation(st, false);
    StripsBreaks(level, st);
    match v
    case Null => StripsQuiet(NULL_TEXT);
    case Bool(b) => StripsQuiet(if b then TRUE_TEXT else FALSE_TEXT);
    case Number(n) =>
      NumberIsQuiet(n);
      StripsQuiet(Decimal.IntText(n));
    case String(s) => StripsString(s, st.slashes);
    case Array(xs) =>
      StripsItems(xs, level, st);
      StripsBody(LBRACKET, |xs| == 0, ItemsText(xs, level, st), ItemsText(xs, level, c), RBRACKET, level, st);
    case Object(ms) =>
      StripsMembers(ms, level, st);
      StripsBody(LBRACE, |ms| == 0, MembersText(ms, level, st), MembersText(ms, level, c), RBRACE, level, st);
  }

  /** A container around what it holds. */
  lemma StripsBody(open: byte, empty: bool, a: bytes, b: bytes, close: byte, level: nat, st: Style)
    requires Strips(a, b) && Strips([open], [open]) && Strips([close], [close])
    ensures var c := Compact(st);
      Strips([open] + ((if empty then [] else Nl(st) + (a + Ind(level, st))) + [close]),
             [open] + ((if empty then [] else Nl(c) + (b + Ind(level, c))) + [close]))
  {
    hide Strips;
    hide Nl;
    hide Ind;
    var c := Compact(st);
    StripsBreaks(level, st);
    StripsQuiet([]);
    StripsConcat(a, b, Ind(level, st), Ind(level, c));
    StripsConcat(Nl(st), Nl(c), a + Ind(level, st), b + Ind(level, c));
    var x, y := if empty then [] else Nl(st) + (a + Ind(level, st)), if empty then [] else Nl(c) + (b + Ind(level, c));
    StripsConcat(x, y, [close], [close]);
    StripsConcat([open], [open], x + [close], y + [close]);
  }

  lemma {:induction false} StripsItems(xs: seq<Value>, level: nat, st: Style)
    ensures Strips(ItemsText(xs, level, st), ItemsText(xs, level, Compact(st)))
    decreases xs, 0
  {
    hide Strips;
    hide Nl;
    hide Ind;
    hide Text;
    StripsPunctuation(st, |xs| > 1);
    if |xs| > 0 {
      var c, more := Compact(st), |xs| > 1;
      StripsBreaks(level + 1, st);
      StripsText(xs[0], level + 1, st);
      StripsItems(xs[1..], level, st);
      StripsConcat(Sep(more), Sep(more), Nl(st), Nl(c));
      StripsConcat(Text(xs[0], level + 1, st), Text(xs[0], level + 1, c), Sep(more) + Nl(st), Sep(more) + Nl(c));
      StripsConcat(Ind(level + 1, st), Ind(level + 1, c), Text(xs[0], level + 1, st) + (Sep(more) + Nl(st)), Text(xs[0], level + 1, c) + (Sep(more) + Nl(c)));
      StripsConcat(ItemText(xs[0], more, level, st), ItemText(xs[0], more, level, c), ItemsText(xs[1..], level, st), ItemsText(xs[1..], level, c));
    }
  }

  lemma {:induction false} StripsMembers(ms: seq<Member>, level: nat, st: Style)
    ensures Strips(MembersText(ms, level, st), MembersText(ms, level, Compact(st)))
    decreases ms, 0
  {
    hide Strips;
    hide Nl;
    hide Ind;
    hide Text;
    hide StringText;
    hide AfterColon;
    StripsPunctuation(st, |ms| > 1);
    if |ms| > 0 {
      var c, more, key := Compact(st), |ms| > 1, StringText(ms[0].key, st.slashes);
      var text, text' := Text(ms[0].value, level + 1, st), Text(ms[0].value, level + 1, c);
      StripsBreaks(level + 1, st);
      StripsText(ms[0].value, level + 1, st);
      StripsMembers(ms[1..], level, st);
      StripsString(ms[0].key, st.slashes);
      var a0, b0 := Sep(more) + Nl(st), Sep(more) + Nl(c);
      StripsConcat(Sep(more), Sep(more), Nl(st), Nl(c));
      StripsConcat(text, text', a0, b0);
      StripsConcat(AfterColon(st), AfterColon(c), text + a0, text' + b0);
      StripsConcat(key, key, AfterColon(st) + (text + a0), AfterColon(c) + (text' + b0));
      StripsConcat(Ind(level + 1, st), Ind(level + 1, c), key + (AfterColon(st) + (text + a0)), key + (AfterColon(c) + (text' + b0)));
      StripsConcat(MemberText(ms[0], more, level, st), MemberText(ms[0], more, level, c), MembersText(ms[1..], level, st), MembersText(ms[1..], level, c));
    }
  }

  /** For every tree, dropping the white space outside strings turns the text of any
      style into the compact text; so compact text has none itself. */
  lemma StrippedIsCompact(v: Value, slashes: bool)
    ensures Strip(Serialize(v, Style(true, slashes)), false) == Serialize(v, Style(false, slashes))
    ensures Strip(Serialize(v, Style(false, slashes)), false) == Serialize(v, Style(false, slashes))
  {
    hide Text;
    forall st: Style | st.slashes == slashes ensures Strip(Serialize(v, st), false) == Serialize(v, Compact(st)) {
      StripsText(v, 0, st);
      var t, u := Serialize(v, st), Serialize(v, Compact(st));
      assert t + [] == t && u + [] == u;
      assert Strip(t + [], false) == u + Strip([], false);
    }
    assert Strip(Serialize(v, Style(true, slashes)), false) == Serialize(v, Compact(Style(true, slashes)));
    assert Strip(Serialize(v, Style(false, slashes)), false) == Serialize(v, Compact(Style(false, slashes)));
  }

  // ----- Compact text, broken into lines

  lemma LineIs(level: nat, st: Style)
    requires st.pretty
    ensures Nl(st) + Ind(level, st) == Line(level)
  {
    IndentIsWhite(level);
  }

  lemma FirstByteOfText(v: Value, level: nat, st: Style)
    ensures |Text(v, level, st)| > 0 && !Closes(Text(v, level, st)[0])
  {
    if v.Number? {
      Decimal.TextIsCanonical(if v.n < 0 then -v.n else v.n);
    }
  }

  /** The bracket that closes a container of the level. */
  lemma ReindentClose(close: byte, t: bytes, level: nat)
    requires Closes(close)
    ensures Reindent([close] + t, level + 1, false) == Line(level) + ([close] + Reindent(t, level, false))
  {
    Splits([close], t);
  }

  lemma ReindentComma(t: bytes, level: nat)
    ensures Reindent([COMMA] + t, level, false) == [COMMA] + (Line(level) + Reindent(t, level, false))
  {
    Splits([COMMA], t);
  }

  lemma ReindentColon(t: bytes, level: nat)
    ensures Reindent([COLON] + t, level, false) == [COLON, SPACE] + Reindent(t, level, false)
  {
    Splits([COLON], t);
    Assoc([COLON], [SPACE], Reindent(t, level, false));
    assert [COLON] + [SPACE] == [COLON, SPACE];
  }

  lemma ReindentOpen(open: byte, t: bytes, level: nat)
    requires Opens(open) && |t| > 0 && !Closes(t[0])
    ensures Reindent([open] + t, level, false) == [open] + (Line(level + 1) + Reindent(t, level + 1, false))
  {
    Splits([open], t);
  }

  lemma ReindentEmpty(open: byte, close: byte, t: bytes, level: nat)
    requires Opens(open) && Closes(close)
    ensures Reindent([open] + ([close] + t), level, false) == [open] + ([close] + Reindent(t, level, false))
  {
    var u := [open] + ([close] + t);
    assert u[..2] == [open, close] && u[2..] == t;
    Assoc([open], [close], Reindent(t, level, false));
    assert [open] + [close] == [open, close];
  }

  lemma {:induction false} ReindentText(v: Value, level: nat, slashes: bool, t: bytes)
    ensures Reindent(Text(v, level, Style(false, slashes)) + t, level, false)
         == Text(v, level, Style(true, slashes)) + Reindent(t, level, false)
    decreases v, 1
  {
    hide Reindent;
    hide StringText;
    hide Line;
    match v
    case Null => ScanQuiet(NULL_TEXT, t, level);
    case Bool(b) => ScanQuiet(if b then TRUE_TEXT else FALSE_TEXT, t, level);
    case Number(n) =>
      NumberIsQuiet(n);
      ScanQuiet(Decimal.IntText(n), t, level);
    case String(s) => ReindentString(s, slashes, t, level);
    case Array(xs) =>
      if |xs| == 0 {
        EmptyBody(LBRACKET, RBRACKET, t, level);
      } else {
        ItemsStart(xs, level, slashes);
        ReindentItems(xs, level, slashes, t);
        FullBody(LBRACKET, ItemsText(xs, level, Style(false, slashes)), ItemsText(xs, level, Style(true, slashes)), RBRACKET, t, level, slashes);
      }
    case Object(ms) =>
      if |ms| == 0 {
        EmptyBody(LBRACE, RBRACE, t, level);
      } else {
        MembersStart(ms, level, slashes);
        ReindentMembers(ms, level, slashes, t);
        FullBody(LBRACE, MembersText(ms, level, Style(false, slashes)), MembersText(ms, level, Style(true, slashes)), RBRACE, t, level, slashes);
      }
  }

  lemma EmptyBody(open: byte, close: byte, t: bytes, level: nat)
    requires Opens(open) && Closes(close)
    ensures Reindent([open] + ([] + [close]) + t, level, false) == [open] + ([] + [close]) + Reindent(t, level, false)
  {
    hide Reindent;
    assert [] + [close] == [close];
    Assoc([open], [close], t);
    Assoc([open], [close], Reindent(t, level, false));
    ReindentEmpty(open, close, t, level);
  }

  /** What a non-empty container holds, from its first line to its closing bracket. */
  ghost predicate Lines(a: bytes, b: bytes, close: byte, t: bytes, level: nat, slashes: bool) {
    var p := Style(true, slashes);
    Line(level + 1) + Reindent(a + ([close] + t), level + 1, false)
      == Nl(p) + (b + Ind(level, p)) + ([close] + Reindent(t, level, false))
  }

  lemma FullBody(open: byte, a: bytes, b: bytes, close: byte, t: bytes, level: nat, slashes: bool)
    requires Opens(open) && |a| > 0 && !Closes(a[0]) && Lines(a, b, close, t, level, slashes)
    ensures var c, p := Style(false, slashes), Style(true, slashes);
      Reindent([open] + ((Nl(c) + (a + Ind(level, c))) + [close]) + t, level, false)
        == [open] + ((Nl(p) + (b + Ind(level, p))) + [close]) + Reindent(t, level, false)
  {
    hide Reindent;
    hide Line;
    var c, p := Style(false, slashes), Style(true, slashes);
    var r, body := Reindent(t, level, false), Nl(p) + (b + Ind(level, p));
    assert Nl(c) + (a + Ind(level, c)) == a;
    Assoc([open], a + [close], t);
    Assoc(a, [close], t);
    ReindentOpen(open, a + ([close] + t), level);
    Assoc([open], body + [close], r);
    Assoc(body, [close], r);
  }

  lemma ItemsStart(xs: seq<Value>, level: nat, slashes: bool)
    requires |xs| > 0
    ensures var a := ItemsText(xs, level, Style(false, slashes)); |a| > 0 && !Closes(a[0])
  {
    hide Text;
    FirstByteOfText(xs[0], level + 1, Style(false, slashes));
  }

  lemma MembersStart(ms: seq<Member>, level: nat, slashes: bool)
    requires |ms| > 0
    ensures var a := MembersText(ms, level, Style(false, slashes)); |a| > 0 && !Closes(a[0])
  {
    hide Text;
  }

  /** One item, with its comma or the closing bracket behind it. */
  lemma LinesOfItem(ind: bytes, nl: bytes, text: bytes, rest: bytes, out: bytes, more: bool, tail: bytes)
    requires !more ==> rest == []
    ensures nl + ((ind + (text + ((if more then [COMMA] else []) + nl))) + rest + out) + tail
         == (nl + ind) + (text + (if more then [COMMA] + (nl + (rest + out) + tail) else (nl + out) + tail))
  {
  }

  lemma {:induction false} ReindentItems(xs: seq<Value>, level: nat, slashes: bool, t: bytes)
    requires |xs| > 0
    ensures Lines(ItemsText(xs, level, Style(false, slashes)), ItemsText(xs, level, Style(true, slashes)), RBRACKET, t, level, slashes)
    decreases xs, 0
  {
    hide Text;
    hide Reindent;
    hide Line;
    var c, p, more := Style(false, slashes), Style(true, slashes), |xs| > 1;
    var text, text' := Text(xs[0], level + 1, c), Text(xs[0], level + 1, p);
    var rest, rest' := ItemsText(xs[1..], level, c), ItemsText(xs[1..], level, p);
    var close := [RBRACKET] + t;
    var tail := [RBRACKET] + Reindent(t, level, false);
    LineIs(level, p);
    LineIs(level + 1, p);
    assert ItemsText(xs, level, c) == text + Sep(more) + rest;
    LinesOfItem(Ind(level + 1, p), Nl(p), text', rest', Ind(level, p), more, tail);
    if more {
      Regroup(text, [COMMA], rest, close);
      ReindentText(xs[0], level + 1, slashes, [COMMA] + (rest + close));
      ReindentComma(rest + close, level + 1);
      ReindentItems(xs[1..], level, slashes, t);
    } else {
      assert text + Sep(more) + rest == text;
      ReindentText(xs[0], level + 1, slashes, close);
      ReindentClose(RBRACKET, t, level);
    }
  }

  lemma Regroup(a: bytes, b: bytes, c: bytes, d: bytes)
    ensures a + b + c + d == a + (b + (c + d))
  {
  }

  lemma LinesOfMember(ind: bytes, nl: bytes, key: bytes, colon: bytes, text: bytes, rest: bytes, out: bytes, more: bool, tail: bytes)
    requires !more ==> rest == []
    ensures nl + ((ind + (key + (colon + (text + ((if more then [COMMA] else []) + nl))))) + rest + out) + tail
         == (nl + ind) + (key + (colon + (text + (if more then [COMMA] + (nl + (rest + out) + tail) else (nl + out) + tail))))
  {
  }

  lemma {:induction false} ReindentMembers(ms: seq<Member>, level: nat, slashes: bool, t: bytes)
    requires |ms| > 0
    ensures Lines(MembersText(ms, level, Style(false, slashes)), MembersText(ms, level, Style(true, slashes)), RBRACE, t, level, slashes)
    decreases ms, 0
  {
    hide Text;
    hide StringText;
    hide Reindent;
    hide Line;
    var c, p, more := Style(false, slashes), Style(true, slashes), |ms| > 1;
    var key := StringText(ms[0].key, slashes);
    var text, text' := Text(ms[0].value, level + 1, c), Text(ms[0].value, level + 1, p);
    var rest, rest' := MembersText(ms[1..], level, c), MembersText(ms[1..], level, p);
    var close := [RBRACE] + t;
    var tail := [RBRACE] + Reindent(t, level, false);
    LineIs(level, p);
    LineIs(level + 1, p);
    CompactMember(ms, level, slashes);
    LinesOfMember(Ind(level + 1, p), Nl(p), key, AfterColon(p), text', rest', Ind(level, p), more, tail);
    var behind := if more then [COMMA] + (rest + close) else close;
    assert MembersText(ms, level, c) + close == key + ([COLON] + (text + behind)) by {
      RegroupMember(key, text, more, rest, close);
    }
    ReindentString(ms[0].key, slashes, [COLON] + (text + behind), level + 1);
    ReindentColon(text + behind, level + 1);
    ReindentText(ms[0].value, level + 1, slashes, behind);
    if more {
      ReindentComma(rest + close, level + 1);
      ReindentMembers(ms[1..], level, slashes, t);
    } else {
      ReindentClose(RBRACE, t, level);
    }
  }

  lemma CompactMember(ms: seq<Member>, level: nat, slashes: bool)
    requires |ms| > 0
    ensures var c := Style(false, slashes);
      MembersText(ms, level, c)
        == StringText(ms[0].key, slashes) + ([COLON] + (Text(ms[0].value, level + 1, c) + Sep(|ms| > 1))) + MembersText(ms[1..], level, c)
  {
    hide Text;
    hide StringText;
    var c := Style(false, slashes);
    assert Sep(|ms| > 1) + Nl(c) == Sep(|ms| > 1);
  }

  lemma RegroupMember(key: bytes, text: bytes, more: bool, rest: bytes, close: bytes)
    requires !more ==> rest == []
    ensures key + ([COLON] + (text + Sep(more))) + rest + close
         == key + ([COLON] + (text + (if more then [COMMA] + (rest + close) else close)))
  {
  }

  /** For every tree, pretty text is the compact text broken and indented. */
  lemma PrettyIsReindented(v: Value, slashes: bool)
    ensures Serialize(v, Style(true, slashes)) == Reindent(Serialize(v, Style(false, slashes)), 0, false)
  {
    hide Text;
    ReindentText(v, 0, slashes, []);
    var t, u := Serialize(v, Style(false, slashes)), Serialize(v, Style(true, slashes));
    assert t + [] == t && u + [] == u;
  }

  // ----- Control characters and slashes

  /** Text holds no control character but the line feeds of pretty text, and on
      request no slash without a backslash in front. */
  predicate Printable(t: bytes, st: Style) {
    forall i | 0 <= i < |t| :: (t[i] >= 0x20 || (st.pretty && t[i] == LF)) && (st.slashes ==> Guarded(t, i))
  }

  predicate Guarded(t: bytes, i: nat)
    requires i < |t|
  {
    t[i] == '/' as int ==> i > 0 && t[i - 1] == '\\' as int
  }

  lemma PrintableConcat(a: bytes, b: bytes, st: Style)
    requires Printable(a, st) && Printable(b, st)
    ensures Printable(a + b, st)
  {
    var t := a + b;
    forall i | 0 <= i < |t|
      ensures t[i] >= 0x20 || (st.pretty && t[i] == LF)
      ensures st.slashes ==> Guarded(t, i)
    {
      if i < |a| {
        assert t[i] == a[i] && (st.slashes ==> Guarded(a, i));
        assert i > 0 ==> t[i - 1] == a[i - 1];
      } else {
        assert t[i] == b[i - |a|] && (st.slashes ==> Guarded(b, i - |a|));
        assert i > |a| ==> t[i - 1] == b[i - |a| - 1];
      }
    }
  }

  lemma {:induction false} EscapedIsPrintable(s: bytes, st: Style)
    ensures Printable(EscapeAll(s, st.slashes), st)
  {
    if |s| > 0 {
      EscapedIsPrintable(s[1..], st);
      PrintableConcat(EscapeText(s[0], st.slashes), EscapeAll(s[1..], st.slashes), st);
    }
  }

  lemma StringIsPrintable(s: bytes, st: Style)
    ensures Printable(StringText(s, st.slashes), st)
  {
    EscapedIsPrintable(s, st);
  }

  lemma BreaksArePrintable(level: nat, st: Style, more: bool)
    ensures Printable(Nl(st), st) && Printable(Ind(level, st), st)
    ensures Printable(Sep(more), st) && Printable(AfterColon(st), st)
  {
    IndentIsWhite(level);
  }

  lemma ScalarIsPrintable(v: Value, level: nat, st: Style)
    requires !v.Array? && !v.Object?
    ensures Printable(Text(v, level, st), st)
  {
    match v
    case Number(n) => NumberIsPrintable(n, st);
    case String(s) => StringIsPrintable(s, st);
    case _ =>
  }

  lemma NumberIsPrintable(n: int, st: Style)
    ensures Printable(Decimal.IntText(n), st)
  {
    Decimal.TextIsCanonical(if n < 0 then -n else n);
  }

  lemma BodyIsPrintable(open: byte, empty: bool, a: bytes, close: byte, level: nat, st: Style)
    requires Printable(a, st) && Printable([open], st) && Printable([close], st)
    ensures Printable([open] + ((if empty then [] else Nl(st) + (a + Ind(level, st))) + [close]), st)
  {
    hide Nl;
    hide Ind;
    hide Printable;
    BreaksArePrintable(level, st, false);
    NothingIsPrintable(st);
    PrintableConcat(a, Ind(level, st), st);
    PrintableConcat(Nl(st), a + Ind(level, st), st);
    var inner := if empty then [] else Nl(st) + (a + Ind(level, st));
    PrintableConcat(inner, [close], st);
    PrintableConcat([open], inner + [close], st);
  }

  lemma NothingIsPrintable(st: Style)
    ensures Printable([], st) && Printable([LBRACKET], st) && Printable([RBRACKET], st) && Printable([LBRACE], st) && Printable([RBRACE], st)
  {
  }

  lemma {:induction false} TextIsPrintable(v: Value, level: nat, st: Style)
    ensures Printable(Text(v, level, st), st)
    decreases v, 1
  {
    hide Printable;
    hide Nl;
    hide Ind;
    NothingIsPrintable(st);
    match v
    case Array(xs) =>
      ItemsArePrintable(xs, level, st);
      BodyIsPrintable(LBRACKET, |xs| == 0, ItemsText(xs, level, st), RBRACKET, level, st);
    case Object(ms) =>
      MembersArePrintable(ms, level, st);
      BodyIsPrintable(LBRACE, |ms| == 0, MembersText(ms, level, st), RBRACE, level, st);
    case _ => ScalarIsPrintable(v, level, st);
  }

  lemma {:induction false} ItemsArePrintable(xs: seq<Value>, level: nat, st: Style)
    ensures Printable(ItemsText(xs, level, st), st)
    decreases xs, 0
  {
    hide Printable;
    hide Text;
    hide Nl;
    hide Ind;
    hide Sep;
    NothingIsPrintable(st);
    if |xs| > 0 {
      var more, text := |xs| > 1, Text(xs[0], level + 1, st);
      BreaksArePrintable(level + 1, st, more);
      TextIsPrintable(xs[0], level + 1, st);
      ItemsArePrintable(xs[1..], level, st);
      PrintableConcat(Sep(more), Nl(st), st);
      PrintableConcat(text, Sep(more) + Nl(st), st);
      PrintableConcat(Ind(level + 1, st), text + (Sep(more) + Nl(st)), st);
      PrintableConcat(ItemText(xs[0], more, level, st), ItemsText(xs[1..], level, st), st);
    }
  }

  lemma {:induction false} MembersArePrintable(ms: seq<Member>, level: nat, st: Style)
    ensures Printable(MembersText(ms, level, st), st)
    decreases ms, 0
  {
    hide Printable;
    hide Text;
    hide StringText;
    hide Nl;
    hide Ind;
    hide Sep;
    hide AfterColon;
    NothingIsPrintable(st);
    if |ms| > 0 {
      var more, key, text := |ms| > 1, StringText(ms[0].key, st.slashes), Text(ms[0].value, level + 1, st);
      var a := text + (Sep(more) + Nl(st));
      BreaksArePrintable(level + 1, st, more);
      StringIsPrintable(ms[0].key, st);
      TextIsPrintable(ms[0].value, level + 1, st);
      MembersArePrintable(ms[1..], level, st);
      PrintableConcat(Sep(more), Nl(st), st);
      PrintableConcat(text, Sep(more) + Nl(st), st);
      PrintableConcat(AfterColon(st), a, st);
      PrintableConcat(key, AfterColon(st) + a, st);
      PrintableConcat(Ind(level + 1, st), key + (AfterColon(st) + a), st);
      PrintableConcat(MemberText(ms[0], more, level, st), MembersText(ms[1..], level, st), st);
    }
  }

  /** Compact text is a single line without control characters; pretty text has line
      feeds and no other control character. */
  lemma NoControlCharacters(v: Value, slashes: bool)
    ensures forall b | b in Serialize(v, Style(false, slashes)) :: b >= 0x20
    ensures forall b | b in Serialize(v, Style(true, slashes)) :: b >= 0x20 || b == '\n' as int
  {
    hide Text;
    TextIsPrintable(v, 0, Style(false, slashes));
    TextIsPrintable(v, 0, Style(true, slashes));
  }

  /** With escaped slashes every slash stands behind a backslash. */
  lemma SlashesEscaped(v: Value, pretty: bool, i: nat)
    requires i < |Serialize(v, Style(pretty, true))| && Serialize(v, Style(pretty, true))[i] == '/' as int
    ensures i > 0 && Serialize(v, Style(pretty, true))[i - 1] == '\\' as int
  {
    hide Text;
    TextIsPrintable(v, 0, Style(pretty, true));
    assert Guarded(Serialize(v, Style(pretty, true)), i);
  }

  // ----- Escapes

  /** The bytes with an escape of two characters. */
  const SHORT: map<byte, char> := map[0x22 := '"', 0x5C := '\\', 0x08 := 'b', 0x0C := 'f', 0x0A := 'n', 0x0D := 'r', 0x09 := 't']

  const HEX: string := "0123456789abcdef"

  /** What is written for each byte: the short escape where there is one, a lower-case
      hexadecimal escape for other control characters, an escaped slash on request,
      and otherwise the byte itself. */
  lemma EscapeExactly(b: byte, slashes: bool)
    ensures EscapeText(b, slashes) ==
      if b in SHORT then ['\\' as int, SHORT[b] as int]
      else if b < 0x20 then ['\\' as int, 'u' as int, '0' as int, '0' as int, HEX[b / 0x10] as int, HEX[b % 0x10] as int]
      else if b == '/' as int && slashes then ['\\' as int, '/' as int]
      else [b]
  {
    if b < 0x20 {
      LowerCaseDigit(b / 0x10);
      LowerCaseDigit(b % 0x10);
    }
    hide HexLower;
  }

  lemma LowerCaseDigit(n: nat)
    requires n < 0x10
    ensures HexLower(n) == HEX[n] as int
  {
  }

  /** The names of values as they stand in a text. */
  lemma ValueNames()
    ensures NULL_TEXT == Ascii("null") && TRUE_TEXT == Ascii("true") && FALSE_TEXT == Ascii("false")
  {
    assert Ascii("null")[0] == 'n' as int && Ascii("true")[0] == 't' as int && Ascii("false")[0] == 'f' as int;
  }
}
