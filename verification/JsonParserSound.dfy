/** Every accepted text is a text of the grammar, and denotes the value returned. */
module JsonParserSound {
  import opened Bytes
  import opened JsonStrings
  import opened JsonValues
  import opened JsonGrammar
  import opened JsonParser
  import Decimal

  /** c spells the text t up to next, and denotes the well-formed value v. */
  ghost predicate Derives(t: bytes, c: Syntax, v: Value, next: bytes, nesting: nat) {
    && Valid(c) && Ends(c, next)
    && t == Spell(c, next)
    && Eval(c) == v && WellFormed(v)
    && nesting + Depth(v) <= MAX_NESTING
  }

  lemma DigitsSound(body: bytes)
    requires Decimal.DigitRun(body) == 1 || (Decimal.DigitRun(body) > 1 && body[0] != Decimal.ZERO)
    ensures var k := Decimal.DigitRun(body);
      body == Decimal.NatText(Decimal.ValueOf(body[..k])) + body[k..]
      && (Decimal.ValueOf(body[..k]) == 0 ==> body[..k] == [Decimal.ZERO])
  {
    hide Decimal.ValueOf;
    hide Decimal.NatText;
    var k := Decimal.DigitRun(body);
    Rejoin(body, k);
    Decimal.TextOfValue(body[..k]);
    Decimal.TextIsCanonical(Decimal.ValueOf(body[..k]));
  }

  /** A number without its minus sign. */
  function Body(t: bytes): bytes {
    if Peek(t) == MINUS then t[1..] else t
  }

  lemma NumberParts(t: bytes, n: int)
    requires Decimal.IsDigit(Peek(Body(t))) && ParseNumber(t).Ok? && ParseNumber(t).value == Number(n)
    ensures var k := Decimal.DigitRun(Body(t));
      && (k == 1 || (k > 1 && Body(t)[0] != Decimal.ZERO))
      && ParseNumber(t).next == Body(t)[k..]
      && (if Peek(t) == MINUS then n < 0 && -n == Decimal.ValueOf(Body(t)[..k]) else n == Decimal.ValueOf(Body(t)[..k]))
      && -MAX_INTEGER <= n <= MAX_INTEGER
      && (k < |Body(t)| ==> !Continues(Body(t)[..k], Body(t)[k]))
  {
    hide Decimal.ValueOf;
    assert Decimal.DigitRun(Body(t)) > 0;
  }

  lemma NumberSound(t: bytes, n: int)
    requires Decimal.IsDigit(Peek(Body(t))) && ParseNumber(t).Ok? && ParseNumber(t).value == Number(n)
    ensures -MAX_INTEGER <= n <= MAX_INTEGER
    ensures t == Decimal.IntText(n) + ParseNumber(t).next
    ensures NumberEnds(n, ParseNumber(t).next)
  {
    hide Decimal.ValueOf;
    hide Decimal.NatText;
    hide ParseNumber;
    hide Decimal.DigitRun;
    NumberParts(t, n);
    DigitsSound(Body(t));
    if Peek(t) == MINUS {
      HeadTail(t);
      Assoc([MINUS], Decimal.NatText(-n), ParseNumber(t).next);
    }
  }

  lemma TokenSound(t: bytes, token: bytes, v: Value)
    requires ParseToken(t, token, v).Ok?
    ensures t == token + ParseToken(t, token, v).next
  {
    Rejoin(t, |token|);
  }

  lemma ScalarSound(u: bytes, nesting: nat) returns (c: Syntax)
    requires SkipSpace(u) == u && !BareMinus(u)
    requires Peek(u) != LBRACE && Peek(u) != LBRACKET
    requires ParseValue(u, nesting).Ok?
    ensures Derives(u, c, ParseValue(u, nesting).value, ParseValue(u, nesting).next, nesting)
  {
    hide GetQuoted;
    hide ParseNumber;
    var b := Peek(u);
    if b == QUOTE {
      var ps := QuotedSound(u);
      c := SString(ps);
    } else if b == 0x66 {
      TokenSound(u, FALSE_TEXT, Bool(false));
      c := SBool(false);
    } else if b == 0x74 {
      TokenSound(u, TRUE_TEXT, Bool(true));
      c := SBool(true);
    } else if b == 0x6E {
      TokenSound(u, NULL_TEXT, Null);
      c := SNull;
    } else {
      NumberValue(u);
      var n := ParseValue(u, nesting).value.n;
      NumberSound(u, n);
      c := SNumber(n);
    }
  }

  lemma NumberValue(t: bytes)
    requires |t| > 0 && ParseNumber(t).Ok?
    ensures ParseNumber(t).value.Number?
  {
  }

  lemma SkipSpaceTwice(t: bytes)
    ensures SkipSpace(SkipSpace(t)) == SkipSpace(t)
  {
  }

  /** Soundness: an accepted text is white space, a text of the grammar and the
      rest; the value returned is the one denoted, its names are distinct C
      strings and its nesting is within the limit. The one exception is a bare
      minus sign, which strtod reads as nothing. */
  lemma {:induction false} ParseSound(t: bytes, nesting: nat) returns (ws: bytes, c: Syntax)
    requires ParseValue(t, nesting).Ok? && !BareMinus(t)
    ensures AllSpace(ws) && t == ws + SkipSpace(t)
    ensures Derives(SkipSpace(t), c, ParseValue(t, nesting).value, ParseValue(t, nesting).next, nesting)
    decreases |t|, 1
  {
    ws := SkipSpaceSplit(t);
    var u := SkipSpace(t);
    SkipSpaceTwice(t);
    if Peek(u) == LBRACE {
      c := ObjectSound(u, nesting + 1);
    } else if Peek(u) == LBRACKET {
      c := ArraySound(u, nesting + 1);
    } else {
      c := ScalarSound(u, nesting);
    }
  }

  lemma {:induction false} ArraySound(u: bytes, nesting: nat) returns (c: Syntax)
    requires Peek(u) == LBRACKET && 0 < nesting <= MAX_NESTING + 1
    requires ParseArray(u, nesting).Ok?
    ensures Derives(u, c, ParseArray(u, nesting).value, ParseArray(u, nesting).next, nesting - 1)
    decreases |u|, 0
  {
    hide ParseItems;
    hide SpellElems;
    hide EvalElems;
    HeadTail(u);
    var t := SkipSpace(u[1..]);
    if Peek(t) == RBRACKET {
      var ws := SkipSpaceSplit(u[1..]);
      HeadTail(t);
      c := EmptyArray(ws, t[1..]);
    } else {
      var es := ItemsSound(u[1..], nesting, []);
      assert [] + EvalElems(es) == EvalElems(es);
      c := SArray([], es);
    }
  }

  lemma EmptyArray(ws: bytes, next: bytes) returns (c: Syntax)
    requires AllSpace(ws)
    ensures c == SArray(ws, []) && Valid(c) && Eval(c) == Array([])
    ensures Spell(c, next) == [LBRACKET] + (ws + ([RBRACKET] + next))
  {
    c := SArray(ws, []);
  }

  lemma EmptyObject(ws: bytes, next: bytes) returns (c: Syntax)
    requires AllSpace(ws)
    ensures c == SObject(ws, []) && Valid(c) && Eval(c) == Object([])
    ensures Spell(c, next) == [LBRACE] + (ws + ([RBRACE] + next))
  {
    c := SObject(ws, []);
  }

  lemma {:induction false} ObjectSound(u: bytes, nesting: nat) returns (c: Syntax)
    requires Peek(u) == LBRACE && 0 < nesting <= MAX_NESTING + 1
    requires ParseObject(u, nesting).Ok?
    ensures Derives(u, c, ParseObject(u, nesting).value, ParseObject(u, nesting).next, nesting - 1)
    decreases |u|, 0
  {
    hide ParseMembers;
    hide SpellFields;
    hide EvalFields;
    HeadTail(u);
    var t := SkipSpace(u[1..]);
    if Peek(t) == RBRACE {
      var ws := SkipSpaceSplit(u[1..]);
      HeadTail(t);
      c := EmptyObject(ws, t[1..]);
    } else {
      var fs := MembersSound(u[1..], nesting, []);
      assert [] + EvalFields(fs) == EvalFields(fs);
      c := SObject([], fs);
    }
  }

  /** A bare minus is no element: what follows it is the minus itself. */
  lemma BareMinusStays(t: bytes, nesting: nat)
    requires BareMinus(t) && ParseValue(t, nesting).Ok?
    ensures Peek(SkipSpace(ParseValue(t, nesting).next)) == MINUS
  {
    SkipSpaceTwice(t);
    var u := SkipSpace(t);
    assert Decimal.DigitRun(u[1..]) == 0;
  }

  lemma ParseSkipsSpace(x: bytes, nesting: nat)
    ensures ParseValue(SkipSpace(x), nesting) == ParseValue(x, nesting)
  {
    SkipSpaceTwice(x);
  }

  lemma {:induction false} ItemsSound(x: bytes, nesting: nat, acc: seq<Value>) returns (es: seq<Elem>)
    requires ParseItems(SkipSpace(x), nesting, acc).Ok?
    ensures |es| > 0 && ValidElems(es)
    ensures x == SpellElems(es, ParseItems(SkipSpace(x), nesting, acc).next)
    ensures ParseItems(SkipSpace(x), nesting, acc).value == Array(acc + EvalElems(es))
    ensures WellFormed(Array(EvalElems(es))) && nesting + DepthItems(EvalElems(es)) <= MAX_NESTING + 1
    decreases |x|, 3
  {
    hide ParseValue;
    hide Eval;
    hide Spell;
    var r := ParseItems(SkipSpace(x), nesting, acc);
    ParseSkipsSpace(x, nesting);
    var e, tail := ElementSound(x, nesting);
    HeadTail(tail);
    if Peek(tail) == COMMA {
      var rest := ItemsSound(tail[1..], nesting, acc + [Eval(e.c)]);
      es := ElemsCons(e, rest, r.next, acc);
    } else {
      es := [e];
      OneElement(e, r.next);
    }
  }

  lemma OneElement(e: Elem, post: bytes)
    requires AllSpace(e.pre) && AllSpace(e.post) && Valid(e.c)
    ensures ValidElems([e]) && EvalElems([e]) == [Eval(e.c)]
    ensures SpellElems([e], post) == e.pre + Spell(e.c, e.post + ([RBRACKET] + post))
    ensures DepthItems([Eval(e.c)]) == 1 + Depth(Eval(e.c))
  {
    assert [e][1..] == [] && [Eval(e.c)][1..] == [];
  }

  /** A value with the white space around it, up to the separator behind it. */
  lemma {:induction false} ElementSound(x: bytes, nesting: nat) returns (e: Elem, tail: bytes)
    requires ParseValue(x, nesting).Ok?
    requires Peek(SkipSpace(ParseValue(x, nesting).next)) != MINUS
    ensures AllSpace(e.pre) && AllSpace(e.post) && Valid(e.c)
    ensures Eval(e.c) == ParseValue(x, nesting).value
    ensures WellFormed(Eval(e.c)) && nesting + Depth(Eval(e.c)) <= MAX_NESTING
    ensures tail == SkipSpace(ParseValue(x, nesting).next)
    ensures x == e.pre + Spell(e.c, e.post + tail)
    decreases |x|, 2
  {
    hide Spell;
    hide ParseValue;
    hide Eval;
    if BareMinus(x) {
      BareMinusStays(x, nesting);
    }
    var next := ParseValue(x, nesting).next;
    var pre, c := ParseSound(x, nesting);
    var post := SkipSpaceSplit(next);
    tail := SkipSpace(next);
    e := Elem(pre, c, post);
  }

  lemma ElemsCons(e: Elem, rest: seq<Elem>, post: bytes, acc: seq<Value>) returns (es: seq<Elem>)
    requires AllSpace(e.pre) && AllSpace(e.post) && Valid(e.c)
    requires |rest| > 0 && ValidElems(rest)
    ensures |es| > 0 && ValidElems(es)
    ensures SpellElems(es, post) == e.pre + Spell(e.c, e.post + ([COMMA] + SpellElems(rest, post)))
    ensures EvalElems(es) == [Eval(e.c)] + EvalElems(rest)
    ensures acc + EvalElems(es) == acc + [Eval(e.c)] + EvalElems(rest)
    ensures DepthItems(EvalElems(es)) == Max(1 + Depth(Eval(e.c)), DepthItems(EvalElems(rest)))
  {
    hide Spell;
    es := [e] + rest;
    assert es[1..] == rest;
    assert EvalElems(es)[1..] == EvalElems(rest);
  }

  lemma {:induction false} MembersSound(x: bytes, nesting: nat, acc: seq<Member>) returns (fs: seq<Field>)
    requires WellFormed(Object(acc))
    requires ParseMembers(SkipSpace(x), nesting, acc).Ok?
    ensures |fs| > 0 && ValidFields(fs)
    ensures x == SpellFields(fs, ParseMembers(SkipSpace(x), nesting, acc).next)
    ensures ParseMembers(SkipSpace(x), nesting, acc).value == Object(acc + EvalFields(fs))
    ensures WellFormed(Object(acc + EvalFields(fs)))
    ensures nesting + DepthMembers(EvalFields(fs)) <= MAX_NESTING + 1
    decreases |x|, 3
  {
    hide GetQuoted;
    hide ParseValue;
    hide Eval;
    hide Spell;
    hide SpellFields;
    hide QuotedText;
    var r := ParseMembers(SkipSpace(x), nesting, acc);
    var ps, pre, mid, colon := NameSound(x);
    var e, tail := ElementSound(colon[1..], nesting);
    var f := Field(pre, ps, mid, e);
    var m := Member(PiecesValue(ps), Eval(e.c));
    HeadTail(tail);
    HeadTail(colon);
    ObjectGrows(acc, m);
    if Peek(tail) == COMMA {
      var rest := MembersSound(tail[1..], nesting, acc + [m]);
      fs := FieldsCons(f, rest, r.next, acc);
    } else {
      fs := [f];
      OneField(f, r.next);
    }
  }

  /** A name and the colon behind it. */
  lemma NameSound(x: bytes) returns (ps: seq<Piece>, pre: bytes, mid: bytes, colon: bytes)
    requires GetQuoted(SkipSpace(x)).Quoted?
    ensures AllSpace(pre) && AllSpace(mid) && PiecesValid(ps)
    ensures PiecesValue(ps) == GetQuoted(SkipSpace(x)).text
    ensures colon == SkipSpace(GetQuoted(SkipSpace(x)).next) && |colon| < |x|
    ensures x == pre + QuotedText(ps, mid + colon)
  {
    hide GetQuoted;
    hide QuotedText;
    pre := SkipSpaceSplit(x);
    ps := QuotedSound(SkipSpace(x));
    mid := SkipSpaceSplit(GetQuoted(SkipSpace(x)).next);
    colon := SkipSpace(GetQuoted(SkipSpace(x)).next);
  }

  lemma ObjectGrows(acc: seq<Member>, m: Member)
    requires WellFormed(Object(acc)) && WellFormed(m.value)
    requires NUL !in m.key && !HasKey(acc, m.key)
    ensures WellFormed(Object(acc + [m]))
  {
  }

  lemma OneField(f: Field, post: bytes)
    requires FieldValid(f)
    ensures ValidFields([f]) && EvalFields([f]) == [Member(PiecesValue(f.key), Eval(f.val.c))]
    ensures SpellFields([f], post)
         == f.pre + QuotedText(f.key, f.mid + ([COLON] + (f.val.pre + Spell(f.val.c, f.val.post + ([RBRACE] + post)))))
    ensures DepthMembers(EvalFields([f])) == 1 + Depth(Eval(f.val.c))
  {
    assert [f][1..] == [];
    assert EvalFields([f])[1..] == [];
    assert FieldsTail([f], post) == [RBRACE] + post;
    assert SpellVal([f], post) == f.val.pre + Spell(f.val.c, f.val.post + ([RBRACE] + post));
  }

  lemma FieldsCons(f: Field, rest: seq<Field>, post: bytes, acc: seq<Member>) returns (fs: seq<Field>)
    requires FieldValid(f)
    requires |rest| > 0 && ValidFields(rest)
    ensures |fs| > 0 && ValidFields(fs)
    ensures SpellFields(fs, post)
         == f.pre + QuotedText(f.key, f.mid + ([COLON] + (f.val.pre + Spell(f.val.c, f.val.post + ([COMMA] + SpellFields(rest, post))))))
    ensures acc + EvalFields(fs) == acc + [Member(PiecesValue(f.key), Eval(f.val.c))] + EvalFields(rest)
    ensures DepthMembers(EvalFields(fs)) == Max(1 + Depth(Eval(f.val.c)), DepthMembers(EvalFields(rest)))
  {
    fs := [f] + rest;
    assert fs[1..] == rest;
    assert EvalFields(fs)[1..] == EvalFields(rest);
    assert FieldsTail(fs, post) == [COMMA] + SpellFields(rest, post);
    assert SpellVal(fs, post) == f.val.pre + Spell(f.val.c, f.val.post + ([COMMA] + SpellFields(rest, post)));
  }
}
