/** Every text of the grammar is parsed to the value it denotes. */
module JsonParserComplete {
  import opened Bytes
  import opened JsonStrings
  import opened JsonValues
  import opened JsonGrammar
  import opened JsonParser
  import Decimal

  lemma NumberComplete(n: int, post: bytes)
    requires -MAX_INTEGER <= n <= MAX_INTEGER
    requires NumberEnds(n, post)
    ensures ParseNumber(Decimal.IntText(n) + post) == Ok(Number(n), post)
  {
    hide Decimal.ValueOf;
    hide Decimal.NatText;
    hide Decimal.DigitRun;
    var m := if n < 0 then -n else n;
    var digits := Decimal.NatText(m);
    Decimal.TextIsCanonical(m);
    Decimal.DigitRunOf(digits, post);
    Splits(digits, post);
    if n < 0 {
      Assoc([MINUS], digits, post);
      Splits([MINUS], digits + post);
    } else {
      assert (digits + post)[0] == digits[0];
    }
  }

  lemma TokenComplete(token: bytes, v: Value, post: bytes)
    ensures ParseToken(token + post, token, v) == Ok(v, post)
  {
    Splits(token, post);
  }

  /** White space in front of a value is skipped. */
  lemma LeadingSpace(ws: bytes, t: bytes, nesting: nat)
    requires AllSpace(ws) && !IsSpace(Peek(t))
    ensures ParseValue(ws + t, nesting) == ParseValue(t, nesting)
  {
    SkipSpacePrefix(ws, t);
    SkipSpacePrefix([], t);
    assert [] + t == t;
  }

  /** What stands behind an element ends a number. */
  lemma ElementEnds(c: Syntax, ws: bytes, tail: bytes)
    requires AllSpace(ws)
    requires Peek(tail) == COMMA || Peek(tail) == RBRACKET || Peek(tail) == RBRACE
    ensures Ends(c, ws + tail)
  {
    if |ws| > 0 {
      assert (ws + tail)[0] == ws[0] && IsSpace(ws[0]);
    } else {
      assert ws + tail == tail;
    }
  }

  ghost predicate Fits(c: Syntax, nesting: nat) {
    Valid(c) && WellFormed(Eval(c)) && nesting + Depth(Eval(c)) <= MAX_NESTING
  }

  lemma ScalarComplete(c: Syntax, post: bytes, nesting: nat)
    requires Fits(c, nesting) && Ends(c, post) && !c.SArray? && !c.SObject?
    ensures ParseValue(Spell(c, post), nesting) == Ok(Eval(c), post)
  {
    hide GetQuoted;
    hide ParseNumber;
    FirstByte(c, post);
    assert SkipSpace(Spell(c, post)) == Spell(c, post);
    match c
    case SNull => TokenComplete(NULL_TEXT, Null, post);
    case SBool(b) => TokenComplete(if b then TRUE_TEXT else FALSE_TEXT, Bool(b), post);
    case SNumber(n) => NumberComplete(n, post);
    case SString(ps) => QuotedComplete(ps, post);
  }

  /** Completeness: whatever its white space and escapes, a text that denotes a
      well-formed value within the nesting limit is parsed to that value, and
      the cursor is left exactly behind it. */
  lemma {:induction false} ParseComplete(c: Syntax, post: bytes, nesting: nat)
    requires Fits(c, nesting) && Ends(c, post)
    ensures ParseValue(Spell(c, post), nesting) == Ok(Eval(c), post)
    decreases c, 1
  {
    if c.SArray? || c.SObject? {
      hide ParseArray;
      hide ParseObject;
      hide Spell;
      FirstByte(c, post);
      assert SkipSpace(Spell(c, post)) == Spell(c, post);
      if c.SArray? {
        ArrayComplete(c, post, nesting + 1);
      } else {
        ObjectComplete(c, post, nesting + 1);
      }
    } else {
      ScalarComplete(c, post, nesting);
    }
  }

  lemma {:induction false} ArrayComplete(c: Syntax, post: bytes, nesting: nat)
    requires c.SArray? && nesting > 0 && Fits(c, nesting - 1)
    ensures Peek(Spell(c, post)) == LBRACKET && ParseArray(Spell(c, post), nesting) == Ok(Eval(c), post)
    decreases c, 0
  {
    if |c.elems| == 0 {
      Splits([LBRACKET], c.ws + ([RBRACKET] + post));
      SkipSpacePrefix(c.ws, [RBRACKET] + post);
      Splits([RBRACKET], post);
    } else {
      Splits([LBRACKET], SpellElems(c.elems, post));
      ItemsComplete(c.elems, post, nesting, []);
      assert [] + EvalElems(c.elems) == EvalElems(c.elems);
    }
  }

  lemma {:induction false} ObjectComplete(c: Syntax, post: bytes, nesting: nat)
    requires c.SObject? && nesting > 0 && Fits(c, nesting - 1)
    ensures Peek(Spell(c, post)) == LBRACE && ParseObject(Spell(c, post), nesting) == Ok(Eval(c), post)
    decreases c, 0
  {
    if |c.fields| == 0 {
      Splits([LBRACE], c.ws + ([RBRACE] + post));
      SkipSpacePrefix(c.ws, [RBRACE] + post);
      Splits([RBRACE], post);
    } else {
      Splits([LBRACE], SpellFields(c.fields, post));
      assert [] + EvalFields(c.fields) == EvalFields(c.fields);
      MembersComplete(c.fields, post, nesting, []);
    }
  }

  lemma {:induction false} ItemsComplete(es: seq<Elem>, post: bytes, nesting: nat, acc: seq<Value>)
    requires |es| > 0 && ValidElems(es) && WellFormed(Array(EvalElems(es)))
    requires nesting + DepthItems(EvalElems(es)) <= MAX_NESTING + 1
    ensures Peek(SkipSpace(SpellElems(es, post))) != RBRACKET
    ensures ParseItems(SkipSpace(SpellElems(es, post)), nesting, acc) == Ok(Array(acc + EvalElems(es)), post)
    decreases es, 1
  {
    hide ParseItems;
    hide SpellElems;
    var x, xs := Eval(es[0].c), EvalElems(es);
    assert xs[0] == x && WellFormed(xs[0]);
    ItemStep(es, post, nesting, acc);
    if |es| == 1 {
      assert acc + xs == acc + [x];
    } else {
      assert xs[1..] == EvalElems(es[1..]);
      ItemsComplete(es[1..], post, nesting, acc + [x]);
      assert acc + xs == acc + [x] + EvalElems(es[1..]);
    }
  }

  /** One turn of the loop of `parse_array_value`. */
  lemma {:induction false} ItemStep(es: seq<Elem>, post: bytes, nesting: nat, acc: seq<Value>)
    requires |es| > 0 && ValidElems(es) && Fits(es[0].c, nesting)
    ensures Peek(SkipSpace(SpellElems(es, post))) != RBRACKET
    ensures ParseItems(SkipSpace(SpellElems(es, post)), nesting, acc)
         == if |es| == 1 then Ok(Array(acc + [Eval(es[0].c)]), post)
            else ParseItems(SkipSpace(SpellElems(es[1..], post)), nesting, acc + [Eval(es[0].c)])
    decreases es, 0
  {
    hide Eval;
    var e, tail := es[0], ElemsTail(es, post);
    FirstByte(e.c, e.post + tail);
    SkipSpacePrefix(e.pre, Spell(e.c, e.post + tail));
    ElementEnds(e.c, e.post, tail);
    ParseComplete(e.c, e.post + tail, nesting);
    SkipSpacePrefix(e.post, tail);
    if |es| == 1 {
      Splits([RBRACKET], post);
    } else {
      Splits([COMMA], SpellElems(es[1..], post));
    }
  }

  lemma {:induction false} MembersComplete(fs: seq<Field>, post: bytes, nesting: nat, acc: seq<Member>)
    requires |fs| > 0 && ValidFields(fs) && WellFormed(Object(acc + EvalFields(fs)))
    requires nesting + DepthMembers(EvalFields(fs)) <= MAX_NESTING + 1
    ensures Peek(SkipSpace(SpellFields(fs, post))) != RBRACE
    ensures ParseMembers(SkipSpace(SpellFields(fs, post)), nesting, acc) == Ok(Object(acc + EvalFields(fs)), post)
    decreases fs, 1
  {
    hide ParseMembers;
    hide SpellFields;
    var m, ms := Member(PiecesValue(fs[0].key), Eval(fs[0].val.c)), EvalFields(fs);
    assert ms[0] == m;
    FreshName(acc, ms);
    MemberStep(fs, post, nesting, acc, m);
    if |fs| == 1 {
      assert acc + ms == acc + [m];
    } else {
      assert ms[1..] == EvalFields(fs[1..]);
      assert acc + ms == acc + [m] + EvalFields(fs[1..]);
      MembersComplete(fs[1..], post, nesting, acc + [m]);
    }
  }

  /** One turn of the loop of `parse_object_value`. */
  lemma {:induction false} MemberStep(fs: seq<Field>, post: bytes, nesting: nat, acc: seq<Member>, m: Member)
    requires |fs| > 0 && ValidFields(fs) && FieldValid(fs[0]) && Fits(fs[0].val.c, nesting)
    requires m == Member(PiecesValue(fs[0].key), Eval(fs[0].val.c))
    requires !HasKey(acc, m.key) && NUL !in m.key
    ensures Peek(SkipSpace(SpellFields(fs, post))) != RBRACE
    ensures ParseMembers(SkipSpace(SpellFields(fs, post)), nesting, acc)
         == if |fs| == 1 then Ok(Object(acc + [m]), post)
            else ParseMembers(SkipSpace(SpellFields(fs[1..], post)), nesting, acc + [m])
    decreases fs, 0
  {
    hide GetQuoted;
    hide Eval;
    var f, tail := fs[0], FieldsTail(fs, post);
    var behind := f.mid + ([COLON] + SpellVal(fs, post));
    SkipSpacePrefix(f.pre, QuotedText(f.key, behind));
    QuotedComplete(f.key, behind);
    SkipSpacePrefix(f.mid, [COLON] + SpellVal(fs, post));
    Splits([COLON], SpellVal(fs, post));
    ValueComplete(f.val, tail, nesting);
    SkipSpacePrefix(f.val.post, tail);
    if |fs| == 1 {
      Splits([RBRACE], post);
    } else {
      Splits([COMMA], SpellFields(fs[1..], post));
    }
  }

  lemma FreshName(acc: seq<Member>, ms: seq<Member>)
    requires |ms| > 0 && WellFormed(Object(acc + ms))
    ensures !HasKey(acc, ms[0].key) && NUL !in ms[0].key && WellFormed(ms[0].value)
  {
    var all := acc + ms;
    assert all[|acc|] == ms[0];
    forall i | 0 <= i < |acc| ensures acc[i].key != ms[0].key {
      assert all[i] == acc[i];
    }
  }

  /** A value with white space around it, up to the separator behind it. */
  lemma {:induction false} ValueComplete(e: Elem, tail: bytes, nesting: nat)
    requires AllSpace(e.pre) && AllSpace(e.post) && Fits(e.c, nesting)
    requires Peek(tail) == COMMA || Peek(tail) == RBRACKET || Peek(tail) == RBRACE
    ensures ParseValue(e.pre + Spell(e.c, e.post + tail), nesting) == Ok(Eval(e.c), e.post + tail)
    decreases e
  {
    FirstByte(e.c, e.post + tail);
    LeadingSpace(e.pre, Spell(e.c, e.post + tail), nesting);
    ElementEnds(e.c, e.post, tail);
    ParseComplete(e.c, e.post + tail, nesting);
  }
}
