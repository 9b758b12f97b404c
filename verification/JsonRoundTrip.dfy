/** Parsing undoes serializing, in every style and at every size. */
module JsonRoundTrip {
  import opened Bytes
  import opened JsonValues
  import opened JsonGrammar
  import opened JsonParser
  import opened JsonParserComplete
  import opened JsonParserExact
  import opened JsonText

  /** A serialized value is read back wherever it stands in a text, provided that
      what follows cannot be taken for more digits. */
  lemma ReadBack(v: Value, level: nat, st: Style, post: bytes, nesting: nat)
    requires WellFormed(v) && nesting + Depth(v) <= MAX_NESTING
    requires v.Number? ==> NumberEnds(v.n, post)
    ensures ParseValue(Text(v, level, st) + post, nesting) == Ok(v, post)
  {
    LayoutDenotes(v, level, st);
    TextSpells(v, level, st, post);
    ParseComplete(Layout(v, level, st), post, nesting);
  }

  lemma NoByteOrderMark(v: Value, st: Style)
    requires WellFormed(v)
    ensures |Serialize(v, st)| > 0 && Serialize(v, st)[0] < 0x80
  {
    LayoutDenotes(v, 0, st);
    TextSpells(v, 0, st, []);
    FirstByte(Layout(v, 0, st), []);
    assert Serialize(v, st) + [] == Serialize(v, st);
  }

  /** The round trip: for every tree of distinct, NUL-free names and every style,
      parsing the serialized text gives back the same tree, members and items in
      order, exactly when the tree is nested at most MAX_NESTING deep. */
  lemma RoundTrip(v: Value, st: Style)
    requires WellFormed(v)
    ensures ParseText(Serialize(v, st)) == Ok(v, []) <==> Depth(v) <= MAX_NESTING
  {
    hide ParseValue;
    hide Text;
    var t := Serialize(v, st);
    NoByteOrderMark(v, st);
    assert t + [] == t;
    assert !StartsWith(t, [0xEF, 0xBB, 0xBF]);
    if Depth(v) <= MAX_NESTING {
      ReadBack(v, 0, st, [], 0);
    }
    if ParseValue(t, 0) == Ok(v, []) {
      ParsedIsWellFormed(t, 0);
    }
  }

  /** Pretty and compact text, with or without escaped slashes, mean the same. */
  lemma StylesAgree(v: Value, st: Style, st': Style)
    requires WellFormed(v) && Depth(v) <= MAX_NESTING
    ensures ParseText(Serialize(v, st)) == ParseText(Serialize(v, st'))
  {
    RoundTrip(v, st);
    RoundTrip(v, st');
  }

  /** For any accepted text, serializing the tree gives a text that parses to the
      same tree, and serializing that again changes nothing. */
  lemma NormalForm(t: bytes, st: Style)
    requires ParseText(t).Ok?
    ensures var v := ParseText(t).value;
      && ParseText(Serialize(v, st)) == Ok(v, [])
      && Serialize(ParseText(Serialize(v, st)).value, st) == Serialize(v, st)
  {
    hide ParseValue;
    hide Text;
    var u := if StartsWith(t, [0xEF, 0xBB, 0xBF]) then t[3..] else t;
    ParsedIsWellFormed(u, 0);
    RoundTrip(ParseText(t).value, st);
  }

  // ----- The nesting limit

  /** n brackets and what closes them. */
  function Brackets(n: nat): bytes
    requires n > 0
  {
    if n == 1 then Ascii("[]") else Ascii("[") + (Brackets(n - 1) + Ascii("]"))
  }

  function Nested(n: nat): Value
    requires n > 0
  {
    if n == 1 then Array([]) else Array([Nested(n - 1)])
  }

  lemma {:induction false} NestedParse(n: nat, nesting: nat, post: bytes)
    requires n > 0
    ensures ParseValue(Brackets(n) + post, nesting) == if nesting + n - 1 <= MAX_NESTING then Ok(Nested(n), post) else Err(Malformed)
    decreases n
  {
    hide ParseItems;
    var t := Brackets(n) + post;
    assert Ascii("[]") == [LBRACKET, RBRACKET] && Ascii("[") == [LBRACKET] && Ascii("]") == [RBRACKET];
    assert t[0] == LBRACKET && SkipSpace(t) == t;
    if n == 1 {
      assert t[1..] == [RBRACKET] + post && SkipSpace(t[1..]) == t[1..] && t[1..][1..] == post;
    } else {
      var inner := Brackets(n - 1) + ([RBRACKET] + post);
      assert t[1..] == inner && inner[0] == LBRACKET && SkipSpace(inner) == inner;
      NestedParse(n - 1, nesting + 1, [RBRACKET] + post);
      OneItem(inner, nesting + 1, Nested(n - 1), post);
    }
  }

  /** The loop over items with a single one. */
  lemma OneItem(t: bytes, nesting: nat, v: Value, post: bytes)
    requires Peek(t) != NUL
    ensures ParseValue(t, nesting) == Ok(v, [RBRACKET] + post) ==> ParseItems(t, nesting, []) == Ok(Array([v]), post)
    ensures ParseValue(t, nesting).Err? ==> ParseItems(t, nesting, []) == ParseValue(t, nesting)
  {
    hide ParseValue;
    var w := [RBRACKET] + post;
    assert SkipSpace(w) == w && w[1..] == post && [] + [v] == [v];
  }

  /** Arrays may be nested 2049 deep and no deeper, the innermost one being empty. */
  lemma NestingLimit(n: nat)
    requires n > 0
    ensures ParseText(Brackets(n)) == if n <= 2049 then Ok(Nested(n), []) else Err(Malformed)
  {
    hide ParseValue;
    NestedParse(n, 0, []);
    assert Brackets(n) + [] == Brackets(n);
    assert Brackets(n)[0] == LBRACKET;
  }
}
