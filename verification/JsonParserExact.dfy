/** The language parson accepts, stated as an equivalence. */
module JsonParserExact {
  import opened Bytes
  import opened JsonValues
  import opened JsonGrammar
  import opened JsonParser
  import opened JsonParserComplete
  import opened JsonParserSound
  import Decimal

  /** For every text, nesting level, value and rest: the parser returns the value
      and stops at the rest exactly when, behind leading white space, the text is
      spelled by the grammar, denotes that value, has distinct NUL-free names in
      each object and stays within the nesting limit. The one text it accepts
      outside the grammar is a minus sign that starts no number, which is read as 0
      without being consumed. */
  lemma ParserExact(t: bytes, nesting: nat, v: Value, next: bytes)
    ensures ParseValue(t, nesting) == Ok(v, next)
       <==> if BareMinus(t) then nesting <= MAX_NESTING && StartsNoNumber(t) && v == Number(0) && next == SkipSpace(t)
            else exists c :: Derives(SkipSpace(t), c, v, next, nesting)
  {
    if BareMinus(t) {
      BareMinusExactly(t, nesting);
    } else {
      GrammarExactly(t, nesting, v, next);
    }
  }

  /** What follows the minus sign is neither a fraction nor an infinity or NaN. */
  predicate StartsNoNumber(t: bytes)
    requires BareMinus(t)
  {
    !BareFraction(SkipSpace(t)[1..]) && !NotFinite(SkipSpace(t)[1..])
  }

  lemma BareMinusExactly(t: bytes, nesting: nat)
    requires BareMinus(t)
    ensures ParseValue(t, nesting) == (if nesting > MAX_NESTING then Err(Malformed)
                                       else if StartsNoNumber(t) then Ok(Number(0), SkipSpace(t))
                                       else if BareFraction(SkipSpace(t)[1..]) then Err(UnmodelledNumber)
                                       else Err(Malformed))
  {
    var u := SkipSpace(t);
    assert Decimal.DigitRun(u[1..]) == 0;
    assert u[1..][0..] == u[1..];
  }

  /** Case is ignored in "inf" and "nan". */
  lemma NotFiniteExactly(t: bytes)
    ensures NotFinite(t) <==> |t| >= 3 && (Lower(t[..3]) == Ascii("inf") || Lower(t[..3]) == Ascii("nan"))
  {
    if |t| >= 3 {
      var u := Lower(t[..3]);
      assert u[0] == LowerCase(t[0]) && u[1] == LowerCase(t[1]) && u[2] == LowerCase(t[2]);
      assert Ascii("inf") == [0x69, 0x6E, 0x66] && Ascii("nan") == [0x6E, 0x61, 0x6E];
    }
  }

  lemma GrammarExactly(t: bytes, nesting: nat, v: Value, next: bytes)
    requires !BareMinus(t)
    ensures ParseValue(t, nesting) == Ok(v, next)
       <==> exists c :: Derives(SkipSpace(t), c, v, next, nesting)
  {
    hide ParseValue;
    hide Spell;
    if ParseValue(t, nesting) == Ok(v, next) {
      var ws, c := ParseSound(t, nesting);
      assert Derives(SkipSpace(t), c, v, next, nesting);
    }
    if exists c :: Derives(SkipSpace(t), c, v, next, nesting) {
      var c :| Derives(SkipSpace(t), c, v, next, nesting);
      ParseComplete(c, next, nesting);
      ParseSkipsSpace(t, nesting);
    }
  }

  /** Since nothing is consumed, a bare minus sign, unlike a number, cannot stand
      inside an array. */
  lemma BareMinusIsZero(t: bytes, nesting: nat)
    requires BareMinus(t) && ParseValue(t, nesting).Ok?
    ensures ParseValue(t, nesting) == Ok(Number(0), SkipSpace(t))
    ensures !exists acc :: ParseItems(t, nesting, acc).Ok?
  {
    BareMinusStays(t, nesting);
    BareMinusExactly(t, nesting);
  }

  lemma BareMinusAccepted()
    ensures ParseText([MINUS]) == Ok(Number(0), [MINUS])
  {
    assert SkipSpace([MINUS]) == [MINUS];
    assert [MINUS][1..] == [];
  }

  /** Everything the parser returns is well formed and within the nesting limit. */
  lemma ParsedIsWellFormed(t: bytes, nesting: nat)
    requires ParseValue(t, nesting).Ok?
    ensures WellFormed(ParseValue(t, nesting).value)
    ensures nesting + Depth(ParseValue(t, nesting).value) <= MAX_NESTING
  {
    if BareMinus(t) {
      BareMinusIsZero(t, nesting);
    } else {
      var ws, c := ParseSound(t, nesting);
    }
  }
}
