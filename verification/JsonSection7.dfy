/**
  The strings of section 7 of RFC 8259 as they are spelled, in which any four
  hexadecimal digits may follow `\u`, and which of them parson reads: those whose
  surrogates come in pairs.
 */
module JsonSection7 {
  import opened Bytes
  import opened JsonStrings
  import opened JsonParser

  /** One `char` of the grammar; an escaped pair is two of them. */
  predicate Spelling(p: Piece) {
    match p
    case Plain(b) => b >= 0x20 && b != QUOTE && b != BACKSLASH
    case Escaped(c) => Unescape(c).Some?
    case Unit(h) => Hex4(h)
    case Pair(_, _) => false
  }

  predicate Spellings(ps: seq<Piece>) {
    forall i | 0 <= i < |ps| :: Spelling(ps[i])
  }

  predicate Lead(p: Piece) {
    p.Unit? && Hex4(p.h) && 0xD800 <= HexValue(p.h) <= 0xDBFF
  }

  predicate Trail(p: Piece) {
    p.Unit? && Hex4(p.h) && 0xDC00 <= HexValue(p.h) <= 0xDFFF
  }

  /** Each lead surrogate is directly followed by a trail surrogate, and there is no
      other trail surrogate. */
  predicate Paired(ps: seq<Piece>) {
    && (forall i | 0 <= i < |ps| && Lead(ps[i]) :: i + 1 < |ps| && Trail(ps[i + 1]))
    && (forall i | 0 <= i < |ps| && Trail(ps[i]) :: i > 0 && Lead(ps[i - 1]))
  }

  // ----- Grouping surrogates

  function Group(ps: seq<Piece>): Option<seq<Piece>> {
    if |ps| == 0 then Some([])
    else if Trail(ps[0]) then None
    else if Lead(ps[0]) then
      if |ps| == 1 || !Trail(ps[1]) then None
      else
        match Group(ps[2..])
        case None => None
        case Some(gs) => Some([Pair(ps[0].h, ps[1].h)] + gs)
    else
      match Group(ps[1..])
      case None => None
      case Some(gs) => Some([ps[0]] + gs)
  }

  function Ungroup(gs: seq<Piece>): seq<Piece> {
    if |gs| == 0 then []
    else (match gs[0] case Pair(l, t) => [Unit(l), Unit(t)] case _ => [gs[0]]) + Ungroup(gs[1..])
  }

  lemma PairedStep(ps: seq<Piece>, k: nat)
    requires 0 < k <= |ps| && forall i | 0 <= i < k :: Lead(ps[i]) ==> i + 1 < k && Trail(ps[i + 1])
    requires forall i | 0 <= i < k :: Trail(ps[i]) ==> i > 0 && Lead(ps[i - 1])
    ensures Paired(ps) <==> Paired(ps[k..])
  {
    hide Lead;
    hide Trail;
    var rest := ps[k..];
    LeadIsNoTrail(ps[k - 1]);
    assert forall i | 0 <= i < |rest| :: rest[i] == ps[k + i];
    if Paired(rest) {
      forall i | 0 <= i < |ps| && Lead(ps[i]) ensures i + 1 < |ps| && Trail(ps[i + 1]) {
        if i >= k {
          assert Lead(rest[i - k]);
          assert Trail(rest[i - k + 1]);
        }
      }
      forall i | 0 <= i < |ps| && Trail(ps[i]) ensures i > 0 && Lead(ps[i - 1]) {
        if i >= k {
          assert Trail(rest[i - k]);
          assert Lead(rest[i - k - 1]);
        }
      }
    }
    if Paired(ps) {
      forall i | 0 <= i < |rest| && Lead(rest[i]) ensures i + 1 < |rest| && Trail(rest[i + 1]) {
        assert Lead(ps[k + i]);
      }
      forall i | 0 <= i < |rest| && Trail(rest[i]) ensures i > 0 && Lead(rest[i - 1]) {
        assert Trail(ps[k + i]);
        assert Lead(ps[k + i - 1]);
      }
    }
  }

  lemma LeadIsNoTrail(p: Piece)
    ensures !(Lead(p) && Trail(p))
  {
  }

  /** Surrogates can be grouped exactly when they come in pairs, and grouping leaves
      the text as it is. */
  lemma {:induction false} GroupExactly(ps: seq<Piece>)
    requires Spellings(ps)
    ensures Group(ps).Some? <==> Paired(ps)
    ensures Group(ps).Some? ==> PiecesValid(Group(ps).value) && PiecesText(Group(ps).value) == PiecesText(ps)
    decreases |ps|
  {
    hide HexValue;
    hide Hex4;
    if |ps| > 0 {
      LeadIsNoTrail(ps[0]);
      if Trail(ps[0]) {
        assert !Paired(ps);
      } else if !Lead(ps[0]) {
        PairedStep(ps, 1);
        GroupExactly(ps[1..]);
        if Group(ps[1..]).Some? {
          GroupedOne(ps[0]);
          PiecesCons(ps[0], Group(ps[1..]).value);
        }
      } else if |ps| == 1 || !Trail(ps[1]) {
        assert !Paired(ps);
      } else {
        LeadIsNoTrail(ps[1]);
        PairedStep(ps, 2);
        GroupExactly(ps[2..]);
        if Group(ps[2..]).Some? {
          var gs := Group(ps[2..]).value;
          PiecesCons(Pair(ps[0].h, ps[1].h), gs);
          assert ps[1..][1..] == ps[2..] && ps[1..][0] == ps[1];
          Assoc(PieceText(ps[0]), PieceText(ps[1]), PiecesText(gs));
        }
      }
    }
  }

  lemma GroupedOne(p: Piece)
    requires Spelling(p) && !Lead(p) && !Trail(p)
    ensures PieceValid(p)
  {
  }

  lemma PrependOne(p: Piece, rest: seq<Piece>)
    requires Spelling(p) && !Lead(p) && !Trail(p) && Spellings(rest) && Paired(rest)
    ensures Spellings([p] + rest) && Paired([p] + rest)
    ensures PiecesText([p] + rest) == PieceText(p) + PiecesText(rest)
  {
    hide Spelling;
    hide Lead;
    hide Trail;
    hide PieceText;
    assert ([p] + rest)[1..] == rest;
    PairedStep([p] + rest, 1);
  }

  lemma PrependPair(l: bytes, t: bytes, rest: seq<Piece>)
    requires Lead(Unit(l)) && Trail(Unit(t)) && Spellings(rest) && Paired(rest)
    ensures var ps := [Unit(l), Unit(t)] + rest;
      Spellings(ps) && Paired(ps) && PiecesText(ps) == PieceText(Pair(l, t)) + PiecesText(rest)
  {
    hide HexValue;
    hide Hex4;
    var ps := [Unit(l), Unit(t)] + rest;
    LeadIsNoTrail(Unit(l));
    LeadIsNoTrail(Unit(t));
    assert ps[2..] == rest;
    PairedStep(ps, 2);
    assert ps[1..] == [Unit(t)] + rest && ps[1..][1..] == rest;
    Assoc(PieceText(Unit(l)), PieceText(Unit(t)), PiecesText(rest));
  }

  lemma {:induction false} UngroupExactly(gs: seq<Piece>)
    requires PiecesValid(gs)
    ensures Spellings(Ungroup(gs)) && Paired(Ungroup(gs)) && PiecesText(Ungroup(gs)) == PiecesText(gs)
  {
    hide PieceValid;
    hide PieceText;
    hide Spellings;
    hide Spelling;
    hide Lead;
    hide Trail;
    hide Paired;
    if |gs| > 0 {
      UngroupExactly(gs[1..]);
      UngroupedOne(gs[0]);
      if gs[0].Pair? {
        PrependPair(gs[0].lead, gs[0].trail, Ungroup(gs[1..]));
      } else {
        PrependOne(gs[0], Ungroup(gs[1..]));
      }
    } else {
      NothingToPair();
    }
  }

  lemma NothingToPair()
    ensures Spellings([]) && Paired([])
  {
  }

  lemma UngroupedOne(p: Piece)
    requires PieceValid(p)
    ensures p.Pair? ==> Lead(Unit(p.lead)) && Trail(Unit(p.trail)) && Spelling(Unit(p.lead)) && Spelling(Unit(p.trail))
    ensures !p.Pair? ==> Spelling(p) && !Lead(p) && !Trail(p)
  {
  }

  // ----- A spelling can be read in one way only

  lemma SpellingStart(p: Piece)
    requires Spelling(p)
    ensures var t := PieceText(p);
      match p
      case Plain(b) => t == [b] && b != QUOTE && b != BACKSLASH
      case Escaped(c) => t == [BACKSLASH, c] && c != 0x75
      case Unit(h) => t == [BACKSLASH, 0x75] + h && |h| == 4
  {
  }

  lemma SamePiece(p: Piece, x: bytes, q: Piece, y: bytes)
    requires Spelling(p) && Spelling(q) && PieceText(p) + x == PieceText(q) + y
    ensures p == q && x == y
  {
    hide PieceText;
    SpellingStart(p);
    SpellingStart(q);
    var t := PieceText(p) + x;
    assert t[0] == PieceText(p)[0] == PieceText(q)[0];
    if t[0] == BACKSLASH {
      assert t[1] == PieceText(p)[1] == PieceText(q)[1];
    }
    assert |PieceText(p)| == |PieceText(q)|;
    Splits(PieceText(p), x);
    Splits(PieceText(q), y);
    if p.Unit? {
      Splits([BACKSLASH, 0x75], p.h);
      Splits([BACKSLASH, 0x75], q.h);
    }
  }

  lemma {:induction false} UniqueReading(ps: seq<Piece>, x: bytes, qs: seq<Piece>, y: bytes)
    requires Spellings(ps) && Spellings(qs)
    requires PiecesText(ps) + ([QUOTE] + x) == PiecesText(qs) + ([QUOTE] + y)
    ensures ps == qs && x == y
    decreases |ps|
  {
    hide PieceText;
    hide Spelling;
    if |ps| == 0 || |qs| == 0 {
      EndOrPiece(ps, x);
      EndOrPiece(qs, y);
      assert [QUOTE] + x == [QUOTE] + y;
      Splits([QUOTE], x);
      Splits([QUOTE], y);
    } else {
      var ps', qs' := PiecesText(ps[1..]), PiecesText(qs[1..]);
      Assoc(PieceText(ps[0]), ps', [QUOTE] + x);
      Assoc(PieceText(qs[0]), qs', [QUOTE] + y);
      SamePiece(ps[0], ps' + ([QUOTE] + x), qs[0], qs' + ([QUOTE] + y));
      UniqueReading(ps[1..], x, qs[1..], y);
      assert ps == [ps[0]] + ps[1..] && qs == [qs[0]] + qs[1..];
    }
  }

  lemma EndOrPiece(ps: seq<Piece>, x: bytes)
    requires Spellings(ps)
    ensures (PiecesText(ps) + ([QUOTE] + x))[0] == QUOTE <==> |ps| == 0
    ensures |ps| == 0 ==> PiecesText(ps) + ([QUOTE] + x) == [QUOTE] + x
  {
    if |ps| > 0 {
      SpellingStart(ps[0]);
    }
  }

  // ----- Main result

  /** For every spelling of section 7: `get_quoted_string` reads it, up to its closing
      quote, exactly when its surrogates come in pairs; it then gives the value of the
      characters they stand for, and otherwise no string. */
  lemma Section7Exactly(ps: seq<Piece>, next: bytes)
    requires Spellings(ps)
    ensures GetQuoted(QuotedText(ps, next)).Quoted? <==> Paired(ps)
    ensures Paired(ps) ==>
      Group(ps).Some? && PiecesValid(Group(ps).value) && GetQuoted(QuotedText(ps, next)) == Quoted(PiecesValue(Group(ps).value), next)
  {
    hide GetQuoted;
    hide Paired;
    hide Group;
    var t := QuotedText(ps, next);
    GroupExactly(ps);
    if Paired(ps) {
      QuotedComplete(Group(ps).value, next);
    }
    if GetQuoted(t).Quoted? {
      var gs := QuotedSound(t);
      var us, next' := Ungroup(gs), GetQuoted(t).next;
      UngroupExactly(gs);
      Splits([QUOTE], PiecesText(ps) + ([QUOTE] + next));
      Splits([QUOTE], PiecesText(us) + ([QUOTE] + next'));
      UniqueReading(ps, next, us, next');
    }
  }

  /** Everything read is such a spelling. */
  lemma ReadIsSection7(t: bytes) returns (ps: seq<Piece>)
    requires GetQuoted(t).Quoted?
    ensures Spellings(ps) && Paired(ps) && t == QuotedText(ps, GetQuoted(t).next)
  {
    hide GetQuoted;
    var gs := QuotedSound(t);
    UngroupExactly(gs);
    ps := Ungroup(gs);
  }

  const DEAD: bytes := [0x44, 0x45, 0x41, 0x44]

  /** The string "\uDEAD", which section 8.2 of RFC 8259 names as one the grammar
      allows, is refused. */
  lemma LoneSurrogateRefused()
    ensures Spellings([Unit(DEAD)])
    ensures ParseText(QuotedText([Unit(DEAD)], [])) == Err(Malformed)
  {
    hide GetQuoted;
    var ps := [Unit(DEAD)];
    DeadIsTrail();
    Section7Exactly(ps, []);
    assert !Paired(ps);
    assert QuotedText(ps, [])[0] == QUOTE;
  }

  lemma DeadIsTrail()
    ensures Hex4(DEAD) && Trail(Unit(DEAD))
  {
    assert DEAD[..3][..2][..1][..0] == [];
    assert DEAD[..3] == [0x44, 0x45, 0x41] && DEAD[..3][..2] == [0x44, 0x45] && DEAD[..3][..2][..1] == [0x44];
    assert HexValue([0x44]) == 0xD;
    assert HexValue([0x44, 0x45]) == 0xDE;
    assert HexValue([0x44, 0x45, 0x41]) == 0xDEA;
    assert HexValue(DEAD) == 0xDEAD;
  }
}
