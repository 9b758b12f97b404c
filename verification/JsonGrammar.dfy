/**
  Concrete JSON texts: a syntax tree that records every spelling choice, namely
  white space, escapes and order. `Spell` writes the text down, `Eval` gives the
  value it denotes. The parser is measured against this grammar.

  It is that of RFC 8259 with three differences: white space is what `isspace`
  accepts, surrogates come in pairs, and numbers are integers. JsonSection7 and
  JsonRfc measure the first two against the RFC itself.
 */
module JsonGrammar {
  import opened Bytes
  import opened JsonStrings
  import opened JsonValues
  import Decimal

  datatype Syntax =
    | SNull
    | SBool(b: bool)
    | SNumber(n: int)
    | SString(ps: seq<Piece>)
    | SArray(ws: bytes, elems: seq<Elem>)
    | SObject(ws: bytes, fields: seq<Field>)

  /** A value with the white space around it. */
  datatype Elem = Elem(pre: bytes, c: Syntax, post: bytes)

  /** pre "key" mid : val */
  datatype Field = Field(pre: bytes, key: seq<Piece>, mid: bytes, val: Elem)

  const NULL_TEXT: bytes := [0x6E, 0x75, 0x6C, 0x6C]
  const TRUE_TEXT: bytes := [0x74, 0x72, 0x75, 0x65]
  const FALSE_TEXT: bytes := [0x66, 0x61, 0x6C, 0x73, 0x65]

  /** The text of c, followed by post. */
  function Spell(c: Syntax, post: bytes): bytes
    decreases c
  {
    match c
    case SNull => NULL_TEXT + post
    case SBool(b) => (if b then TRUE_TEXT else FALSE_TEXT) + post
    case SNumber(n) => Decimal.IntText(n) + post
    case SString(ps) => QuotedText(ps, post)
    case SArray(ws, es) =>
      [LBRACKET] + (if |es| == 0 then ws + ([RBRACKET] + post) else SpellElems(es, post))
    case SObject(ws, fs) =>
      [LBRACE] + (if |fs| == 0 then ws + ([RBRACE] + post) else SpellFields(fs, post))
  }

  /** The elements behind an opening bracket, up to and including the closing one. */
  function SpellElems(es: seq<Elem>, post: bytes): bytes
    requires |es| > 0
    decreases es
  {
    es[0].pre + Spell(es[0].c, es[0].post + ElemsTail(es, post))
  }

  function ElemsTail(es: seq<Elem>, post: bytes): bytes
    requires |es| > 0
    decreases es, 0
  {
    if |es| == 1 then [RBRACKET] + post else [COMMA] + SpellElems(es[1..], post)
  }

  function SpellFields(fs: seq<Field>, post: bytes): bytes
    requires |fs| > 0
    decreases fs
  {
    fs[0].pre + QuotedText(fs[0].key, fs[0].mid + ([COLON] + SpellVal(fs, post)))
  }

  /** The value of the first field and everything behind it. */
  function SpellVal(fs: seq<Field>, post: bytes): bytes
    requires |fs| > 0
    decreases fs, 1
  {
    fs[0].val.pre + Spell(fs[0].val.c, fs[0].val.post + FieldsTail(fs, post))
  }

  function FieldsTail(fs: seq<Field>, post: bytes): bytes
    requires |fs| > 0
    decreases fs, 0
  {
    if |fs| == 1 then [RBRACE] + post else [COMMA] + SpellFields(fs[1..], post)
  }

  predicate Valid(c: Syntax) {
    match c
    case SNumber(n) => -MAX_INTEGER <= n <= MAX_INTEGER
    case SString(ps) => PiecesValid(ps)
    case SArray(ws, es) => AllSpace(ws) && (|es| > 0 ==> ws == []) && ValidElems(es)
    case SObject(ws, fs) => AllSpace(ws) && (|fs| > 0 ==> ws == []) && ValidFields(fs)
    case _ => true
  }

  predicate ValidElems(es: seq<Elem>) {
    forall i | 0 <= i < |es| :: AllSpace(es[i].pre) && AllSpace(es[i].post) && Valid(es[i].c)
  }

  predicate ValidFields(fs: seq<Field>) {
    forall i | 0 <= i < |fs| :: FieldValid(fs[i])
  }

  predicate FieldValid(f: Field) {
    && AllSpace(f.pre) && PiecesValid(f.key) && AllSpace(f.mid)
    && AllSpace(f.val.pre) && AllSpace(f.val.post) && Valid(f.val.c)
  }

  function Eval(c: Syntax): Value
    requires Valid(c)
    decreases c
  {
    match c
    case SNull => Null
    case SBool(b) => Bool(b)
    case SNumber(n) => Number(n)
    case SString(ps) => String(PiecesValue(ps))
    case SArray(_, es) => Array(EvalElems(es))
    case SObject(_, fs) => Object(EvalFields(fs))
  }

  function EvalElems(es: seq<Elem>): (xs: seq<Value>)
    requires ValidElems(es)
    ensures |xs| == |es|
    decreases es
  {
    if |es| == 0 then [] else [Eval(es[0].c)] + EvalElems(es[1..])
  }

  function EvalFields(fs: seq<Field>): (ms: seq<Member>)
    requires ValidFields(fs)
    ensures |ms| == |fs|
    decreases fs
  {
    if |fs| == 0 then []
    else
      assert FieldValid(fs[0]);
      [Member(PiecesValue(fs[0].key), Eval(fs[0].val.c))] + EvalFields(fs[1..])
  }

  /** A number ends where the conversion of the source would stop reading. */
  predicate NumberEnds(n: int, post: bytes) {
    |post| == 0 ||
    ( && !Decimal.IsDigit(post[0])
      && post[0] != DOT && post[0] != 0x65 && post[0] != 0x45
      && (n == 0 ==> post[0] != 0x78 && post[0] != 0x58))
  }

  /** What may follow c in a text without being read as part of it. */
  predicate Ends(c: Syntax, post: bytes) {
    c.SNumber? ==> NumberEnds(c.n, post)
  }

  lemma EvalFieldsCons(f: Field, fs: seq<Field>)
    requires FieldValid(f) && ValidFields(fs)
    ensures ValidFields([f] + fs)
    ensures EvalFields([f] + fs) == [Member(PiecesValue(f.key), Eval(f.val.c))] + EvalFields(fs)
  {
    assert ([f] + fs)[1..] == fs;
  }

  /** The first byte of a value tells which kind it is, and is never white space. */
  lemma FirstByte(c: Syntax, post: bytes)
    requires Valid(c)
    ensures |Spell(c, post)| > 0
    ensures var b := Spell(c, post)[0];
      match c
      case SNull => b == 0x6E
      case SBool(v) => b == if v then 0x74 else 0x66
      case SNumber(n) => b == MINUS || Decimal.IsDigit(b)
      case SString(_) => b == QUOTE
      case SArray(_, _) => b == LBRACKET
      case SObject(_, _) => b == LBRACE
  {
    if c.SNumber? {
      Decimal.TextIsCanonical(if c.n < 0 then -c.n else c.n);
    }
  }
}
