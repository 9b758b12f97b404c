/**
  The capture loop of ExecuteCommand: the output of a child process arrives in
  arbitrary pieces and is cut, sanitised and terminated in a buffer that is
  reallocated for every piece.
 */
module CommandCapture {
  import opened Bytes
  import JsonStrings
  import Utf8

  const BUFFER_SIZE: nat := 1024
  const UINT_MAX: nat := 0xFFFF_FFFF

  /** signedChar says whether `char` is signed on the platform; max is
      `maxTextResultBytes`, where 0 means no limit. */
  datatype Options = Options(replaceEol: bool, forJson: bool, signedChar: bool, max: nat)

  predicate ValidOptions(o: Options) {
    o.max <= UINT_MAX
  }

  // ----- Sanitising

  function CharValue(o: Options, c: byte): int {
    if o.signedChar && c >= 0x80 then c - 0x100 else c
  }

  predicate Replaced(o: Options, c: byte) {
    var v := CharValue(o, c);
    || (o.replaceEol && v == LF)
    || (v < 0x20 && v != LF)
    || v == 0x7F
    || (o.forJson && (v == QUOTE || v == TAB || v == BACKSLASH))
  }

  function Clean(o: Options, c: byte): byte {
    if Replaced(o, c) then SPACE else c
  }

  function CleanAll(o: Options, t: bytes): (r: bytes)
    ensures |r| == |t| && forall i | 0 <= i < |t| :: r[i] == Clean(o, t[i])
  {
    seq(|t|, i requires 0 <= i < |t| => Clean(o, t[i]))
  }

  /** The part of the output that is kept. */
  function Cut(o: Options, t: bytes): bytes {
    if o.max == 0 || |t| < o.max then t else t[..o.max - 1]
  }

  /** What is kept is the longest prefix that fits the limit with its terminator. */
  lemma CutIsLongest(o: Options, t: bytes, k: nat)
    requires k <= |t|
    ensures k <= |Cut(o, t)| <==> o.max == 0 || k + 1 <= o.max
    ensures Cut(o, t) == t[..|Cut(o, t)|]
  {
    assert t[..|t|] == t;
  }

  /** The text captured from an output, however it was split. */
  function Captured(o: Options, output: bytes): bytes {
    CleanAll(o, Cut(o, output))
  }

  /** Which bytes are kept: printable ASCII, save quotes and backslashes for JSON; line
      ends unless they are replaced; other bytes only where characters are unsigned. */
  lemma CleanExactly(o: Options, c: byte)
    ensures Clean(o, c) == c <==>
      || (0x20 <= c <= 0x7E && !(o.forJson && (c == QUOTE || c == BACKSLASH)))
      || (c == LF && !o.replaceEol)
      || (c >= 0x80 && !o.signedChar)
    ensures Clean(o, c) != c ==> Clean(o, c) == SPACE
  {
  }

  /** A captured text holds no NUL: as a C string it is the whole text. */
  lemma CapturedIsCString(o: Options, output: bytes)
    ensures NUL !in Captured(o, output)
  {
  }

  // ----- 32-bit sizes

  function Wrap(n: nat): nat {
    n % (UINT_MAX + 1)
  }

  /** `outputBufferSize` for a piece of k bytes behind pos captured ones. */
  function BufferSize(o: Options, pos: nat, k: nat): nat {
    var n := Wrap(k + pos);
    if o.max > 0 && n > o.max - 1 then o.max - 1 else n
  }

  /** The sizes of the source are exact, so that no captured byte is lost. */
  predicate Fits(o: Options, pos: nat, k: nat) {
    if o.max == 0 then pos + k < UINT_MAX else pos + k <= UINT_MAX
  }

  lemma FitsExactly(o: Options, pos: nat, k: nat)
    requires ValidOptions(o) && k <= BUFFER_SIZE && pos < UINT_MAX && (o.max > 0 ==> pos < o.max)
    ensures Fits(o, pos, k) <==> Wrap(BufferSize(o, pos, k) + 1) > pos
    ensures Fits(o, pos, k) ==> BufferSize(o, pos, k) < UINT_MAX
    ensures Fits(o, pos, k) ==> BufferSize(o, pos, k) == if o.max == 0 || pos + k < o.max then pos + k else o.max - 1
  {
  }

  // ----- The loop

  /** `realloc`, which keeps what fits into the new size. */
  method Realloc(old_: array?<byte>, size: nat) returns (b: array<byte>)
    ensures fresh(b) && b.Length == size
    ensures old_ != null ==> forall i | 0 <= i < size && i < old_.Length :: b[i] == old_[i]
  {
    b := new byte[size];
    if old_ != null {
      var n := if old_.Length < size then old_.Length else size;
      for i := 0 to n
        invariant forall j | 0 <= j < i :: b[j] == old_[j]
      {
        b[i] := old_[i];
      }
    }
  }

  /** The loop over one piece: clean bytes up to the size of the buffer. */
  method CopyClean(o: Options, buffer: bytes, text: array<byte>, pos: nat, size: nat) returns (n: nat)
    requires pos <= size < text.Length
    modifies text
    ensures n == (if pos + |buffer| < size then |buffer| else size - pos)
    ensures text[..pos + n] == old(text[..pos]) + CleanAll(o, buffer[..n])
  {
    n := 0;
    while n < |buffer| && pos + n < size
      invariant 0 <= n <= |buffer| && pos + n <= size
      invariant text[..pos + n] == old(text[..pos]) + CleanAll(o, buffer[..n])
    {
      text[pos + n] := Clean(o, buffer[n]);
      assert CleanAll(o, buffer[..n + 1]) == CleanAll(o, buffer[..n]) + [Clean(o, buffer[n])];
      assert text[..pos + n + 1] == text[..pos + n] + [text[pos + n]];
      n := n + 1;
    }
  }

  class Capture {
    const o: Options
    var textResult: array?<byte>
    var outputBufferPos: nat
    var outputBufferSize: nat

    /** The state after the output so far: the text and room for its terminator. */
    ghost predicate Holds(output: bytes)
      reads this, textResult
    {
      && ValidOptions(o)
      && outputBufferPos == |Cut(o, output)| < UINT_MAX
      && (textResult == null <==> output == [])
      && (textResult != null ==>
            && textResult.Length == outputBufferPos + 1
            && textResult[..outputBufferPos] == Captured(o, output))
    }

    constructor (o: Options)
      requires ValidOptions(o)
      ensures Holds([]) && this.o == o && textResult == null
    {
      this.o := o;
      textResult, outputBufferPos, outputBufferSize := null, 0, 0;
    }

    /** One piece of the output. The position never reaches `maxTextResultBytes`, so
        the source's early `continue` is never taken. Where the 32-bit sizes wrap around, captured bytes
        would be lost: that is reported by ok and ends the run. */
    method Feed(buffer: bytes, ghost output: bytes) returns (ok: bool)
      requires Holds(output) && 0 < |buffer| <= BUFFER_SIZE
      modifies this, textResult
      ensures ok <==> Fits(o, old(outputBufferPos), |buffer|)
      ensures ok ==> Holds(output + buffer) && fresh(textResult)
    {
      hide CleanAll;
      hide Captured;
      hide Cut;
      hide Wrap;
      hide Fits;
      ghost var pos, was := outputBufferPos, Captured(o, output);
      SizeOfCut(o, output);
      FitsExactly(o, pos, |buffer|);
      outputBufferSize := BufferSize(o, outputBufferPos, |buffer|);
      if Wrap(outputBufferSize + 1) <= outputBufferPos {
        return false;
      }
      var tmp := Realloc(textResult, outputBufferSize + 1);
      assert tmp[..pos] == was by {
        assert textResult != null ==> textResult[..pos] == was;
      }
      textResult := tmp;
      var n := CopyClean(o, buffer, tmp, outputBufferPos, outputBufferSize);
      outputBufferPos := outputBufferPos + n;
      CapturedGrows(o, output, buffer, n);
      ok := true;
    }

    /** The terminator goes inside the allocation. */
    method Terminate(ghost output: bytes)
      requires Holds(output) && textResult != null
      modifies textResult
      ensures textResult[..] == Captured(o, output) + [NUL]
    {
      textResult[outputBufferPos] := NUL;
      assert textResult[..outputBufferPos] == Captured(o, output);
    }
  }

  lemma SizeOfCut(o: Options, output: bytes)
    ensures |Captured(o, output)| == |Cut(o, output)|
    ensures output == [] ==> Captured(o, output) == []
    ensures o.max > 0 ==> |Cut(o, output)| < o.max
  {
  }

  /** Appending a piece appends the sanitised part of it that is kept. */
  lemma CapturedGrows(o: Options, output: bytes, buffer: bytes, i: nat)
    requires i <= |buffer|
    requires |Cut(o, output)| + i == if o.max == 0 || |Cut(o, output)| + |buffer| < o.max then |Cut(o, output)| + |buffer| else o.max - 1
    ensures Captured(o, output + buffer) == Captured(o, output) + CleanAll(o, buffer[..i])
    ensures |Cut(o, output + buffer)| == |Cut(o, output)| + i
  {
    var a, b := Cut(o, output), Cut(o, output + buffer);
    assert b == a + buffer[..i];
    assert CleanAll(o, b) == CleanAll(o, a) + CleanAll(o, buffer[..i]);
  }

  // ----- Whole runs

  function Concat(pieces: seq<bytes>): bytes {
    if |pieces| == 0 then [] else Concat(pieces[..|pieces| - 1]) + pieces[|pieces| - 1]
  }

  predicate ValidPieces(pieces: seq<bytes>) {
    forall i | 0 <= i < |pieces| :: 0 < |pieces[i]| <= BUFFER_SIZE
  }

  /** No size computed during the run wraps around. */
  predicate RunFits(o: Options, pieces: seq<bytes>) {
    |pieces| == 0 ||
    (var before, last := pieces[..|pieces| - 1], pieces[|pieces| - 1];
     RunFits(o, before) && Fits(o, |Cut(o, Concat(before))|, |last|))
  }

  datatype Outcome = NoText | Text(text: bytes) | SizeWrapped

  /** For every way the output is split into reads, the text is the sanitised and
      cut output; there is none when nothing was read. */
  method CaptureOutput(o: Options, pieces: seq<bytes>) returns (r: Outcome)
    requires ValidOptions(o) && ValidPieces(pieces)
    ensures r == if !RunFits(o, pieces) then SizeWrapped
                 else if pieces == [] then NoText
                 else Text(Captured(o, Concat(pieces)))
  {
    var c := new Capture(o);
    var i := 0;
    assert pieces[..0] == [];
    while i < |pieces|
      invariant 0 <= i <= |pieces|
      invariant c.o == o && c.Holds(Concat(pieces[..i])) && RunFits(o, pieces[..i])
      invariant fresh(c) && (c.textResult != null ==> fresh(c.textResult))
      invariant i > 0 ==> c.textResult != null
    {
      assert pieces[..i + 1][..i] == pieces[..i];
      var ok := c.Feed(pieces[i], Concat(pieces[..i]));
      if !ok {
        RunFitsPrefix(o, pieces, i + 1);
        return SizeWrapped;
      }
      i := i + 1;
    }
    assert pieces[..i] == pieces;
    if c.textResult == null {
      return NoText;
    }
    c.Terminate(Concat(pieces));
    r := Text(c.textResult[..c.outputBufferPos]);
  }

  lemma {:induction false} RunFitsPrefix(o: Options, pieces: seq<bytes>, k: nat)
    requires k <= |pieces|
    ensures RunFits(o, pieces) ==> RunFits(o, pieces[..k])
  {
    if k < |pieces| {
      var before := pieces[..|pieces| - 1];
      RunFitsPrefix(o, before, k);
      assert before[..k] == pieces[..k];
    } else {
      assert pieces[..k] == pieces;
    }
  }

  /** Without a limit a run is sound exactly below 2^32 - 1 bytes of output. */
  lemma {:induction false} UncutFitsExactly(o: Options, pieces: seq<bytes>)
    requires o.max == 0
    ensures RunFits(o, pieces) <==> |Concat(pieces)| < 0xFFFF_FFFF
  {
    if |pieces| > 0 {
      UncutFitsExactly(o, pieces[..|pieces| - 1]);
    }
  }

  lemma {:induction false} CutFits(o: Options, pieces: seq<bytes>)
    requires 0 < o.max <= UINT_MAX - BUFFER_SIZE + 1 && ValidPieces(pieces)
    ensures RunFits(o, pieces)
  {
    if |pieces| > 0 {
      CutFits(o, pieces[..|pieces| - 1]);
    }
  }

  /** n reads of the largest size. */
  ghost function Flood(n: nat): (pieces: seq<bytes>)
    ensures |pieces| == n && ValidPieces(pieces)
  {
    seq(n, _ => seq(BUFFER_SIZE, _ => 0))
  }

  lemma {:induction false} FloodSize(n: nat)
    ensures |Concat(Flood(n))| == n * BUFFER_SIZE
  {
    if n > 0 {
      FloodSize(n - 1);
      assert Flood(n)[..n - 1] == Flood(n - 1);
    }
  }

  /** A limit within one read of 2^32 is reached by enough large reads, and the next
      one wraps around. */
  lemma FloodWraps(o: Options)
    requires UINT_MAX - BUFFER_SIZE + 1 < o.max <= UINT_MAX
    ensures !RunFits(o, Flood(o.max + 1))
  {
    var n := o.max;
    FloodSize(n);
    assert Flood(n + 1)[..n] == Flood(n);
    assert |Cut(o, Concat(Flood(n)))| == o.max - 1;
    assert |Flood(n + 1)[n]| == BUFFER_SIZE;
  }

  /** With a limit, whether the sizes can wrap around at all depends on the limit
      alone: every run is sound exactly when the limit leaves room for one read. */
  lemma CutFitsExactly(o: Options)
    requires 0 < o.max <= UINT_MAX
    ensures (forall pieces | ValidPieces(pieces) :: RunFits(o, pieces)) <==> o.max <= 0x1_0000_0000 - 1024
  {
    if o.max <= UINT_MAX - BUFFER_SIZE + 1 {
      forall pieces | ValidPieces(pieces) ensures RunFits(o, pieces) {
        CutFits(o, pieces);
      }
    } else {
      FloodWraps(o);
    }
  }

  // ----- What a captured text is good for

  predicate PlainText(s: bytes) {
    forall i | 0 <= i < |s| :: s[i] >= 0x20 && s[i] != QUOTE && s[i] != BACKSLASH
  }

  function Plains(s: bytes): (ps: seq<JsonStrings.Piece>)
    ensures PlainText(s) ==> JsonStrings.PiecesValid(ps)
  {
    seq(|s|, i requires 0 <= i < |s| => JsonStrings.Plain(s[i]))
  }

  lemma {:induction false} PlainsSpell(s: bytes)
    requires PlainText(s)
    ensures JsonStrings.PiecesText(Plains(s)) == s && JsonStrings.PiecesValue(Plains(s)) == s
  {
    if |s| > 0 {
      assert Plains(s)[1..] == Plains(s[1..]);
      PlainsSpell(s[1..]);
      HeadTail(s);
    }
  }

  /** Only plain characters are as long in the text as in the value. */
  lemma {:induction false} SpelledPlainly(ps: seq<JsonStrings.Piece>)
    requires JsonStrings.PiecesValid(ps)
    ensures |JsonStrings.PiecesValue(ps)| <= |JsonStrings.PiecesText(ps)|
    ensures |JsonStrings.PiecesValue(ps)| == |JsonStrings.PiecesText(ps)| ==> PlainText(JsonStrings.PiecesValue(ps))
  {
    if |ps| > 0 {
      var p := ps[0];
      SpelledPlainly(ps[1..]);
      assert p.Plain? || |JsonStrings.PieceValue(p)| < |JsonStrings.PieceText(p)|;
    }
  }

  /** Between quotes a text pieces back unchanged exactly when it is plain. */
  lemma QuotedBackExactly(s: bytes, next: bytes)
    ensures JsonStrings.GetQuoted([QUOTE] + s + [QUOTE] + next) == JsonStrings.Quoted(s, next) <==> PlainText(s)
  {
    hide JsonStrings.GetQuoted;
    var t := [QUOTE] + s + [QUOTE] + next;
    if PlainText(s) {
      PlainsSpell(s);
      JsonStrings.QuotedComplete(Plains(s), next);
      assert t == JsonStrings.QuotedText(Plains(s), next);
    }
    if JsonStrings.GetQuoted(t) == JsonStrings.Quoted(s, next) {
      var ps := JsonStrings.QuotedSound(t);
      SpelledPlainly(ps);
    }
  }

  /** Sanitised for JSON with line ends replaced, every output can be put between
      quotes and is read back unchanged. */
  lemma CapturedQuotedBack(o: Options, output: bytes, next: bytes)
    requires o.replaceEol && o.forJson
    ensures JsonStrings.GetQuoted([QUOTE] + Captured(o, output) + [QUOTE] + next) == JsonStrings.Quoted(Captured(o, output), next)
  {
    QuotedBackExactly(Captured(o, output), next);
  }

  ghost predicate ReadsBack(o: Options, output: bytes) {
    JsonStrings.GetQuoted([QUOTE] + Captured(o, output) + [QUOTE] + []) == JsonStrings.Quoted(Captured(o, output), [])
  }

  /** Both options are needed: otherwise some output does not read back, unless the
      limit leaves no room for any text. */
  lemma ReadsBackExactly(o: Options)
    ensures (forall output: bytes :: ReadsBack(o, output)) <==> (o.replaceEol && o.forJson) || o.max == 1
  {
    hide JsonStrings.GetQuoted;
    if (o.replaceEol && o.forJson) || o.max == 1 {
      forall output: bytes ensures ReadsBack(o, output) {
        QuotedBackExactly(Captured(o, output), []);
      }
    } else {
      var bad: bytes := if o.replaceEol then [QUOTE] else [LF];
      assert Captured(o, bad)[0] == bad[0];
      QuotedBackExactly(Captured(o, bad), []);
      assert !ReadsBack(o, bad);
    }
  }

  lemma CleanChar(o: Options, c: bytes)
    requires !o.signedChar && Utf8.Utf8Char(c)
    ensures Utf8.Utf8Char(CleanAll(o, c))
  {
    hide CleanAll;
    assert |c| > 1 ==> forall i | 0 <= i < |c| :: c[i] >= 0x80;
    assert |c| > 1 ==> CleanAll(o, c) == c;
  }

  /** Sanitising keeps UTF-8; with signed characters it leaves only ASCII. */
  lemma {:induction false} CleanKeepsUtf8(o: Options, t: bytes)
    requires !o.signedChar && Utf8.WellFormed(t)
    ensures Utf8.WellFormed(CleanAll(o, t))
    decreases |t|
  {
    hide CleanAll;
    hide Utf8.Utf8Char;
    if |t| > 0 {
      var k :| 1 <= k <= 4 && k <= |t| && Utf8.Utf8Char(t[..k]) && Utf8.WellFormed(t[k..]);
      CleanKeepsUtf8(o, t[k..]);
      CleanChar(o, t[..k]);
      Utf8.WellFormedCons(CleanAll(o, t[..k]), CleanAll(o, t[k..]));
      assert CleanAll(o, t) == CleanAll(o, t[..k]) + CleanAll(o, t[k..]);
    }
  }

  lemma {:induction false} SignedCleanIsAscii(o: Options, t: bytes)
    requires o.signedChar
    ensures forall i | 0 <= i < |t| :: CleanAll(o, t)[i] < 0x7F
    ensures Utf8.WellFormed(CleanAll(o, t))
  {
    if |t| > 0 {
      SignedCleanIsAscii(o, t[1..]);
      Utf8.WellFormedCons([Clean(o, t[0])], CleanAll(o, t[1..]));
      assert CleanAll(o, t) == [Clean(o, t[0])] + CleanAll(o, t[1..]);
    }
  }
}
