/**
  The length of the body of an HTTP reply: what the reader makes of the headers of
  every well-formed reply, and for which spellings of the Content-Length field
  (section 8.6 of RFC 9110, section 6.2 of RFC 9112) that is the length sent.
 */
module HttpLength {
  import opened Bytes
  import opened Decimal
  import opened HttpReply

  // ----- The first mention of the label

  ghost predicate Mentions(line: bytes) {
    exists i: nat :: Occurs(line, LABEL, i)
  }

  /** The number behind a label at the given offset of a line. */
  function NumberAt(line: bytes, offset: nat): int
    requires offset + |LABEL| <= |line|
  {
    Atoi(IsolatedDigits(line[offset + |LABEL|..]))
  }

  /** The number behind the first label in a list of lines, 0 if there is none. */
  function FirstNumber(lines: seq<bytes>): int {
    if |lines| == 0 then 0
    else
      match Find(lines[0], LABEL)
      case Some(o) => NumberAt(lines[0], o)
      case None => FirstNumber(lines[1..])
  }

  /** The status line behind the status code, and the field lines. */
  function HeadLines(r: Reply): seq<bytes> {
    [r.reason] + r.fields
  }

  /** Line k is the first to mention the label, at offset o. */
  ghost predicate FirstMention(lines: seq<bytes>, k: nat, o: nat) {
    && k < |lines| && FirstOccurs(lines[k], LABEL, o)
    && forall i | 0 <= i < k :: !Mentions(lines[i])
  }

  /** The label never straddles a line end. */
  lemma NotInLine(a: bytes, t: bytes, j: nat)
    requires LineText(a) && !Mentions(a) && j < |a| + 2
    ensures !Occurs(a + (CRLF + t), LABEL, j)
  {
    var u := a + (CRLF + t);
    Splits(a, CRLF + t);
    OccursInPrefix(u, |a|, LABEL, j);
    LabelBytes(u, j);
    assert u[|a|] == CR && u[|a| + 1] == LF;
  }

  lemma LabelBytes(u: bytes, j: nat)
    ensures Occurs(u, LABEL, j) ==> forall i | j <= i < j + |LABEL| :: u[i] != CR && u[i] != LF
  {
    assert forall i | 0 <= i < |LABEL| :: LABEL[i] != CR && LABEL[i] != LF;
    if Occurs(u, LABEL, j) {
      assert forall i | j <= i < j + |LABEL| :: u[i] == u[j..j + |LABEL|][i - j];
    }
  }

  /** Digits end at the end of a line. */
  lemma DigitsInLine(a: bytes, t: bytes)
    requires |t| > 0 ==> !IsDigit(t[0])
    ensures IsolatedDigits(a + t) == IsolatedDigits(a)
  {
    var k := DigitRun(a);
    var i := if k <= ISOLATED then k else ISOLATED;
    assert (a + t)[..i] == a[..i];
    assert a[..i] == if k <= ISOLATED then a[..k] else a[..k][..ISOLATED];
    IsolatedIs(a + t, i);
  }

  /** A label in the first line is the first of the head. */
  lemma MentionHere(x: bytes, t: bytes)
    requires Find(x, LABEL).Some?
    ensures HeaderLength(x + (CRLF + t)) == NumberAt(x, Find(x, LABEL).value)
  {
    hide Find;
    hide Atoi;
    hide IsolatedDigits;
    var o, h := Find(x, LABEL).value, x + (CRLF + t);
    Splits(x, CRLF + t);
    forall j: nat | j <= o ensures Occurs(h, LABEL, j) <==> Occurs(x, LABEL, j) {
      OccursInPrefix(h, |x|, LABEL, j);
    }
    FindIs(h, LABEL, o);
    assert h[o + |LABEL|..] == x[o + |LABEL|..] + (CRLF + t);
    DigitsInLine(x[o + |LABEL|..], CRLF + t);
  }

  /** Without a label in the first line the rest of the head decides. */
  lemma MentionBelow(x: bytes, t: bytes)
    requires LineText(x) && Find(x, LABEL).None?
    ensures HeaderLength(x + (CRLF + t)) == HeaderLength(t)
  {
    hide Find;
    hide Atoi;
    hide IsolatedDigits;
    hide FirstOccurs;
    var h, r := x + (CRLF + t), Find(t, LABEL);
    assert h == (x + CRLF) + t;
    forall j: nat ensures Occurs(h, LABEL, j) <==> j >= |x| + 2 && Occurs(t, LABEL, j - |x| - 2) {
      if j < |x| + 2 {
        NotInLine(x, t, j);
      } else {
        OccursShifted(x + CRLF, t, LABEL, j);
      }
    }
    if r.Some? {
      ShiftedFirst(h, t, |x| + 2, r.value);
      FindIs(h, LABEL, r.value + |x| + 2);
      Splits(x + CRLF, t);
      DropDrop(h, |x| + 2, r.value + |LABEL|);
    } else {
      assert Find(h, LABEL).None? by {
        if Find(h, LABEL).Some? {
          FirstOccursIs(h, Find(h, LABEL).value);
        }
      }
    }
  }

  lemma FirstOccursIs(h: bytes, i: nat)
    requires FirstOccurs(h, LABEL, i)
    ensures Occurs(h, LABEL, i)
  {
  }

  lemma ShiftedFirst(h: bytes, t: bytes, k: nat, i: nat)
    requires FirstOccurs(t, LABEL, i)
    requires forall j: nat :: Occurs(h, LABEL, j) <==> j >= k && Occurs(t, LABEL, j - k)
    ensures FirstOccurs(h, LABEL, i + k)
  {
  }

  lemma {:induction false} HeadNumber(x: bytes, fields: seq<bytes>)
    requires LineText(x) && forall i | 0 <= i < |fields| :: LineText(fields[i])
    ensures HeaderLength(x + (CRLF + Lines(fields))) == FirstNumber([x] + fields)
    decreases |fields|
  {
    hide Find;
    hide HeaderLength;
    assert ([x] + fields)[1..] == fields;
    if Find(x, LABEL).Some? {
      MentionHere(x, Lines(fields));
    } else {
      MentionBelow(x, Lines(fields));
      if |fields| == 0 {
        TooShort();
      } else {
        HeadNumber(fields[0], fields[1..]);
        assert [fields[0]] + fields[1..] == fields;
      }
    }
  }

  lemma TooShort()
    ensures HeaderLength(CRLF) == 0
  {
    hide Find;
    assert forall j: nat :: !Occurs(CRLF, LABEL, j);
  }

  lemma {:induction false} FirstNumberIs(lines: seq<bytes>)
    ensures forall k: nat, o: nat | FirstMention(lines, k, o) :: FirstNumber(lines) == NumberAt(lines[k], o)
    ensures (forall k | 0 <= k < |lines| :: !Mentions(lines[k])) ==> FirstNumber(lines) == 0
  {
    hide Find;
    hide Atoi;
    hide IsolatedDigits;
    if |lines| > 0 {
      var rest := lines[1..];
      FirstNumberIs(rest);
      assert forall k | 0 <= k < |rest| :: rest[k] == lines[k + 1];
      forall k: nat, o: nat | FirstMention(lines, k, o) ensures FirstNumber(lines) == NumberAt(lines[k], o) {
        if k == 0 {
          FindIs(lines[0], LABEL, o);
        } else {
          assert lines[k] == rest[k - 1];
          assert FirstMention(rest, k - 1, o);
        }
      }
    }
  }

  /** For every well-formed reply the reader takes the number behind the first label
      in the status line or a field line, wherever in that line it stands, and 0 when
      no line has one. */
  lemma LengthRead(r: Reply)
    requires ValidReply(r)
    ensures HeaderLength(Head(r)) == FirstNumber(HeadLines(r))
    ensures forall k: nat, o: nat | FirstMention(HeadLines(r), k, o) :: HeaderLength(Head(r)) == NumberAt(HeadLines(r)[k], o)
    ensures (forall k | 0 <= k <= |r.fields| :: !Mentions(HeadLines(r)[k])) ==> HeaderLength(Head(r)) == 0
  {
    HeadNumber(r.reason, r.fields);
    FirstNumberIs(HeadLines(r));
  }

  /** Reading the status and the length of every well-formed reply leaves the stream
      at the first byte of the body, with the status sent and the number of the first
      mention of the label. */
  lemma ReplyRead(r: Reply, offered: nat)
    requires ValidReply(r) && offered >= 3
    ensures StatusOf(ReplyText(r), offered).0 == ValueOf(r.status)
    ensures LengthOf(StatusOf(ReplyText(r), offered).1) == (FirstNumber(HeadLines(r)), r.body)
  {
    hide StatusOf;
    hide LengthOf;
    hide ReplyText;
    hide HeaderLength;
    hide Head;
    hide ValueOf;
    StatusRead(r, offered);
    HeadRead(r);
    LengthRead(r);
  }

  // ----- The length field

  /** "Content-Length" */
  const NAME: bytes := LABEL[..14]

  /** Optional white space. */
  predicate Blank(s: bytes) {
    forall i | 0 <= i < |s| :: s[i] == SPACE || s[i] == TAB
  }

  /** A field line with its name, white space, digits and white space. */
  datatype LengthField = LengthField(name: bytes, pre: bytes, digits: bytes, post: bytes)

  /** Names of fields are case-insensitive. */
  predicate ValidField(f: LengthField) {
    Lower(f.name) == Lower(NAME) && Blank(f.pre) && |f.digits| > 0 && AllDigits(f.digits) && Blank(f.post)
  }

  function FieldText(f: LengthField): bytes {
    f.name + ([COLON] + (f.pre + (f.digits + f.post)))
  }

  /** The field is spelled with the label the reader looks for. */
  predicate Spelled(f: LengthField) {
    f.name == NAME && |f.pre| > 0 && f.pre[0] == SPACE
  }

  lemma ColonInField(f: LengthField, i: nat)
    requires ValidField(f) && i < |FieldText(f)|
    ensures FieldText(f)[i] == COLON <==> i == 14
  {
    assert |f.name| == |Lower(f.name)| == |Lower(NAME)| == 14;
    if i < 14 {
      assert Lower(f.name)[i] == Lower(NAME)[i];
      assert FieldText(f)[i] == f.name[i];
      assert NAME[i] != COLON;
    } else if i > 14 {
      var rest := f.pre + (f.digits + f.post);
      assert FieldText(f)[i] == rest[i - 15];
      assert rest[i - 15] in f.pre || rest[i - 15] in f.digits || rest[i - 15] in f.post;
    }
  }

  lemma FieldMentions(f: LengthField)
    requires ValidField(f)
    ensures Find(FieldText(f), LABEL) == if Spelled(f) then Some(0) else None
  {
    hide Find;
    var t := FieldText(f);
    assert |f.name| == |Lower(f.name)| == |Lower(NAME)| == 14;
    forall j: nat | Occurs(t, LABEL, j) ensures j == 0 {
      assert t[j + 14] == t[j..j + |LABEL|][14] == LABEL[14] == COLON;
      ColonInField(f, j + 14);
    }
    LabelAtFront(f);
    if Spelled(f) {
      FindIs(t, LABEL, 0);
    }
  }

  lemma LabelAtFront(f: LengthField)
    requires ValidField(f) && |f.name| == 14
    ensures Occurs(FieldText(f), LABEL, 0) <==> Spelled(f)
  {
    var t, rest := FieldText(f), f.pre + (f.digits + f.post);
    assert LABEL == NAME + [COLON, SPACE];
    assert rest[0] == if |f.pre| > 0 then f.pre[0] else f.digits[0];
    assert t == f.name + [COLON, rest[0]] + rest[1..];
    Splits(f.name + [COLON, rest[0]], rest[1..]);
    assert t[0..16] == f.name + [COLON, rest[0]];
    if Occurs(t, LABEL, 0) {
      assert f.name == t[0..16][..14] == NAME;
      assert rest[0] == t[0..16][15] == SPACE;
    }
  }

  /** The value of a proper prefix of digits. */
  lemma {:induction false} PrefixValue(s: bytes, k: nat)
    requires AllDigits(s) && k < |s|
    ensures 10 * ValueOf(s[..k]) <= ValueOf(s)
  {
    var init := s[..|s| - 1];
    if k < |s| - 1 {
      PrefixValue(init, k);
      assert init[..k] == s[..k];
    }
  }

  /** The number sent is one the reader can deliver. */
  predicate Deliverable(digits: bytes)
    requires AllDigits(digits)
  {
    ValueOf(digits) == 0 || (|digits| <= 63 && ValueOf(digits) < 0x8000_0000)
  }

  /** The digits that the reader isolates give the number sent exactly when it is
      below 2^31 and written with at most 63 digits, or is zero. */
  lemma DigitsExactly(digits: bytes, post: bytes)
    requires AllDigits(digits) && (|post| > 0 ==> !IsDigit(post[0]))
    ensures Atoi(IsolatedDigits(digits + post)) == ValueOf(digits) <==> Deliverable(digits)
  {
    hide Atoi;
    DigitRunOf(digits, post);
    Splits(digits, post);
    assert IsolatedDigits(digits + post) == if |digits| <= ISOLATED then digits else digits[..ISOLATED];
    if |digits| > ISOLATED {
      PrefixValue(digits, ISOLATED);
    }
  }

  /** A second blank behind the label hides the digits. */
  lemma SpelledNumber(f: LengthField)
    requires ValidField(f) && Spelled(f)
    ensures |FieldText(f)| >= |LABEL|
    ensures NumberAt(FieldText(f), 0) == if f.pre == [SPACE] then Atoi(IsolatedDigits(f.digits + f.post)) else 0
  {
    hide Atoi;
    var rest := f.digits + f.post;
    assert FieldText(f)[|LABEL|..] == f.pre[1..] + rest;
    if |f.pre| == 1 {
      assert f.pre[1..] + rest == rest;
    } else {
      assert (f.pre[1..] + rest)[0] == f.pre[1];
      IsolatedIs(f.pre[1..] + rest, 0);
      AtoiNothing();
    }
  }

  lemma AtoiNothing()
    ensures Atoi([]) == 0
  {
  }

  lemma {:induction false} FirstNumberSplits(a: seq<bytes>, b: seq<bytes>)
    ensures FirstNumber(a + b) == if exists i :: 0 <= i < |a| && Mentions(a[i]) then FirstNumber(a) else FirstNumber(b)
  {
    hide Find;
    hide Atoi;
    hide IsolatedDigits;
    if |a| == 0 {
      assert a + b == b;
    } else {
      var rest := a[1..];
      assert (a + b)[1..] == rest + b;
      FirstNumberSplits(rest, b);
      if Find(a[0], LABEL).Some? {
        assert Mentions(a[0]);
      } else {
        assert !Mentions(a[0]);
        assert forall i | 1 <= i < |a| :: a[i] == rest[i - 1];
        assert forall i | 0 <= i < |rest| :: rest[i] == a[i + 1];
      }
    }
  }

  /** The lines in front of field k and those behind it. */
  function Before(r: Reply, k: nat): seq<bytes>
    requires k < |r.fields|
  {
    [r.reason] + r.fields[..k]
  }

  /** For every well-formed reply with a length field: the reader gives the number of
      the field exactly when
      - an earlier line mentions the label, and the first that does says the same number;
      - no earlier line does, the field is spelled with the label, and its number is
        zero, or can be delivered and has exactly one space in front;
      - the field is in another spelling, and the lines behind it say the same number. */
  lemma LengthFieldExactly(r: Reply, k: nat, f: LengthField)
    requires ValidReply(r) && k < |r.fields| && ValidField(f) && r.fields[k] == FieldText(f)
    ensures HeaderLength(Head(r)) == ValueOf(f.digits) <==>
      if exists i :: 0 <= i <= k && Mentions(Before(r, k)[i]) then FirstNumber(Before(r, k)) == ValueOf(f.digits)
      else if Spelled(f) then ValueOf(f.digits) == 0 || (f.pre == [SPACE] && Deliverable(f.digits))
      else FirstNumber(r.fields[k + 1..]) == ValueOf(f.digits)
  {
    hide HeaderLength;
    hide Head;
    hide ValueOf;
    hide Find;
    hide Mentions;
    hide NumberAt;
    hide Atoi;
    hide FieldText;
    var a, b := Before(r, k), r.fields[k..];
    LengthRead(r);
    assert HeadLines(r) == a + b;
    FirstNumberSplits(a, b);
    assert b[0] == FieldText(f) && b[1..] == r.fields[k + 1..];
    FieldMentions(f);
    if Spelled(f) {
      SpelledNumber(f);
      DigitsExactly(f.digits, f.post);
    }
  }

  /** In a reply where no other line mentions the label, the length is delivered
      exactly when it is zero, or the field has the reader's own capitals, exactly one
      space, at most 63 digits and a number below 2^31. */
  lemma OnlyFieldExactly(r: Reply, k: nat, f: LengthField)
    requires ValidReply(r) && k < |r.fields| && ValidField(f) && r.fields[k] == FieldText(f)
    requires !Mentions(r.reason) && forall i | 0 <= i < |r.fields| && i != k :: !Mentions(r.fields[i])
    ensures HeaderLength(Head(r)) == ValueOf(f.digits) <==>
      ValueOf(f.digits) == 0 || (f.name == NAME && f.pre == [SPACE] && |f.digits| <= 63 && ValueOf(f.digits) < 0x8000_0000)
  {
    hide HeaderLength;
    hide Head;
    hide ValueOf;
    hide Mentions;
    hide FieldText;
    var a, b := Before(r, k), r.fields[k + 1..];
    LengthFieldExactly(r, k, f);
    assert forall i | 0 <= i <= k :: a[i] == if i == 0 then r.reason else r.fields[i - 1];
    assert forall i | 0 <= i < |b| :: b[i] == r.fields[k + 1 + i];
    FirstNumberIs(b);
  }

  // ----- Well-formed replies whose length is not read

  const OK_STATUS: bytes := [0x32, 0x30, 0x30]
  const FIVE: bytes := [0x35]
  const BODY: bytes := [0x61, 0x62, 0x63, 0x64, 0x65]

  function ReplyWith(fields: seq<bytes>): Reply {
    Reply(OK_STATUS, [], fields, BODY)
  }

  lemma NoMention(line: bytes)
    requires |line| < |LABEL|
    ensures !Mentions(line)
  {
  }

  lemma FieldIsLine(f: LengthField)
    requires ValidField(f)
    ensures |FieldText(f)| > 0 && LineText(FieldText(f))
  {
    var t := FieldText(f);
    forall i | 0 <= i < |t| ensures t[i] != CR && t[i] != LF && t[i] != NUL {
      if i < |f.name| {
        assert Lower(f.name)[i] == Lower(NAME)[i];
        assert t[i] == f.name[i];
      } else if i > |f.name| {
        var rest := f.pre + (f.digits + f.post);
        assert t[i] == rest[i - |f.name| - 1];
        assert t[i] in f.pre || t[i] in f.digits || t[i] in f.post;
      }
    }
  }

  /** A field of length 5 in any spelling but the reader's own is read as 0. */
  lemma OtherSpelling(name: bytes, pre: bytes)
    requires Lower(name) == Lower(NAME) && Blank(pre)
    ensures var r := ReplyWith([FieldText(LengthField(name, pre, FIVE, []))]);
      ValidReply(r) && LengthOf(Head(r) + r.body) == (if name == NAME && pre == [SPACE] then 5 else 0, BODY)
  {
    hide LengthOf;
    hide HeaderLength;
    hide Head;
    hide FieldText;
    hide Lower;
    hide Find;
    hide NumberAt;
    hide IsolatedDigits;
    hide Mentions;
    var f := LengthField(name, pre, FIVE, []);
    var line := FieldText(f);
    var r := ReplyWith([line]);
    FieldIsLine(f);
    HeadRead(r);
    LengthRead(r);
    NoMention([]);
    FirstNumberSplits([[]], [line]);
    assert HeadLines(r) == [[]] + [line];
    assert FirstNumber([line]) == if Spelled(f) then NumberAt(line, 0) else 0 by {
      FieldMentions(f);
      FirstNumberOne(line);
    }
    if Spelled(f) {
      SpelledNumber(f);
      IsolatedDigit();
    }
  }

  lemma FirstNumberOne(line: bytes)
    ensures FirstNumber([line]) == match Find(line, LABEL) case Some(o) => NumberAt(line, o) case None => 0
  {
    assert [line][1..] == [];
  }

  lemma IsolatedDigit()
    ensures Atoi(IsolatedDigits(FIVE + [])) == 5
  {
    assert FIVE + [] == FIVE && FIVE[..1] == FIVE && FIVE[..0] == [];
    IsolatedIs(FIVE, 1);
    assert ValueOf(FIVE) == 5;
  }

  const LOWER_NAME: bytes := Lower(NAME)

  /** "content-length: 5", "Content-Length:5" and "Content-Length:  5" are read as 0. */
  lemma OverlookedLengths()
    ensures forall f | f in {LengthField(LOWER_NAME, [SPACE], FIVE, []), LengthField(NAME, [], FIVE, []), LengthField(NAME, [SPACE, SPACE], FIVE, [])} ::
      var r := ReplyWith([FieldText(f)]);
      ValidReply(r) && LengthOf(Head(r) + r.body) == (0, BODY)
  {
    assert LOWER_NAME[0] == 0x63 && NAME[0] == 0x43;
    assert Lower(LOWER_NAME) == Lower(NAME);
    OtherSpelling(LOWER_NAME, [SPACE]);
    OtherSpelling(NAME, []);
    OtherSpelling(NAME, [SPACE, SPACE]);
  }

  /** An earlier field that merely ends in the label hides the length: with the
      fields "X-Content-Length: 1" and "Content-Length: 5" the reader gives 1. */
  lemma ShadowedLength()
    ensures var r := ReplyWith([[0x58, 0x2D] + LABEL + [0x31], LABEL + FIVE]);
      ValidReply(r) && LengthOf(Head(r) + r.body) == (1, BODY)
  {
    hide LengthOf;
    hide HeaderLength;
    hide Head;
    hide Find;
    hide IsolatedDigits;
    hide Atoi;
    var line: bytes := [0x58, 0x2D] + LABEL + [0x31];
    var r := ReplyWith([line, LABEL + FIVE]);
    HeadRead(r);
    LengthRead(r);
    NoMention([]);
    assert HeadLines(r) == [[], line, LABEL + FIVE];
    assert line[2..2 + |LABEL|] == LABEL;
    assert line[0..|LABEL|][0] != LABEL[0] && line[1..1 + |LABEL|][0] != LABEL[0];
    assert FirstMention(HeadLines(r), 1, 2);
    assert line[2 + |LABEL|..] == [0x31];
    IsolatedOne();
  }

  lemma IsolatedOne()
    ensures Atoi(IsolatedDigits([0x31])) == 1
  {
    assert [0x31][..1] == [0x31] && [0x31][..0] == [];
    IsolatedIs([0x31], 1);
    assert ValueOf([0x31]) == 1;
  }

  lemma LabelAfterLine(b: bytes)
    ensures HeaderLength(CRLF + (LABEL + b)) == Atoi(IsolatedDigits(b))
  {
    hide Find;
    hide IsolatedDigits;
    hide Atoi;
    var t := CRLF + (LABEL + b);
    Splits(CRLF, LABEL + b);
    Splits(LABEL, b);
    assert t[2..2 + |LABEL|] == LABEL && t[2 + |LABEL|..] == b;
    assert t[0..|LABEL|][0] != LABEL[0] && t[1..1 + |LABEL|][0] != LABEL[0];
    FindIs(t, LABEL, 2);
  }

  /** A head in full, behind a status line without a reason. */
  lemma LengthOfLiteralHead()
    ensures HeaderLength(Ascii("\r\n") + (Ascii("Content-Length: ") + Ascii("42\r\n\r\n"))) == 42
  {
    hide HeaderLength;
    ReaderLiterals();
    assert Ascii("\r\n") == CRLF;
    var b := Ascii("42\r\n\r\n");
    LabelAfterLine(b);
    assert b[..2] == [0x34, 0x32];
    FortyTwo(b);
  }

  lemma FortyTwo(b: bytes)
    requires |b| > 2 && b[..2] == [0x34, 0x32] && b[2] == CR
    ensures Atoi(IsolatedDigits(b)) == 42
  {
    IsolatedIs(b, 2);
    assert b[..2][..1] == [0x34] && [0x34][..0] == [];
    assert ValueOf([0x34]) == 4;
    assert ValueOf(b[..2]) == 42;
  }
}
