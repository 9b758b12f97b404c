/**
  Benchmark identity: payload keys of the form
  /framework/distribution/version/benchmarkVersion/section and the same four
  fields taken from document metadata.
 */
module BenchmarkInfos {
  import opened Bytes

  datatype Result<+T> = Success(value: T) | Error(code: int) {
    predicate IsFailure() {
      Error?
    }

    function PropagateFailure<U>(): Result<U>
      requires Error?
    {
      Error(code)
    }

    function Extract(): T
      requires Success?
    {
      value
    }
  }

  const EINVAL: int := 22
  const E2BIG: int := 7

  /** The table behind `ParseLinuxDistribution`; no distribution has an empty name. */
  type Distributions = map<bytes, int>

  datatype Info = Info(framework: bytes, distribution: int, version: bytes, benchmarkVersion: bytes, section: bytes)

  datatype Line = Line(token: bytes, rest: bytes) | NoLine

  /** `std::getline` with a delimiter: nothing can be read from an exhausted stream. */
  function GetLine(t: bytes, delimiter: byte): (l: Line)
    ensures l.Line? ==> |l.rest| < |t|
    ensures l.Line? && NUL !in t ==> NUL !in l.token && NUL !in l.rest
  {
    if |t| == 0 then NoLine
    else
      match FindByte(t, delimiter)
      case None => Line(t, [])
      case Some(i) => Line(t[..i], t[i + 1..])
  }

  /** `ValidateGlobbing`; `strchr` also finds the terminator of its set. */
  predicate NoGlobbing(version: bytes) {
    forall c | c in version :: c != NUL && c != LBRACKET && c != RBRACKET && c != LBRACE && c != RBRACE
  }

  /** `BenchmarkInfo::FromMetadata`. */
  function FromMetadata(ds: Distributions, framework: bytes, distribution: bytes, version: bytes, benchmarkVersion: bytes): Result<Info> {
    if framework == [] || distribution !in ds || version == [] || !NoGlobbing(version) || benchmarkVersion == [] then Error(EINVAL)
    else Success(Info(framework, ds[distribution], version, benchmarkVersion, []))
  }

  /** The text of each field of a payload key. */
  datatype KeyText = KeyText(framework: bytes, distribution: bytes, version: bytes, benchmarkVersion: bytes, section: bytes)

  /** The `getline` calls of `BenchmarkInfo::Parse`. */
  function CutKey(key: bytes): Option<KeyText> {
    match GetLine(key, SLASH)
    case NoLine => None
    case Line(empty, t0) =>
      if empty != [] then None
      else
        match GetLine(t0, SLASH)
        case NoLine => None
        case Line(framework, t1) =>
          match GetLine(t1, SLASH)
          case NoLine => None
          case Line(distribution, t2) =>
            match GetLine(t2, SLASH)
            case NoLine => None
            case Line(version, t3) =>
              match GetLine(t3, SLASH)
              case NoLine => None
              case Line(benchmarkVersion, t4) =>
                match GetLine(t4, LF)
                case NoLine => None
                case Line(section, _) => Some(KeyText(framework, distribution, version, benchmarkVersion, section))
  }

  /** `BenchmarkInfo::Parse`. Every failure is EINVAL, so their order is not visible. */
  function ParseKey(ds: Distributions, key: bytes): Result<Info> {
    match CutKey(key)
    case None => Error(EINVAL)
    case Some(k) =>
      if k.framework == [] || k.distribution !in ds || k.version == [] || !NoGlobbing(k.version)
         || k.benchmarkVersion == [] || k.section == []
      then Error(EINVAL)
      else Success(Info(k.framework, ds[k.distribution], k.version, k.benchmarkVersion, k.section))
  }

  /** The payload key with these fields. */
  function KeyLine(k: KeyText): bytes {
    [SLASH] + (k.framework + [SLASH] + (k.distribution + [SLASH] + (k.version + [SLASH] + (k.benchmarkVersion + [SLASH] + k.section))))
  }

  predicate Cuttable(k: KeyText) {
    && SLASH !in k.framework && SLASH !in k.distribution && SLASH !in k.version && SLASH !in k.benchmarkVersion
    && LF !in k.section && k.section != []
  }

  lemma GetLineAt(a: bytes, delimiter: byte, rest: bytes)
    requires delimiter !in a
    ensures GetLine(a + [delimiter] + rest, delimiter) == Line(a, rest)
  {
    var t := a + [delimiter] + rest;
    FindByteAt(a, delimiter, rest);
    assert t[..|a|] == a && t[|a| + 1..] == rest;
  }

  /** line is the first line of t. */
  ghost predicate FirstLine(t: bytes, line: bytes) {
    LF !in line && (t == line || exists tail :: t == line + [LF] + tail)
  }

  lemma GetLineSplit(t: bytes, delimiter: byte)
    requires GetLine(t, delimiter).Line? && GetLine(t, delimiter).rest != []
    ensures var l := GetLine(t, delimiter);
      delimiter !in l.token && t == l.token + [delimiter] + l.rest
  {
  }

  lemma GetLineExactly(t: bytes, line: bytes)
    requires t != []
    ensures GetLine(t, LF).Line? && (GetLine(t, LF).token == line <==> FirstLine(t, line))
  {
    hide FindByte;
    if FirstLine(t, line) && t != line {
      var tail :| t == line + [LF] + tail;
      GetLineAt(line, LF, tail);
    }
    match FindByte(t, LF)
    case None =>
    case Some(i) => assert t == t[..i] + [LF] + t[i + 1..];
  }

  /** A key is cut into the fields k exactly when it is written from slash-free
      fields and a text whose first line is the section. */
  lemma CutExactly(key: bytes, k: KeyText)
    requires k.section != []
    ensures CutKey(key) == Some(k) <==>
      Cuttable(k) && exists rest :: key == KeyLine(k.(section := rest)) && FirstLine(rest, k.section)
  {
    hide GetLine;
    hide FirstLine;
    if CutKey(key) == Some(k) {
      var l0 := GetLine(key, SLASH);
      var l1 := GetLine(l0.rest, SLASH);
      var l2 := GetLine(l1.rest, SLASH);
      var l3 := GetLine(l2.rest, SLASH);
      var l4 := GetLine(l3.rest, SLASH);
      CutRests(key);
      GetLineSplit(key, SLASH);
      GetLineSplit(l0.rest, SLASH);
      GetLineSplit(l1.rest, SLASH);
      GetLineSplit(l2.rest, SLASH);
      GetLineSplit(l3.rest, SLASH);
      GetLineExactly(l4.rest, k.section);
      assert [] + [SLASH] + l0.rest == [SLASH] + l0.rest;
      assert key == KeyLine(k.(section := l4.rest));
      NoLineFeed(l4.rest, k.section);
    }
    if Cuttable(k) && exists rest :: key == KeyLine(k.(section := rest)) && FirstLine(rest, k.section) {
      var rest :| key == KeyLine(k.(section := rest)) && FirstLine(rest, k.section);
      KeyCut(k, rest);
    }
  }

  lemma NoLineFeed(t: bytes, line: bytes)
    requires FirstLine(t, line)
    ensures LF !in line && (line != [] ==> t != [])
  {
  }

  /** Every line but the last leaves something to read. */
  lemma CutRests(key: bytes)
    requires CutKey(key).Some?
    ensures var l0 := GetLine(key, SLASH);
      l0.Line? && l0.rest != [] &&
      var l1 := GetLine(l0.rest, SLASH);
      l1.Line? && l1.rest != [] &&
      var l2 := GetLine(l1.rest, SLASH);
      l2.Line? && l2.rest != [] &&
      var l3 := GetLine(l2.rest, SLASH);
      l3.Line? && l3.rest != [] &&
      var l4 := GetLine(l3.rest, SLASH);
      l4.Line? && l4.rest != []
  {
    hide FindByte;
  }

  lemma KeyCut(k: KeyText, rest: bytes)
    requires Cuttable(k) && FirstLine(rest, k.section)
    ensures CutKey(KeyLine(k.(section := rest))) == Some(k)
  {
    hide GetLine;
    hide FindByte;
    hide FirstLine;
    var t3 := k.benchmarkVersion + [SLASH] + rest;
    var t2 := k.version + [SLASH] + t3;
    var t1 := k.distribution + [SLASH] + t2;
    var t0 := k.framework + [SLASH] + t1;
    GetLineAt([], SLASH, t0);
    assert [] + [SLASH] + t0 == KeyLine(k.(section := rest));
    GetLineAt(k.framework, SLASH, t1);
    GetLineAt(k.distribution, SLASH, t2);
    GetLineAt(k.version, SLASH, t3);
    GetLineAt(k.benchmarkVersion, SLASH, rest);
    NoLineFeed(rest, k.section);
    GetLineExactly(rest, k.section);
  }

  /** Writing a key and cutting it up again gives its fields back. */
  lemma KeyRoundTrip(k: KeyText)
    requires Cuttable(k)
    ensures CutKey(KeyLine(k)) == Some(k)
  {
    assert k.(section := k.section) == k;
    KeyCut(k, k.section);
  }

  /** The key names the identity: its fields are those of info, the distribution by
      a name of the table, and nothing but further lines stands behind the section. */
  ghost predicate KeyNames(ds: Distributions, key: bytes, info: Info) {
    exists k, rest ::
      && Cuttable(k) && key == KeyLine(k.(section := rest)) && FirstLine(rest, k.section)
      && IdentityOf(ds, k, info)
  }

  /** A version without wildcards; NUL counts as one, being the end of their list. */
  ghost predicate Literal(version: bytes) {
    forall i | 0 <= i < |version| :: version[i] != 0 && version[i] as char !in "[]{}"
  }

  lemma LiteralExactly(version: bytes)
    ensures NoGlobbing(version) <==> Literal(version)
  {
    forall i | 0 <= i < |version| ensures version[i] in version {
    }
    assert "[]{}" == ['[', ']', '{', '}'];
  }

  ghost predicate IdentityOf(ds: Distributions, k: KeyText, info: Info) {
    && k.framework == info.framework != [] && k.distribution in ds && ds[k.distribution] == info.distribution
    && k.version == info.version != [] && Literal(info.version)
    && k.benchmarkVersion == info.benchmarkVersion != [] && k.section == info.section != []
  }

  /** `BenchmarkInfo::Parse` accepts exactly the keys that name an identity. */
  lemma ParseKeyExactly(ds: Distributions, key: bytes, info: Info)
    ensures ParseKey(ds, key) == Success(info) <==> KeyNames(ds, key, info)
  {
    hide CutKey;
    hide KeyLine;
    hide FirstLine;
    hide Cuttable;
    hide NoGlobbing;
    hide Literal;
    LiteralExactly(info.version);
    if ParseKey(ds, key) == Success(info) {
      CutExactly(key, CutKey(key).value);
    }
    if KeyNames(ds, key, info) {
      var k, rest :| Cuttable(k) && key == KeyLine(k.(section := rest)) && FirstLine(rest, k.section) && IdentityOf(ds, k, info);
      CutExactly(key, k);
    }
  }

  /** The fields of a NUL-free key are NUL-free. */
  lemma CutKeyNulFree(key: bytes)
    requires NUL !in key && CutKey(key).Some?
    ensures var k := CutKey(key).value;
      NUL !in k.framework && NUL !in k.distribution && NUL !in k.version && NUL !in k.benchmarkVersion
  {
    hide GetLine;
    var l0 := GetLine(key, SLASH);
    var l1 := GetLine(l0.rest, SLASH);
    var l2 := GetLine(l1.rest, SLASH);
    var l3 := GetLine(l2.rest, SLASH);
    var l4 := GetLine(l3.rest, SLASH);
  }

  /** The file-level identity of a payload key is what its four leading fields give
      as metadata: hoisting the identity out of a rule loses nothing. */
  lemma HoistedIdentity(ds: Distributions, key: bytes)
    requires ParseKey(ds, key).Success?
    ensures var k := CutKey(key).value;
      FromMetadata(ds, k.framework, k.distribution, k.version, k.benchmarkVersion)
        == Success(ParseKey(ds, key).value.(section := []))
  {
  }
}
