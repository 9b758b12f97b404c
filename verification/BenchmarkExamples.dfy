/**
  Legacy documents that are accepted, one for every list of agreeing payload keys,
  and a reordering that changes the identity by a leading `v`.
 */
module BenchmarkExamples {
  import opened Bytes
  import opened JsonValues
  import opened BenchmarkInfos
  import opened BenchmarkDefinition
  import opened BenchmarkParts
  import opened BenchmarkMigration
  import opened BenchmarkOrder
  import ContentVersions

  const WORD: bytes := [0x74]

  /** The identity of a legacy rule, with the parts of its section. */
  datatype LegacyKey = LegacyKey(framework: bytes, distribution: bytes, version: bytes, benchmarkVersion: bytes, parts: seq<bytes>)

  /** The payload key joins the parts with slashes, */
  function KeyFields(k: LegacyKey): KeyText {
    KeyText(k.framework, k.distribution, k.version, k.benchmarkVersion, Join(k.parts, '/' as int))
  }

  function KeyTextOf(k: LegacyKey): bytes {
    KeyLine(KeyFields(k))
  }

  /** and `section` joins them with dots. */
  function SectionOf(k: LegacyKey): bytes {
    Join(k.parts, '.' as int)
  }

  function RuleMembers(k: LegacyKey): seq<Member> {
    [Member(Ascii("title"), String(WORD)),
     Member(Ascii("ruleId"), String(WORD)),
     Member(Ascii("ruleName"), String(WORD)),
     Member(Ascii("payload"), Object([])),
     Member(Ascii("tags"), Array([])),
     Member(METADATA, Object([])),
     Member(SECTION, String(SectionOf(k))),
     Member(PAYLOAD_KEY, String(KeyTextOf(k)))]
  }

  lemma RuleNames(k: LegacyKey)
    ensures var ms := RuleMembers(k);
      && DistinctKeys(ms) && !HasKey(ms, ID) && !HasKey(ms, Ascii("parameterMetadata"))
      && METADATA == Ascii("metadata")
  {
    hide KeyTextOf;
    hide SectionOf;
    var ms := RuleMembers(k);
    assert METADATA == Ascii("metadata");
    assert ms[2].key[0] == 'r' as int && ms[3].key[0] == 'p' as int;
    assert forall i | 0 <= i < |ms| :: |ms[i].key| != 2 && |ms[i].key| != 17;
    assert |Ascii("parameterMetadata")| == 17;
    hide Ascii;
    assert forall i, j | 0 <= i < j < |ms| :: |ms[i].key| != |ms[j].key| || ms[i].key[0] != ms[j].key[0];
  }

  lemma RuleLookups(k: LegacyKey)
    ensures var ms := RuleMembers(k);
      && Lookup(ms, Ascii("title")) == Some(String(WORD))
      && Lookup(ms, Ascii("ruleId")) == Some(String(WORD))
      && Lookup(ms, Ascii("ruleName")) == Some(String(WORD))
      && Lookup(ms, Ascii("payload")) == Some(Object([]))
      && Lookup(ms, Ascii("parameterMetadata")) == None
      && Lookup(ms, Ascii("tags")) == Some(Array([]))
      && Lookup(ms, Ascii("metadata")) == Some(Object([]))
      && Lookup(ms, SECTION) == Some(String(SectionOf(k)))
      && Lookup(ms, PAYLOAD_KEY) == Some(String(KeyTextOf(k)))
      && Lookup(ms, ID) == None
  {
    hide Lookup;
    hide KeyTextOf;
    hide SectionOf;
    hide Ascii;
    hide DistinctKeys;
    var ms := RuleMembers(k);
    RuleNames(k);
    LookupSlot(ms, 0);
    LookupSlot(ms, 1);
    LookupSlot(ms, 2);
    LookupSlot(ms, 3);
    LookupSlot(ms, 4);
    LookupSlot(ms, 5);
    LookupSlot(ms, 6);
    LookupSlot(ms, 7);
  }

  /** Parts that can be joined with slashes and with dots. */
  predicate GoodParts(parts: seq<bytes>) {
    |parts| > 0 && forall i | 0 <= i < |parts| ::
      parts[i] != [] && '/' as int !in parts[i] && '.' as int !in parts[i] && '\n' as int !in parts[i] && NUL !in parts[i]
  }

  predicate GoodField(s: bytes) {
    s != [] && '/' as int !in s && NUL !in s
  }

  /** A key that the parser takes. */
  predicate GoodKey(ds: Distributions, k: LegacyKey) {
    && GoodField(k.framework) && GoodField(k.distribution) && GoodField(k.version) && GoodField(k.benchmarkVersion)
    && k.distribution in ds && NoGlobbing(k.version) && GoodParts(k.parts)
  }

  function InfoOf(ds: Distributions, k: LegacyKey): Info {
    Info(k.framework, if k.distribution in ds then ds[k.distribution] else 0, k.version, k.benchmarkVersion, Join(k.parts, '/' as int))
  }

  lemma {:induction false} JoinedParts(parts: seq<bytes>, separator: byte)
    requires GoodParts(parts) && separator != NUL && separator != LF
    ensures Join(parts, separator) != [] && NUL !in Join(parts, separator) && LF !in Join(parts, separator)
  {
    assert parts[0] != [];
    if |parts| > 1 {
      assert GoodParts(parts[1..]);
      JoinedParts(parts[1..], separator);
    }
  }

  lemma KeyParses(ds: Distributions, k: LegacyKey)
    requires GoodKey(ds, k)
    ensures ParseKey(ds, KeyTextOf(k)) == Success(InfoOf(ds, k))
    ensures NUL !in KeyTextOf(k) && |KeyTextOf(k)| > 0
  {
    hide CutKey;
    hide Join;
    hide NoGlobbing;
    JoinedParts(k.parts, SLASH);
    KeyRoundTrip(KeyFields(k));
  }

  /** A rule whose section joins the parts with dots and whose payload key joins them
      with slashes is identified by its section; no other section is accepted with
      that key. */
  lemma SectionExactly(ds: Distributions, ms: seq<Member>, k: LegacyKey, section: bytes, info: Info)
    requires GoodKey(ds, k) && Agree(InfoOf(ds, k), info)
    requires Lookup(ms, ID) == None && Lookup(ms, SECTION) == Some(String(section)) && Lookup(ms, PAYLOAD_KEY) == Some(String(KeyTextOf(k)))
    ensures RuleIdentity(ds, ms, info).Success? <==> section == SectionOf(k)
    ensures RuleIdentity(ds, ms, info).Success? ==> RuleIdentity(ds, ms, info) == Success(SectionOf(k))
  {
    hide Lookup;
    hide ParseKey;
    hide KeyTextOf;
    hide Agree;
    hide SamePrefix;
    hide SlashesToDots;
    hide Join;
    hide Dotted;
    KeyParses(ds, k);
    JoinedParts(k.parts, DOT);
    PartsAreSlashFree(k.parts);
    DottedParts(k.parts);
    DottedExactly(Join(k.parts, SLASH), Join(k.parts, DOT));
    SamePrefixExactly(InfoOf(ds, k), info);
  }

  lemma PartsAreSlashFree(parts: seq<bytes>)
    requires GoodParts(parts)
    ensures Without(parts, SLASH) && Without(parts, DOT)
  {
  }

  lemma ExampleIdentity(ds: Distributions, k: LegacyKey, info: Info)
    requires GoodKey(ds, k) && Agree(InfoOf(ds, k), info)
    ensures IsLegacyRule(Object(RuleMembers(k)))
    ensures RequiredString(RuleMembers(k), PAYLOAD_KEY) == Success(KeyTextOf(k))
    ensures RuleIdentity(ds, RuleMembers(k), info) == Success(SectionOf(k))
  {
    hide Lookup;
    hide ParseKey;
    hide KeyTextOf;
    hide RuleMembers;
    hide RuleIdentity;
    hide Agree;
    hide GoodKey;
    RuleLookups(k);
    KeyParses(ds, k);
    SectionExactly(ds, RuleMembers(k), k, SectionOf(k), info);
  }

  lemma ExampleRule(ds: Distributions, k: LegacyKey, info: Info)
    requires GoodKey(ds, k) && Agree(InfoOf(ds, k), info)
    ensures ParseRule(ds, RuleMembers(k), info).Success?
    ensures ParseRule(ds, RuleMembers(k), info).value.id == SectionOf(k)
  {
    hide Lookup;
    hide RuleMembers;
    hide RuleIdentity;
    hide Agree;
    hide GoodKey;
    hide Ascii;
    RuleLookups(k);
    ExampleIdentity(ds, k, info);
    EmptyMetadata();
  }

  lemma EmptyMetadata()
    ensures forall key :: Lookup([], key) == None
    ensures forall key :: OptionalString([], key) == Success(None)
  {
  }

  // ----- Documents

  function RulesOf(ks: seq<LegacyKey>): (rules: seq<Value>)
    ensures |rules| == |ks|
  {
    seq(|ks|, i requires 0 <= i < |ks| => Object(RuleMembers(ks[i])))
  }

  const ONE: ContentVersions.Version := ContentVersions.Version([0x31], [0x30], [0x30])

  function MetaOf(): seq<Member> {
    [Member(Ascii("name"), String(WORD))]
  }

  function SpecOf(rules: seq<Value>): seq<Member> {
    [Member(Ascii("version"), String(ContentVersions.Print(ONE))), Member(RULES, Array(rules))]
  }

  function DocumentOf(ks: seq<LegacyKey>): Value {
    Object([Member(Ascii("kind"), String(Ascii("BenchmarkDefinition"))),
            Member(Ascii("apiVersion"), String(Ascii("v1"))),
            Member(METADATA, Object(MetaOf())),
            Member(SPEC, Object(SpecOf(RulesOf(ks))))])
  }

  lemma ExampleRoot(ks: seq<LegacyKey>)
    ensures var ms := DocumentOf(ks).members;
      && Says(ms, Ascii("kind"), Ascii("BenchmarkDefinition")) && Says(ms, Ascii("apiVersion"), Ascii("v1"))
      && Lookup(ms, METADATA) == Some(Object(MetaOf())) && Lookup(ms, SPEC) == Some(Object(SpecOf(RulesOf(ks))))
  {
    hide Lookup;
    hide RulesOf;
    hide SpecOf;
    hide MetaOf;
    var ms := DocumentOf(ks).members;
    assert |ms[0].key| == 4 && |ms[1].key| == 10 && |ms[2].key| == 8 && |ms[3].key| == 4;
    assert ms[0].key[0] == 'k' as int;
    LookupSlot(ms, 0);
    LookupSlot(ms, 1);
    LookupSlot(ms, 2);
    LookupSlot(ms, 3);
    assert NUL !in Ascii("BenchmarkDefinition") && NUL !in Ascii("v1");
  }

  lemma ExampleParts(rules: seq<Value>)
    ensures Says(MetaOf(), Ascii("name"), WORD)
    ensures Says(SpecOf(rules), Ascii("version"), ContentVersions.Print(ONE))
    ensures Lookup(SpecOf(rules), RULES) == Some(Array(rules))
    ensures !HasKey(MetaOf(), LABELS) && !HasKey(MetaOf(), ANNOTATIONS)
  {
    hide Lookup;
    hide ContentVersions.Print;
    var meta, spec := MetaOf(), SpecOf(rules);
    EnvelopeNames();
    VersionText();
    LookupSlot(meta, 0);
    LookupSlot(spec, 0);
    LookupSlot(spec, 1);
  }

  lemma ExampleEnvelope(ks: seq<LegacyKey>)
    requires 0 < |ks| <= MAX_RULES
    ensures ParseEnvelope(DocumentOf(ks)) == Success(Envelope(MetaOf(), SpecOf(RulesOf(ks)), WORD, ONE, RulesOf(ks)))
    ensures Lookup(MetaOf(), LABELS) == None && Lookup(MetaOf(), ANNOTATIONS) == None
  {
    hide Lookup;
    hide RulesOf;
    hide SpecOf;
    hide MetaOf;
    hide Says;
    hide ParseEnvelope;
    hide ContentVersions.Print;
    hide Ascii;
    ExampleRoot(ks);
    ExampleParts(RulesOf(ks));
    VersionText();
    EnvelopeExactly(DocumentOf(ks), Envelope(MetaOf(), SpecOf(RulesOf(ks)), WORD, ONE, RulesOf(ks)));
  }

  lemma VersionText()
    ensures ContentVersions.Valid(ONE)
    ensures NUL !in ContentVersions.Print(ONE) && |ContentVersions.Print(ONE)| > 0
  {
  }

  /** Acceptable keys that agree with the first one, with distinct sections. */
  ghost predicate GoodKeys(ds: Distributions, ks: seq<LegacyKey>) {
    && 0 < |ks| <= MAX_RULES
    && (forall i | 0 <= i < |ks| :: GoodKey(ds, ks[i]) && Agree(InfoOf(ds, ks[i]), InfoOf(ds, ks[0])))
    && (forall i, j | 0 <= i < j < |ks| :: ks[i].parts != ks[j].parts)
  }

  /** Every such list is the list of keys of an accepted legacy document, whose
      identity is that of the first key. */
  lemma LegacyDocument(ds: Distributions, ks: seq<LegacyKey>) returns (d: Document)
    requires GoodKeys(ds, ks)
    ensures ParseTree(ds, DocumentOf(ks)) == Success(d)
    ensures d.benchmarkInfo == InfoOf(ds, ks[0]).(section := [])
    ensures |d.resources| == |ks| && forall i | 0 <= i < |ks| :: d.resources[i].id == SectionOf(ks[i])
  {
    hide ParseEnvelope;
    hide ParseRules;
    hide DocumentInfo;
    hide ParseRule;
    hide RuleMembers;
    hide RulesOf;
    hide DocumentOf;
    hide GoodKeys;
    hide Yields;
    GoodKeysCount(ds, ks);
    var info := InfoOf(ds, ks[0]).(section := []);
    ExampleEnvelope(ks);
    ExampleInfo(ds, ks, info);
    var rs := ExampleRules(ds, ks, info);
    ParseRulesExactly(ds, RulesOf(ks), info, rs);
    d := Document(WORD, ONE, info, rs);
  }

  lemma GoodKeysCount(ds: Distributions, ks: seq<LegacyKey>)
    requires GoodKeys(ds, ks)
    ensures 0 < |ks| <= MAX_RULES
  {
  }

  lemma ExampleRules(ds: Distributions, ks: seq<LegacyKey>, info: Info) returns (rs: seq<Resource>)
    requires GoodKeys(ds, ks) && info == InfoOf(ds, ks[0]).(section := [])
    ensures Yields(ds, RulesOf(ks), info, rs)
    ensures |rs| == |ks| && forall i | 0 <= i < |ks| :: rs[i].id == SectionOf(ks[i])
  {
    hide ParseRule;
    hide RuleMembers;
    hide GoodKey;
    forall i | 0 <= i < |ks|
      ensures ParseRule(ds, RuleMembers(ks[i]), info).Success? && ParseRule(ds, RuleMembers(ks[i]), info).value.id == SectionOf(ks[i])
    {
      ExampleRule(ds, ks[i], info);
    }
    rs := seq(|ks|, i requires 0 <= i < |ks| => ParseRule(ds, RuleMembers(ks[i]), info).value);
    forall i, j | 0 <= i < j < |ks| ensures rs[i].id != rs[j].id {
      SectionsDiffer(ds, ks[i], ks[j]);
    }
  }

  lemma SectionsDiffer(ds: Distributions, k: LegacyKey, l: LegacyKey)
    requires GoodKey(ds, k) && GoodKey(ds, l) && k.parts != l.parts
    ensures SectionOf(k) != SectionOf(l)
  {
    PartsAreSlashFree(k.parts);
    PartsAreSlashFree(l.parts);
    if SectionOf(k) == SectionOf(l) {
      JoinInjective(k.parts, l.parts, DOT);
    }
  }

  lemma ExampleInfo(ds: Distributions, ks: seq<LegacyKey>, info: Info)
    requires GoodKeys(ds, ks) && info == InfoOf(ds, ks[0]).(section := [])
    ensures DocumentInfo(ds, MetaOf(), RulesOf(ks)) == Success(info)
  {
    hide ParseKey;
    hide RequiredString;
    hide RuleMembers;
    hide GoodKey;
    hide Lookup;
    hide HoistedInfo;
    var rules := RulesOf(ks);
    forall i | 0 <= i < |ks| ensures IsLegacyRule(rules[i]) {
      ExampleIdentity(ds, ks[i], InfoOf(ds, ks[i]));
    }
    ExampleIdentity(ds, ks[0], InfoOf(ds, ks[0]));
    KeyParses(ds, ks[0]);
    ExampleEnvelope(ks);
  }

  const FIRST: LegacyKey := LegacyKey([0x63], [0x75], [0x31], [0x76, 0x31], [[0x31], [0x31]])
  const SECOND: LegacyKey := LegacyKey([0x63], [0x75], [0x31], [0x31], [[0x31], [0x32]])

  /** The benchmark version is not independent of the order: with keys that write it
      "v1" and "1", the document takes over whichever comes first. */
  lemma OrderShowsInV()
    ensures var ds: Distributions := map[[0x75] := 0];
      var root, swapped := DocumentOf([FIRST, SECOND]), DocumentOf([SECOND, FIRST]);
      && ParseTree(ds, root).Success? && ParseTree(ds, swapped).Success?
      && ParseTree(ds, root).value.benchmarkInfo != ParseTree(ds, swapped).value.benchmarkInfo
  {
    hide ParseTree;
    hide DocumentOf;
    var ds: Distributions := map[[0x75] := 0];
    ExamplesAgree(ds);
    var d := LegacyDocument(ds, [FIRST, SECOND]);
    var d' := LegacyDocument(ds, [SECOND, FIRST]);
  }

  lemma ExamplesAgree(ds: Distributions)
    requires ds == map[[0x75] := 0]
    ensures GoodKeys(ds, [FIRST, SECOND]) && GoodKeys(ds, [SECOND, FIRST])
  {
    assert FIRST.parts[1] == [0x31] && SECOND.parts[1] == [0x32];
    assert [0x31] != [0x32] by {
      assert [0x31][0] != [0x32][0];
    }
    assert UpToV(FIRST.benchmarkVersion, [0x31]) && UpToV(SECOND.benchmarkVersion, [0x31]);
  }
}
