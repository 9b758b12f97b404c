/**
  The definition parser as a whole: which JSON trees give which documents, as a
  relation on the members of the tree, and what that means for texts.
 */
module BenchmarkExact {
  import opened Bytes
  import opened JsonValues
  import opened BenchmarkInfos
  import opened BenchmarkDefinition
  import opened BenchmarkParts
  import opened BenchmarkMigration
  import opened BenchmarkText
  import opened BenchmarkOrder
  import JsonParser
  import JsonPretty
  import JsonText
  import JsonWrapper

  // ----- The identity of a document

  /** Labels and annotations say the identity. */
  ghost predicate HoistedFields(ds: Distributions, labels: seq<Member>, annotations: seq<Member>, info: Info) {
    && Says(labels, Ascii("framework"), info.framework)
    && (exists name :: Says(labels, Ascii("distribution"), name) && name in ds && ds[name] == info.distribution)
    && Says(labels, Ascii("distributionVersion"), info.version) && Literal(info.version)
    && Says(annotations, Ascii("benchmarkVersion"), info.benchmarkVersion)
    && info.section == []
  }

  ghost predicate LegacyThroughout(v: Value) {
    v.Object? && Lookup(v.members, Ascii("id")) == None
    && Lookup(v.members, Ascii("section")).Some? && Lookup(v.members, Ascii("payloadKey")).Some?
  }

  lemma LegacyThroughoutExactly(v: Value)
    ensures IsLegacyRule(v) <==> LegacyThroughout(v)
  {
    hide Lookup;
    Names();
  }

  /** Every rule is legacy throughout, and the key of the first one names the identity. */
  ghost predicate LegacyFields(ds: Distributions, rules: seq<Value>, info: Info) {
    && (forall i | 0 <= i < |rules| :: LegacyThroughout(rules[i]))
    && |rules| > 0 && info.section == []
    && exists key, section :: Says(rules[0].members, PAYLOAD_KEY, key) && KeyNames(ds, key, info.(section := section))
  }

  ghost predicate InfoFields(ds: Distributions, meta: seq<Member>, rules: seq<Value>, info: Info) {
    match (Lookup(meta, LABELS), Lookup(meta, ANNOTATIONS))
    case (Some(Object(labels)), Some(Object(annotations))) => HoistedFields(ds, labels, annotations, info)
    case (None, None) => LegacyFields(ds, rules, info)
    case _ => false
  }

  lemma HoistedExactly(ds: Distributions, labels: seq<Member>, annotations: seq<Member>, info: Info)
    ensures HoistedInfo(ds, Object(labels), Object(annotations)) == Success(info) <==> HoistedFields(ds, labels, annotations, info)
  {
    hide Lookup;
    hide Ascii;
    hide RequiredString;
    hide Says;
    hide NoGlobbing;
    hide Literal;
    LiteralExactly(info.version);
    RequiredExactly(labels, Ascii("framework"), info.framework);
    RequiredExactly(labels, Ascii("distributionVersion"), info.version);
    RequiredExactly(annotations, Ascii("benchmarkVersion"), info.benchmarkVersion);
    NonEmpty(labels, Ascii("framework"), info.framework);
    NonEmpty(labels, Ascii("distributionVersion"), info.version);
    NonEmpty(annotations, Ascii("benchmarkVersion"), info.benchmarkVersion);
    forall name ensures RequiredString(labels, Ascii("distribution")) == Success(name) <==> Says(labels, Ascii("distribution"), name) {
      RequiredExactly(labels, Ascii("distribution"), name);
    }
  }

  lemma NonEmpty(ms: seq<Member>, key: bytes, s: bytes)
    ensures Says(ms, key, s) ==> s != []
  {
  }

  lemma LegacyExactly(ds: Distributions, rules: seq<Value>, info: Info)
    requires |rules| > 0
    ensures LegacyInfo(ds, rules) == Success(info) <==> LegacyFields(ds, rules, info)
  {
    hide RequiredString;
    hide Says;
    hide ParseKey;
    hide KeyNames;
    hide IsLegacyRule;
    hide LegacyThroughout;
    forall i | 0 <= i < |rules| ensures IsLegacyRule(rules[i]) <==> LegacyThroughout(rules[i]) {
      LegacyThroughoutExactly(rules[i]);
    }
    if forall i | 0 <= i < |rules| :: IsLegacyRule(rules[i]) {
      assert rules[0].Object? by { LegacyIsObject(rules[0]); }
      var ms := rules[0].members;
      forall key ensures RequiredString(ms, PAYLOAD_KEY) == Success(key) <==> Says(ms, PAYLOAD_KEY, key) {
        RequiredExactly(ms, PAYLOAD_KEY, key);
      }
      forall key, named ensures ParseKey(ds, key) == Success(named) <==> KeyNames(ds, key, named) {
        ParseKeyExactly(ds, key, named);
      }
      if LegacyInfo(ds, rules) == Success(info) {
        var key := RequiredString(ms, PAYLOAD_KEY).value;
        var named := ParseKey(ds, key).value;
        assert info.(section := named.section) == named;
        assert Says(ms, PAYLOAD_KEY, key) && KeyNames(ds, key, info.(section := named.section));
      }
      if LegacyFields(ds, rules, info) {
        var key, section :| Says(ms, PAYLOAD_KEY, key) && KeyNames(ds, key, info.(section := section));
        assert ParseKey(ds, key) == Success(info.(section := section));
      }
    }
  }

  lemma LegacyIsObject(v: Value)
    requires IsLegacyRule(v)
    ensures v.Object?
  {
  }

  lemma InfoExactly(ds: Distributions, meta: seq<Member>, rules: seq<Value>, info: Info)
    requires |rules| > 0
    ensures DocumentInfo(ds, meta, rules) == Success(info) <==> InfoFields(ds, meta, rules, info)
  {
    hide Lookup;
    hide HoistedFields;
    hide LegacyFields;
    hide LegacyInfo;
    var labels, annotations := Lookup(meta, LABELS), Lookup(meta, ANNOTATIONS);
    if labels.Some? && annotations.Some? && labels.value.Object? && annotations.value.Object? {
      HoistedExactly(ds, labels.value.members, annotations.value.members, info);
    }
    LegacyExactly(ds, rules, info);
  }

  // ----- The document

  /** The members of e say the document d. */
  ghost predicate DocumentFields(ds: Distributions, e: Envelope, d: Document) {
    && d.name == e.name && d.version == e.version
    && InfoFields(ds, e.meta, e.rules, d.benchmarkInfo)
    && |d.resources| == |e.rules| && DistinctIds(d.resources)
    && (forall i | 0 <= i < |e.rules| ::
          e.rules[i].Object? && RuleFields(ds, e.rules[i].members, d.benchmarkInfo, d.resources[i]))
  }

  ghost predicate DocumentSays(ds: Distributions, root: Value, d: Document) {
    root.Object? && exists e :: EnvelopeParts(root.members, e) && DocumentFields(ds, e, d)
  }

  lemma YieldsExactly(ds: Distributions, rules: seq<Value>, info: Info, rs: seq<Resource>)
    requires WellFormed(Array(rules))
    ensures Yields(ds, rules, info, rs) <==>
      && |rs| == |rules| && DistinctIds(rs)
      && (forall i | 0 <= i < |rules| :: rules[i].Object? && RuleFields(ds, rules[i].members, info, rs[i]))
  {
    hide ParseRule;
    hide RuleFields;
    forall i | 0 <= i < |rules| && |rs| == |rules| && rules[i].Object?
      ensures ParseRule(ds, rules[i].members, info) == Success(rs[i]) <==> RuleFields(ds, rules[i].members, info, rs[i])
    {
      assert WellFormed(rules[i]) && rules[i] == Object(rules[i].members);
      RuleExactly(ds, rules[i].members, info, rs[i]);
    }
  }

  lemma EnvelopeDocument(ds: Distributions, root: Value, e: Envelope, d: Document)
    requires WellFormed(root) && ParseEnvelope(root) == Success(e)
    ensures ParseTree(ds, root) == Success(d) <==> DocumentFields(ds, e, d)
  {
    hide ParseEnvelope;
    hide EnvelopeParts;
    hide DocumentInfo;
    hide InfoFields;
    hide ParseRules;
    hide RuleFields;
    hide Yields;
    hide DistinctIds;
    hide WellFormed;
    RulesWellFormed(root, e);
    InfoExactly(ds, e.meta, e.rules, d.benchmarkInfo);
    ParseRulesExactly(ds, e.rules, d.benchmarkInfo, d.resources);
    YieldsExactly(ds, e.rules, d.benchmarkInfo, d.resources);
  }

  lemma RulesWellFormed(root: Value, e: Envelope)
    requires WellFormed(root) && ParseEnvelope(root) == Success(e)
    ensures WellFormed(Array(e.rules))
  {
    hide ParseEnvelope;
    hide Says;
    hide Lookup;
    EnvelopeExactly(root, e);
    assert root == Object(root.members);
    MemberWellFormed(root.members, SPEC);
    MemberWellFormed(e.spec, RULES);
  }

  /** For every tree that a JSON parser can return and every document: the tree is
      accepted as the document exactly when its members say the document, name by
      name, down to the tags, parameters and payload key of each rule. */
  lemma DocumentExactly(ds: Distributions, root: Value, d: Document)
    requires WellFormed(root)
    ensures ParseTree(ds, root) == Success(d) <==> DocumentSays(ds, root, d)
  {
    hide ParseEnvelope;
    hide EnvelopeParts;
    hide DocumentFields;
    hide WellFormed;
    if ParseTree(ds, root) == Success(d) {
      var e := ParseEnvelope(root).value;
      EnvelopeExactly(root, e);
      EnvelopeDocument(ds, root, e, d);
    }
    if DocumentSays(ds, root, d) {
      var e :| EnvelopeParts(root.members, e) && DocumentFields(ds, e, d);
      EnvelopeExactly(root, e);
      EnvelopeDocument(ds, root, e, d);
    }
  }

  /** The same for texts: a text is accepted as a document exactly when it passes
      the gate and the members of its tree say the document. */
  lemma TextExactly(ds: Distributions, json: bytes, d: Document)
    ensures ParseString(ds, json) == Accepted(d) <==>
      JsonWrapper.FromString(json).Ok? && DocumentSays(ds, JsonWrapper.FromString(json).value, d)
  {
    hide ParseTree;
    hide DocumentSays;
    if JsonWrapper.FromString(json).Ok? {
      JsonWrapper.LoadedIsNulFree(json);
      DocumentExactly(ds, JsonWrapper.FromString(json).value, d);
    }
  }

  // ----- Procedures

  /** For every accepted text and every rule of it, the procedure text of the rule is
      read back by the gate as exactly the payload of the rule. */
  lemma ProceduresReadBack(ds: Distributions, json: bytes, i: nat)
    requires ParseString(ds, json).Accepted? && i < |ParseString(ds, json).document.resources|
    ensures JsonWrapper.FromString(json).Ok?
    ensures ParseEnvelope(JsonWrapper.FromString(json).value).Success?
    ensures var rules := ParseEnvelope(JsonWrapper.FromString(json).value).value.rules;
      && i < |rules| && rules[i].Object?
      && Lookup(rules[i].members, Ascii("payload")).Some? && Lookup(rules[i].members, Ascii("payload")).value.Object?
      && JsonWrapper.FromString(ParseString(ds, json).document.resources[i].procedure)
           == JsonParser.Ok(Lookup(rules[i].members, Ascii("payload")).value, [])
  {
    hide ParseTree;
    hide ParseEnvelope;
    hide JsonWrapper.FromString;
    hide Lookup;
    hide Ascii;
    hide Storable;
    hide ParseRule;
    var root := JsonWrapper.FromString(json).value;
    var d := ParseTree(ds, root).value;
    LoadedIsStorable(json);
    var e, rule := AcceptedRule(ds, root, d, i);
    ProcedureReadsBack(ds, rule, d.benchmarkInfo, MAX_NESTING - 3);
  }

  /** The procedure text of a rule is a single line of printable characters without
      white space outside its strings, with a backslash in front of every slash. */
  lemma ProcedureShape(ds: Distributions, rule: seq<Member>, info: Info)
    requires ParseRule(ds, rule, info).Success?
    ensures var p := ParseRule(ds, rule, info).value.procedure;
      && JsonPretty.Strip(p, false) == p
      && (forall b | b in p :: b >= 0x20)
      && (forall i | 0 <= i < |p| && p[i] == '/' as int :: i > 0 && p[i - 1] == '\\' as int)
  {
    hide Lookup;
    hide RequiredString;
    hide ParseParameterMetadata;
    hide ParseTags;
    hide ParseMetadata;
    hide RuleIdentity;
    hide JsonText.Serialize;
    hide JsonPretty.Strip;
    var payload := Lookup(rule, Ascii("payload")).value;
    var p := JsonText.Serialize(payload, JsonText.Style(false, true));
    assert ParseRule(ds, rule, info).value.procedure == p;
    JsonPretty.StrippedIsCompact(payload, true);
    JsonPretty.NoControlCharacters(payload, true);
    forall i | 0 <= i < |p| && p[i] == '/' as int ensures i > 0 && p[i - 1] == '\\' as int {
      JsonPretty.SlashesEscaped(payload, false, i);
    }
  }

  lemma LoadedIsStorable(json: bytes)
    requires JsonWrapper.FromString(json).Ok?
    ensures Storable(JsonWrapper.FromString(json).value, MAX_NESTING)
  {
    hide JsonWrapper.FromString;
    JsonWrapper.LoadedIsNulFree(json);
  }

  lemma AcceptedRule(ds: Distributions, root: Value, d: Document, i: nat) returns (e: Envelope, rule: seq<Member>)
    requires Storable(root, MAX_NESTING) && ParseTree(ds, root) == Success(d) && i < |d.resources|
    ensures ParseEnvelope(root) == Success(e) && i < |e.rules| && e.rules[i] == Object(rule)
    ensures Storable(Object(rule), MAX_NESTING - 3)
    ensures ParseRule(ds, rule, d.benchmarkInfo) == Success(d.resources[i])
  {
    hide ParseEnvelope;
    hide DocumentInfo;
    hide ParseRules;
    hide ParseRule;
    hide Storable;
    hide Lookup;
    hide Says;
    e := ParseEnvelope(root).value;
    EnvelopeExactly(root, e);
    ParseRulesExactly(ds, e.rules, d.benchmarkInfo, d.resources);
    rule := e.rules[i].members;
    StorableLookup(root.members, MAX_NESTING, SPEC);
    StorableLookup(e.spec, MAX_NESTING - 1, RULES);
    StorableArray(e.rules, MAX_NESTING - 2);
  }
}
