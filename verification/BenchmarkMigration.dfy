/**
  Moving a document from legacy rule identities to hoisted ones: each rule gets
  `id` in place of `section` and `payloadKey`, and the identity of the document is
  written to `metadata.labels` and `metadata.annotations`. The migrated document is
  shown to parse to an equal BenchmarkDocument, as a tree and as text.
 */
module BenchmarkMigration {
  import opened Bytes
  import opened JsonValues
  import opened BenchmarkInfos
  import opened BenchmarkDefinition
  import opened BenchmarkParts
  import ContentVersions
  import JsonText

  // ----- Rewriting objects

  /** The object without the two legacy names. */
  function DropLegacy(ms: seq<Member>): seq<Member> {
    if |ms| == 0 then []
    else if ms[0].key == SECTION || ms[0].key == PAYLOAD_KEY then DropLegacy(ms[1..])
    else [ms[0]] + DropLegacy(ms[1..])
  }

  function MigrateRule(v: Value): Value {
    if IsLegacyRule(v) then Object(DropLegacy(v.members) + [Member(ID, Lookup(v.members, SECTION).value)]) else v
  }

  function MigrateRules(rules: seq<Value>): (out: seq<Value>)
    ensures |out| == |rules|
  {
    seq(|rules|, i requires 0 <= i < |rules| => MigrateRule(rules[i]))
  }

  /** The first value under a name is replaced. */
  function Put(ms: seq<Member>, key: bytes, v: Value): seq<Member> {
    if |ms| == 0 then []
    else if ms[0].key == key then [Member(key, v)] + ms[1..]
    else [ms[0]] + Put(ms[1..], key, v)
  }

  function Labels(k: KeyText): Value {
    Object([Member(Ascii("framework"), String(k.framework)),
            Member(Ascii("distribution"), String(k.distribution)),
            Member(Ascii("distributionVersion"), String(k.version))])
  }

  function Annotations(k: KeyText): Value {
    Object([Member(Ascii("benchmarkVersion"), String(k.benchmarkVersion))])
  }

  /** The payload key of a rule, cut into its fields. */
  function KeyOf(rule: Value): Option<KeyText> {
    if !rule.Object? then None
    else
      match RequiredString(rule.members, PAYLOAD_KEY)
      case Error(_) => None
      case Success(key) => CutKey(key)
  }

  function MigrateMeta(meta: seq<Member>, rules: seq<Value>): seq<Member> {
    if HasKey(meta, LABELS) || |rules| == 0 || KeyOf(rules[0]).None? then meta
    else meta + [Member(LABELS, Labels(KeyOf(rules[0]).value)), Member(ANNOTATIONS, Annotations(KeyOf(rules[0]).value))]
  }

  function Migrate(root: Value): Value {
    match ParseEnvelope(root)
    case Error(_) => root
    case Success(e) =>
      var spec := Put(e.spec, RULES, Array(MigrateRules(e.rules)));
      Object(Put(Put(root.members, METADATA, Object(MigrateMeta(e.meta, e.rules))), SPEC, Object(spec)))
  }

  // ----- Lookups in rewritten objects

  lemma {:induction false} LookupDropped(ms: seq<Member>, key: bytes)
    ensures Lookup(DropLegacy(ms), key) == if key == SECTION || key == PAYLOAD_KEY then None else Lookup(ms, key)
  {
    if |ms| > 0 {
      LookupDropped(ms[1..], key);
      if ms[0].key != SECTION && ms[0].key != PAYLOAD_KEY {
        assert DropLegacy(ms)[1..] == DropLegacy(ms[1..]);
      }
    }
  }

  lemma {:induction false} LookupConcat(a: seq<Member>, b: seq<Member>, key: bytes)
    ensures Lookup(a + b, key) == if Lookup(a, key).Some? then Lookup(a, key) else Lookup(b, key)
  {
    if |a| == 0 {
      assert a + b == b;
    } else {
      assert (a + b)[1..] == a[1..] + b;
      LookupConcat(a[1..], b, key);
    }
  }

  lemma {:induction false} LookupPut(ms: seq<Member>, key: bytes, v: Value, other: bytes)
    ensures Lookup(Put(ms, key, v), other) == if other == key && Lookup(ms, key).Some? then Some(v) else Lookup(ms, other)
  {
    if |ms| > 0 {
      if ms[0].key == key {
        assert Put(ms, key, v)[1..] == ms[1..];
      } else {
        assert Put(ms, key, v)[1..] == Put(ms[1..], key, v);
        LookupPut(ms[1..], key, v, other);
      }
    }
  }

  // ----- One rule

  /** Every field but the identity of a migrated rule is what it was. */
  lemma MigratedField(v: Value, key: bytes)
    requires IsLegacyRule(v) && key != ID && key != SECTION && key != PAYLOAD_KEY
    ensures Lookup(MigrateRule(v).members, key) == Lookup(v.members, key)
  {
    var m := Member(ID, Lookup(v.members, SECTION).value);
    LookupDropped(v.members, key);
    LookupConcat(DropLegacy(v.members), [m], key);
    assert [m][1..] == [];
  }

  lemma MigratedIdentity(v: Value)
    requires IsLegacyRule(v)
    ensures Lookup(MigrateRule(v).members, ID) == Lookup(v.members, SECTION)
    ensures Lookup(MigrateRule(v).members, SECTION) == None
    ensures Lookup(MigrateRule(v).members, PAYLOAD_KEY) == None
  {
    var m := Member(ID, Lookup(v.members, SECTION).value);
    LookupDropped(v.members, ID);
    LookupDropped(v.members, SECTION);
    LookupDropped(v.members, PAYLOAD_KEY);
    LookupConcat(DropLegacy(v.members), [m], ID);
    LookupConcat(DropLegacy(v.members), [m], SECTION);
    LookupConcat(DropLegacy(v.members), [m], PAYLOAD_KEY);
    assert [m][1..] == [];
  }

  lemma RuleFieldNames()
    ensures Ascii("title") != ID && Ascii("title") != SECTION && Ascii("title") != PAYLOAD_KEY
    ensures Ascii("ruleId") != ID && Ascii("ruleId") != SECTION && Ascii("ruleId") != PAYLOAD_KEY
    ensures Ascii("ruleName") != ID && Ascii("ruleName") != SECTION && Ascii("ruleName") != PAYLOAD_KEY
    ensures Ascii("payload") != ID && Ascii("payload") != SECTION && Ascii("payload") != PAYLOAD_KEY
    ensures Ascii("parameterMetadata") != ID && Ascii("parameterMetadata") != SECTION && Ascii("parameterMetadata") != PAYLOAD_KEY
    ensures Ascii("tags") != ID && Ascii("tags") != SECTION && Ascii("tags") != PAYLOAD_KEY
    ensures METADATA == Ascii("metadata") != ID && METADATA != SECTION && METADATA != PAYLOAD_KEY
  {
    assert Ascii("payload")[0] == 'p' as int;
    assert METADATA == Ascii("metadata");
  }

  /** The fields of a rule other than its identity. */
  ghost predicate SameFields(ms: seq<Member>, ns: seq<Member>) {
    && Lookup(ms, Ascii("title")) == Lookup(ns, Ascii("title"))
    && Lookup(ms, Ascii("ruleId")) == Lookup(ns, Ascii("ruleId"))
    && Lookup(ms, Ascii("ruleName")) == Lookup(ns, Ascii("ruleName"))
    && Lookup(ms, Ascii("payload")) == Lookup(ns, Ascii("payload"))
    && Lookup(ms, Ascii("parameterMetadata")) == Lookup(ns, Ascii("parameterMetadata"))
    && Lookup(ms, Ascii("tags")) == Lookup(ns, Ascii("tags"))
    && Lookup(ms, Ascii("metadata")) == Lookup(ns, Ascii("metadata"))
  }

  lemma PartsDependOn(ms: seq<Member>, ns: seq<Member>)
    requires SameFields(ms, ns)
    ensures RequiredString(ms, Ascii("title")) == RequiredString(ns, Ascii("title"))
    ensures RequiredString(ms, Ascii("ruleId")) == RequiredString(ns, Ascii("ruleId"))
    ensures RequiredString(ms, Ascii("ruleName")) == RequiredString(ns, Ascii("ruleName"))
    ensures SerializeProcedure(ms) == SerializeProcedure(ns)
  {
    hide Lookup;
    hide Ascii;
    hide JsonText.Serialize;
  }

  lemma ListsDependOn(ms: seq<Member>, ns: seq<Member>)
    requires SameFields(ms, ns)
    ensures ParseParameterMetadata(ms) == ParseParameterMetadata(ns)
    ensures ParseTags(ms) == ParseTags(ns)
    ensures ParseMetadata(ms) == ParseMetadata(ns)
  {
    hide Lookup;
    hide ParseParameters;
    hide ParseTagList;
    hide ParseAdditional;
    hide OptionalString;
    hide Ascii;
  }

  /** The result of ParseRule depends on those fields and on the identity alone. */
  lemma RuleDependsOn(ds: Distributions, ms: seq<Member>, info: Info, ns: seq<Member>)
    requires SameFields(ms, ns) && RuleIdentity(ds, ms, info) == RuleIdentity(ds, ns, info)
    ensures ParseRule(ds, ms, info) == ParseRule(ds, ns, info)
  {
    hide SameFields;
    hide RuleIdentity;
    hide RequiredString;
    hide SerializeProcedure;
    hide ParseParameterMetadata;
    hide ParseTags;
    hide ParseMetadata;
    PartsDependOn(ms, ns);
    ListsDependOn(ms, ns);
  }

  /** An accepted rule is accepted after migration, with the same resource. */
  lemma MigratedRule(ds: Distributions, v: Value, info: Info)
    requires v.Object? && ParseRule(ds, v.members, info).Success?
    ensures MigrateRule(v).Object? && ParseRule(ds, MigrateRule(v).members, info) == ParseRule(ds, v.members, info)
  {
    hide ParseRule;
    hide LegacyIdentity;
    if IsLegacyRule(v) {
      MigratedFields(v);
      var ns := MigrateRule(v).members;
      MigratedIdentity(v);
      AcceptedIdentity(ds, v.members, info);
      assert RuleIdentity(ds, ns, info) == RequiredString(ns, ID) == RequiredString(v.members, SECTION);
      RuleDependsOn(ds, v.members, info, ns);
    }
  }

  lemma MigratedFields(v: Value)
    requires IsLegacyRule(v)
    ensures MigrateRule(v).Object? && SameFields(v.members, MigrateRule(v).members)
  {
    RuleFieldNames();
    MigratedField(v, Ascii("title"));
    MigratedField(v, Ascii("ruleId"));
    MigratedField(v, Ascii("ruleName"));
    MigratedField(v, Ascii("payload"));
    MigratedField(v, Ascii("parameterMetadata"));
    MigratedField(v, Ascii("tags"));
    MigratedField(v, Ascii("metadata"));
  }

  lemma AcceptedIdentity(ds: Distributions, ms: seq<Member>, info: Info)
    requires ParseRule(ds, ms, info).Success?
    ensures RuleIdentity(ds, ms, info).Success?
    ensures IsLegacyRule(Object(ms)) ==> RuleIdentity(ds, ms, info) == RequiredString(ms, SECTION)
  {
    hide RequiredString;
    hide SerializeProcedure;
    hide ParseParameterMetadata;
    hide ParseTags;
    hide ParseMetadata;
    hide ParseKey;
  }

  // ----- All rules

  lemma {:induction false} MigratedRules(ds: Distributions, rules: seq<Value>, info: Info, acc: seq<Resource>, seen: set<bytes>)
    requires ParseRules(ds, rules, info, acc, seen).Success?
    ensures ParseRules(ds, MigrateRules(rules), info, acc, seen) == ParseRules(ds, rules, info, acc, seen)
    decreases |rules|
  {
    if |rules| > 0 {
      hide ParseRule;
      hide MigrateRule;
      MigratedRule(ds, rules[0], info);
      var r := ParseRule(ds, rules[0].members, info).value;
      assert MigrateRules(rules)[0] == MigrateRule(rules[0]);
      assert MigrateRules(rules)[1..] == MigrateRules(rules[1..]);
      MigratedRules(ds, rules[1..], info, acc + [r], seen + {r.id});
    }
  }

  /** The labels and annotations written by the migration carry the identity that
      the legacy document derived from its first payload key. */
  lemma MigratedInfo(ds: Distributions, meta: seq<Member>, rules: seq<Value>, rules': seq<Value>)
    requires [] !in ds && |rules| > 0 && |rules'| > 0
    requires DocumentInfo(ds, meta, rules).Success?
    ensures DocumentInfo(ds, MigrateMeta(meta, rules), rules') == DocumentInfo(ds, meta, rules)
  {
    if Lookup(meta, LABELS).None? {
      var key := RequiredString(rules[0].members, PAYLOAD_KEY).value;
      var k := CutKey(key).value;
      HoistedIdentity(ds, key);
      CutKeyNulFree(key);
      var extra := [Member(LABELS, Labels(k)), Member(ANNOTATIONS, Annotations(k))];
      LookupConcat(meta, extra, LABELS);
      LookupConcat(meta, extra, ANNOTATIONS);
      LabelLookups(k, extra);
      LabelStrings(ds, k);
    }
  }

  lemma LabelLookups(k: KeyText, extra: seq<Member>)
    requires extra == [Member(LABELS, Labels(k)), Member(ANNOTATIONS, Annotations(k))]
    ensures Lookup(extra, LABELS) == Some(Labels(k)) && Lookup(extra, ANNOTATIONS) == Some(Annotations(k))
  {
    assert extra[1..] == [Member(ANNOTATIONS, Annotations(k))];
  }

  lemma LabelStrings(ds: Distributions, k: KeyText)
    requires NUL !in k.framework && NUL !in k.distribution && NUL !in k.version && NUL !in k.benchmarkVersion
    requires k.framework != [] && k.distribution != [] && k.version != [] && k.benchmarkVersion != []
    ensures HoistedInfo(ds, Labels(k), Annotations(k))
         == FromMetadata(ds, k.framework, k.distribution, k.version, k.benchmarkVersion)
  {
    hide FromMetadata;
    hide Ascii;
    hide Lookup;
    var a, b := Labels(k).members, Annotations(k).members;
    assert |Ascii("framework")| == 9 && |Ascii("distribution")| == 12 && |Ascii("distributionVersion")| == 19;
    LookupSlot(a, 0);
    LookupSlot(a, 1);
    LookupSlot(a, 2);
    LookupSlot(b, 0);
  }

  // ----- The document

  lemma EnvelopeNames()
    ensures Ascii("kind") != METADATA && Ascii("kind") != SPEC
    ensures Ascii("apiVersion") != METADATA && Ascii("apiVersion") != SPEC
    ensures Ascii("name") != LABELS && Ascii("name") != ANNOTATIONS
    ensures Ascii("version") != RULES && METADATA != SPEC
  {
    assert Ascii("kind")[0] == 'k' as int;
  }

  lemma MigratedName(meta: seq<Member>, rules: seq<Value>)
    ensures Lookup(MigrateMeta(meta, rules), Ascii("name")) == Lookup(meta, Ascii("name"))
  {
    EnvelopeNames();
    hide Ascii;
    hide KeyOf;
    if MigrateMeta(meta, rules) != meta {
      var k := KeyOf(rules[0]).value;
      var extra := [Member(LABELS, Labels(k)), Member(ANNOTATIONS, Annotations(k))];
      hide Labels;
      hide Annotations;
      LookupConcat(meta, extra, Ascii("name"));
      assert !HasKey(extra, Ascii("name"));
      hide Lookup;
    }
  }

  /** The members of the root say e: its kind and version, its name, a content
      version in the form it is printed in, and a list of rules. */
  ghost predicate EnvelopeParts(ms: seq<Member>, e: Envelope) {
    && Says(ms, Ascii("kind"), Ascii("BenchmarkDefinition")) && Says(ms, Ascii("apiVersion"), Ascii("v1"))
    && Lookup(ms, METADATA) == Some(Object(e.meta)) && Lookup(ms, SPEC) == Some(Object(e.spec))
    && Says(e.meta, Ascii("name"), e.name)
    && ContentVersions.Valid(e.version) && Says(e.spec, Ascii("version"), ContentVersions.Print(e.version))
    && Lookup(e.spec, RULES) == Some(Array(e.rules)) && 0 < |e.rules| <= 100000
  }

  lemma EnvelopeExactly(root: Value, e: Envelope)
    requires root.Object?
    ensures ParseEnvelope(root) == Success(e) <==> EnvelopeParts(root.members, e)
  {
    hide Lookup;
    hide Ascii;
    hide RequiredString;
    hide Says;
    hide ContentVersions.Parse;
    hide ContentVersions.Print;
    hide ContentVersions.Valid;
    RequiredExactly(root.members, Ascii("kind"), Ascii("BenchmarkDefinition"));
    RequiredExactly(root.members, Ascii("apiVersion"), Ascii("v1"));
    RequiredExactly(e.meta, Ascii("name"), e.name);
    VersionExactly(e.spec, e.version);
  }

  lemma VersionExactly(spec: seq<Member>, v: ContentVersions.Version)
    ensures (ContentVersions.Valid(v) && Says(spec, Ascii("version"), ContentVersions.Print(v))) <==>
      (RequiredString(spec, Ascii("version")).Success?
       && ContentVersions.Parse(RequiredString(spec, Ascii("version")).value) == Some(v))
  {
    hide Lookup;
    hide Ascii;
    hide RequiredString;
    hide Says;
    hide ContentVersions.Parse;
    hide ContentVersions.Print;
    hide ContentVersions.Valid;
    var text := RequiredString(spec, Ascii("version"));
    if text.Success? {
      RequiredExactly(spec, Ascii("version"), text.value);
      ContentVersions.ParseExactly(text.value, v);
    }
    RequiredExactly(spec, Ascii("version"), ContentVersions.Print(v));
    ContentVersions.ParseExactly(ContentVersions.Print(v), v);
  }

  lemma MigratedEnvelope(root: Value)
    requires ParseEnvelope(root).Success?
    ensures var e := ParseEnvelope(root).value;
      ParseEnvelope(Migrate(root)) == Success(Envelope(
        MigrateMeta(e.meta, e.rules), Put(e.spec, RULES, Array(MigrateRules(e.rules))), e.name, e.version, MigrateRules(e.rules)))
  {
    hide Ascii;
    hide Put;
    hide MigrateMeta;
    hide Lookup;
    hide MigrateRules;
    hide ContentVersions.Parse;
    hide ParseEnvelope;
    EnvelopeNames();
    var e := ParseEnvelope(root).value;
    EnvelopeExactly(root, e);
    var ms, meta, rules := root.members, MigrateMeta(e.meta, e.rules), MigrateRules(e.rules);
    var spec := Put(e.spec, RULES, Array(rules));
    MigratedName(e.meta, e.rules);
    LookupPut(e.spec, RULES, Array(rules), RULES);
    LookupPut(e.spec, RULES, Array(rules), Ascii("version"));
    LookupPutTwice(ms, Object(meta), Object(spec), Ascii("kind"));
    LookupPutTwice(ms, Object(meta), Object(spec), Ascii("apiVersion"));
    LookupPutTwice(ms, Object(meta), Object(spec), METADATA);
    LookupPutTwice(ms, Object(meta), Object(spec), SPEC);
    EnvelopeExactly(Migrate(root), Envelope(meta, spec, e.name, e.version, rules));
  }

  lemma LookupPutTwice(ms: seq<Member>, meta: Value, spec: Value, key: bytes)
    requires Lookup(ms, METADATA).Some? && Lookup(ms, SPEC).Some?
    ensures Lookup(Put(Put(ms, METADATA, meta), SPEC, spec), key)
         == if key == SPEC then Some(spec) else if key == METADATA then Some(meta) else Lookup(ms, key)
  {
    hide Put;
    hide Lookup;
    LookupPut(ms, METADATA, meta, key);
    LookupPut(ms, METADATA, meta, SPEC);
    LookupPut(Put(ms, METADATA, meta), SPEC, spec, key);
  }

  /** Identity migration preserves meaning: every accepted document, legacy, mixed
      or already migrated, parses to an equal document after migration. */
  lemma MigrationPreserves(ds: Distributions, root: Value)
    requires [] !in ds && ParseTree(ds, root).Success?
    ensures ParseTree(ds, Migrate(root)) == ParseTree(ds, root)
  {
    hide ParseEnvelope;
    hide Migrate;
    hide MigrateMeta;
    MigratedEnvelope(root);
    var e := ParseEnvelope(root).value;
    MigratedInfo(ds, e.meta, e.rules, MigrateRules(e.rules));
    var info := DocumentInfo(ds, e.meta, e.rules).value;
    MigratedRules(ds, e.rules, info, [], {});
  }

  /** After migration no rule carries a legacy identity. */
  lemma MigrationIsComplete(ds: Distributions, root: Value)
    requires [] !in ds && ParseTree(ds, root).Success?
    ensures ParseEnvelope(Migrate(root)).Success?
    ensures var e := ParseEnvelope(Migrate(root)).value;
      && HasKey(e.meta, LABELS)
      && forall i | 0 <= i < |e.rules| :: !IsLegacyRule(e.rules[i])
  {
    hide ParseEnvelope;
    hide Migrate;
    MigratedEnvelope(root);
    var e := ParseEnvelope(root).value;
    var e' := ParseEnvelope(Migrate(root)).value;
    MigratedInfo(ds, e.meta, e.rules, e'.rules);
    forall i | 0 <= i < |e'.rules| ensures !IsLegacyRule(e'.rules[i]) {
      if IsLegacyRule(e.rules[i]) {
        MigratedIdentity(e.rules[i]);
      }
    }
    if !HasKey(e.meta, LABELS) {
      var k := KeyOf(e.rules[0]).value;
      LookupConcat(e.meta, [Member(LABELS, Labels(k)), Member(ANNOTATIONS, Annotations(k))], LABELS);
    }
  }
}
