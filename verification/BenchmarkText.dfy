/**
  The migration at the level of text, and the procedure text of a rule: both rest
  on the fact that what the gate lets through can be written and read back.
 */
module BenchmarkText {
  import opened Bytes
  import opened JsonValues
  import opened BenchmarkInfos
  import opened BenchmarkDefinition
  import opened BenchmarkMigration
  import JsonText
  import JsonParser
  import JsonWrapper

  /** v can be written and read back below MAX_NESTING - d levels of nesting. */
  ghost predicate Storable(v: Value, d: nat) {
    WellFormed(v) && JsonWrapper.NulFree(v) && Depth(v) <= d
  }

  ghost predicate KeysOk(ms: seq<Member>) {
    DistinctKeys(ms) && forall i | 0 <= i < |ms| :: NUL !in ms[i].key
  }

  lemma StorableObject(ms: seq<Member>, d: nat)
    requires d > 0
    ensures Storable(Object(ms), d) <==> KeysOk(ms) && forall i | 0 <= i < |ms| :: Storable(ms[i].value, d - 1)
  {
    if Storable(Object(ms), d) {
      forall i | 0 <= i < |ms| ensures Storable(ms[i].value, d - 1) {
        DepthMembersAt(ms, i);
      }
    }
    if KeysOk(ms) && forall i | 0 <= i < |ms| :: Storable(ms[i].value, d - 1) {
      DepthMembersBound(ms, d);
    }
  }

  lemma StorableArray(xs: seq<Value>, d: nat)
    requires d > 0
    ensures Storable(Array(xs), d) <==> forall i | 0 <= i < |xs| :: Storable(xs[i], d - 1)
  {
    if Storable(Array(xs), d) {
      forall i | 0 <= i < |xs| ensures Storable(xs[i], d - 1) {
        DepthItemsAt(xs, i);
      }
    }
    if forall i | 0 <= i < |xs| :: Storable(xs[i], d - 1) {
      DepthItemsBound(xs, d);
    }
  }

  lemma StorableLookup(ms: seq<Member>, d: nat, key: bytes)
    requires d > 0 && Storable(Object(ms), d) && Lookup(ms, key).Some?
    ensures Storable(Lookup(ms, key).value, d - 1)
  {
    hide Storable;
    StorableObject(ms, d);
    var i :| 0 <= i < |ms| && ms[i] == Member(key, Lookup(ms, key).value);
    assert Storable(ms[i].value, d - 1);
  }

  // ----- Rewritten objects are storable

  lemma {:induction false} PutShape(ms: seq<Member>, key: bytes, v: Value)
    ensures |Put(ms, key, v)| == |ms|
    ensures forall i | 0 <= i < |ms| :: Put(ms, key, v)[i].key == ms[i].key
    ensures forall i | 0 <= i < |ms| :: Put(ms, key, v)[i].value == ms[i].value || Put(ms, key, v)[i].value == v
  {
    if |ms| > 0 && ms[0].key != key {
      PutShape(ms[1..], key, v);
    }
  }

  lemma StorablePut(ms: seq<Member>, key: bytes, v: Value, d: nat)
    requires d > 0 && Storable(Object(ms), d) && Storable(v, d - 1)
    ensures Storable(Object(Put(ms, key, v)), d)
  {
    hide Storable;
    hide Put;
    StorableObject(ms, d);
    StorableObject(Put(ms, key, v), d);
    PutShape(ms, key, v);
  }

  lemma {:induction false} DropShape(ms: seq<Member>)
    requires DistinctKeys(ms)
    ensures DistinctKeys(DropLegacy(ms))
    ensures forall m | m in DropLegacy(ms) :: m in ms
  {
    if |ms| > 0 {
      DropShape(ms[1..]);
      forall m | m in DropLegacy(ms[1..]) ensures m.key != ms[0].key {
        var i :| 0 <= i < |ms[1..]| && ms[1..][i] == m;
        assert ms[i + 1] == m;
      }
    }
  }

  lemma StorableAppend(ms: seq<Member>, m: Member, d: nat)
    requires d > 0 && Storable(Object(ms), d) && Storable(m.value, d - 1)
    requires NUL !in m.key && !HasKey(ms, m.key)
    ensures Storable(Object(ms + [m]), d)
  {
    hide Storable;
    StorableObject(ms, d);
    StorableObject(ms + [m], d);
  }

  lemma StorableRule(rule: Value, d: nat)
    requires d > 0 && Storable(rule, d)
    ensures Storable(MigrateRule(rule), d)
  {
    hide Storable;
    if IsLegacyRule(rule) {
      var ms := rule.members;
      var kept := DropLegacy(ms);
      StorableObject(ms, d);
      DropShape(ms);
      forall i | 0 <= i < |kept| ensures Storable(kept[i].value, d - 1) && NUL !in kept[i].key {
        assert kept[i] in ms;
      }
      StorableObject(kept, d);
      StorableLookup(ms, d, SECTION);
      LookupDropped(ms, ID);
      StorableAppend(kept, Member(ID, Lookup(ms, SECTION).value), d);
    }
  }

  lemma StorableRules(rules: seq<Value>, d: nat)
    requires d > 1 && Storable(Array(rules), d)
    ensures Storable(Array(MigrateRules(rules)), d)
  {
    hide Storable;
    hide MigrateRule;
    StorableArray(rules, d);
    forall i | 0 <= i < |rules| ensures Storable(MigrateRules(rules)[i], d - 1) {
      StorableRule(rules[i], d - 1);
    }
    StorableArray(MigrateRules(rules), d);
  }

  lemma StorableLabels(k: KeyText)
    requires NUL !in k.framework && NUL !in k.distribution && NUL !in k.version && NUL !in k.benchmarkVersion
    ensures Storable(Labels(k), 1) && Storable(Annotations(k), 1)
  {
    hide Lookup;
    hide DepthMembers;
    var a, b := Labels(k).members, Annotations(k).members;
    assert |Ascii("framework")| == 9 && |Ascii("distribution")| == 12 && |Ascii("distributionVersion")| == 19;
    NoNulIn("framework");
    NoNulIn("distribution");
    NoNulIn("distributionVersion");
    NoNulIn("benchmarkVersion");
    assert forall i | 0 <= i < |a| :: Storable(a[i].value, 0);
    assert forall i | 0 <= i < |b| :: Storable(b[i].value, 0);
    StorableObject(a, 1);
    StorableObject(b, 1);
  }

  lemma NoNulIn(s: string)
    requires forall i | 0 <= i < |s| :: 0 < s[i] as int < 128
    ensures NUL !in Ascii(s)
  {
  }

  lemma StorableDeeper(v: Value, d: nat, d': nat)
    requires Storable(v, d) && d <= d'
    ensures Storable(v, d')
  {
  }

  lemma StorableMeta(ds: Distributions, meta: seq<Member>, rules: seq<Value>, d: nat)
    requires d > 1 && Storable(Object(meta), d) && |rules| > 0 && DocumentInfo(ds, meta, rules).Success?
    ensures Storable(Object(MigrateMeta(meta, rules)), d)
  {
    hide Storable;
    hide CutKey;
    hide Labels;
    hide Annotations;
    if !HasKey(meta, LABELS) {
      var key := RequiredString(rules[0].members, PAYLOAD_KEY).value;
      assert NUL !in key && CutKey(key).Some?;
      var k := CutKey(key).value;
      CutKeyNulFree(key);
      StorableLabels(k);
      StorableDeeper(Labels(k), 1, d - 1);
      StorableDeeper(Annotations(k), 1, d - 1);
      var labels, annotations := Member(LABELS, Labels(k)), Member(ANNOTATIONS, Annotations(k));
      StorableAppend(meta, labels, d);
      StorableAppend(meta + [labels], annotations, d);
      assert meta + [labels] + [annotations] == meta + [labels, annotations];
    }
  }

  lemma StorableMigrated(ds: Distributions, root: Value)
    requires Storable(root, MAX_NESTING) && ParseTree(ds, root).Success?
    ensures Storable(Migrate(root), MAX_NESTING)
  {
    hide Storable;
    hide ParseEnvelope;
    hide DocumentInfo;
    hide ParseRules;
    hide MigrateMeta;
    hide MigrateRules;
    hide Put;
    hide Lookup;
    var e := ParseEnvelope(root).value;
    var ms, meta, spec := root.members, MigrateMeta(e.meta, e.rules), Put(e.spec, RULES, Array(MigrateRules(e.rules)));
    EnvelopeExactly(root, e);
    StorableLookup(ms, MAX_NESTING, METADATA);
    StorableLookup(ms, MAX_NESTING, SPEC);
    StorableLookup(e.spec, MAX_NESTING - 1, RULES);
    StorableRules(e.rules, MAX_NESTING - 2);
    StorablePut(e.spec, RULES, Array(MigrateRules(e.rules)), MAX_NESTING - 1);
    StorableMeta(ds, e.meta, e.rules, MAX_NESTING - 1);
    StorablePut(ms, METADATA, Object(meta), MAX_NESTING);
    StorablePut(Put(ms, METADATA, Object(meta)), SPEC, Object(spec), MAX_NESTING);
  }

  // ----- Main results

  /** Writing out a storable tree and parsing the text gives what the tree gives. */
  lemma TextOfTree(ds: Distributions, root: Value, st: JsonText.Style)
    requires Storable(root, MAX_NESTING)
    ensures ParseString(ds, JsonText.Serialize(root, st)) == match ParseTree(ds, root)
                                                            case Error(code) => Refused(code)
                                                            case Success(d) => Accepted(d)
  {
    hide ParseTree;
    hide JsonText.Serialize;
    hide JsonWrapper.Scan;
    hide JsonParser.ParseText;
    JsonWrapper.GateRoundTrip(root, st);
  }

  /** For every accepted text of a definition, the text of its migrated tree, in any
      style, is accepted and gives an equal document. */
  lemma MigrationOfText(ds: Distributions, json: bytes, st: JsonText.Style)
    requires [] !in ds && ParseString(ds, json).Accepted?
    ensures JsonWrapper.FromString(json).Ok?
    ensures ParseString(ds, JsonText.Serialize(Migrate(JsonWrapper.FromString(json).value), st)) == ParseString(ds, json)
  {
    hide ParseTree;
    hide Migrate;
    hide JsonText.Serialize;
    hide JsonWrapper.FromString;
    var root := JsonWrapper.FromString(json).value;
    JsonWrapper.LoadedIsNulFree(json);
    MigrationPreserves(ds, root);
    StorableMigrated(ds, root);
    TextOfTree(ds, Migrate(root), st);
  }

  /** The procedure text made from the payload of an accepted rule is read back by
      the engine's gate as exactly that payload. */
  lemma ProcedureReadsBack(ds: Distributions, rule: seq<Member>, info: Info, d: nat)
    requires 0 < d <= MAX_NESTING && Storable(Object(rule), d) && ParseRule(ds, rule, info).Success?
    ensures Lookup(rule, Ascii("payload")).Some? && Lookup(rule, Ascii("payload")).value.Object?
    ensures JsonWrapper.FromString(ParseRule(ds, rule, info).value.procedure)
         == JsonParser.Ok(Lookup(rule, Ascii("payload")).value, [])
  {
    hide Storable;
    hide Lookup;
    hide RequiredString;
    hide ParseParameterMetadata;
    hide ParseTags;
    hide ParseMetadata;
    hide RuleIdentity;
    hide JsonText.Serialize;
    hide JsonWrapper.FromString;
    var payload := Lookup(rule, Ascii("payload")).value;
    assert ParseRule(ds, rule, info).value.procedure == JsonText.Serialize(payload, COMPACT);
    StorableLookup(rule, d, Ascii("payload"));
    StorableDeeper(payload, d - 1, MAX_NESTING);
    StorableGate(payload);
  }

  lemma StorableGate(v: Value)
    requires Storable(v, MAX_NESTING)
    ensures JsonWrapper.FromString(JsonText.Serialize(v, COMPACT)) == JsonParser.Ok(v, [])
  {
    hide JsonText.Serialize;
    hide JsonWrapper.FromString;
    JsonWrapper.GateRoundTrip(v, COMPACT);
  }
}
