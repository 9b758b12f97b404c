/**
  Order-independence of the benchmark-definition parser: although the identity of a
  legacy document is read from its first rule, reordering the rules never changes
  whether the document is accepted, and only reorders what is accepted.
 */
module BenchmarkOrder {
  import opened Bytes
  import opened JsonValues
  import opened BenchmarkInfos
  import opened BenchmarkDefinition
  import opened BenchmarkParts
  import opened BenchmarkMigration
  import opened BenchmarkText
  import ContentVersions
  import JsonText
  import JsonWrapper

  // ----- The loop over the rules, without its accumulators

  ghost predicate DistinctIds(rs: seq<Resource>) {
    forall i, j | 0 <= i < j < |rs| :: rs[i].id != rs[j].id
  }

  /** Every rule parses on its own, and no two share an id. */
  ghost predicate Yields(ds: Distributions, rules: seq<Value>, info: Info, rs: seq<Resource>) {
    && |rs| == |rules|
    && (forall i | 0 <= i < |rules| :: rules[i].Object? && ParseRule(ds, rules[i].members, info) == Success(rs[i]))
    && DistinctIds(rs)
  }

  lemma {:induction false} RulesSound(ds: Distributions, rules: seq<Value>, info: Info, acc: seq<Resource>, seen: set<bytes>)
    returns (rs: seq<Resource>)
    requires ParseRules(ds, rules, info, acc, seen).Success?
    ensures Yields(ds, rules, info, rs) && (forall i | 0 <= i < |rs| :: rs[i].id !in seen)
    ensures ParseRules(ds, rules, info, acc, seen) == Success(acc + rs)
    decreases |rules|
  {
    hide ParseRule;
    if |rules| == 0 {
      rs := [];
      assert acc + rs == acc;
    } else {
      var r := ParseRule(ds, rules[0].members, info).value;
      var rest := RulesSound(ds, rules[1..], info, acc + [r], seen + {r.id});
      rs := [r] + rest;
      assert acc + [r] + rest == acc + rs;
      assert forall i | 1 <= i < |rules| :: rules[i] == rules[1..][i - 1] && rs[i] == rest[i - 1];
    }
  }

  lemma {:induction false} RulesComplete(ds: Distributions, rules: seq<Value>, info: Info, rs: seq<Resource>, acc: seq<Resource>, seen: set<bytes>)
    requires Yields(ds, rules, info, rs) && (forall i | 0 <= i < |rs| :: rs[i].id !in seen)
    ensures ParseRules(ds, rules, info, acc, seen) == Success(acc + rs)
    decreases |rules|
  {
    hide ParseRule;
    if |rules| == 0 {
      assert acc + rs == acc;
    } else {
      assert forall i | 0 <= i < |rs[1..]| :: rs[1..][i] == rs[i + 1] && rules[1..][i] == rules[i + 1];
      RulesComplete(ds, rules[1..], info, rs[1..], acc + [rs[0]], seen + {rs[0].id});
      assert acc + [rs[0]] + rs[1..] == acc + rs;
    }
  }

  /** The loop succeeds with rs exactly when rs is the list of the rules' own
      results and the ids are pairwise distinct. */
  lemma ParseRulesExactly(ds: Distributions, rules: seq<Value>, info: Info, rs: seq<Resource>)
    ensures ParseRules(ds, rules, info, [], {}) == Success(rs) <==> Yields(ds, rules, info, rs)
  {
    hide ParseRules;
    hide Yields;
    if ParseRules(ds, rules, info, [], {}) == Success(rs) {
      var rs' := RulesSound(ds, rules, info, [], {});
      assert [] + rs' == rs';
    }
    if Yields(ds, rules, info, rs) {
      RulesComplete(ds, rules, info, rs, [], {});
      assert [] + rs == rs;
    }
  }

  // ----- One rule under another document identity

  lemma IdentityUpToV(ds: Distributions, ms: seq<Member>, info: Info, info': Info)
    requires SamePrefix(info, info')
    ensures RuleIdentity(ds, ms, info) == RuleIdentity(ds, ms, info')
  {
    hide WithoutV;
    hide RequiredString;
    hide ParseKey;
  }

  /** Identities that differ at most in a leading `v` give the same rules. */
  lemma RuleUpToV(ds: Distributions, ms: seq<Member>, info: Info, info': Info)
    requires SamePrefix(info, info') && ParseRule(ds, ms, info).Success?
    ensures ParseRule(ds, ms, info') == Success(ParseRule(ds, ms, info).value.(benchmarkInfo := info'))
  {
    hide SamePrefix;
    hide RuleIdentity;
    hide RequiredString;
    hide SerializeProcedure;
    hide ParseParameterMetadata;
    hide ParseTags;
    hide ParseMetadata;
    hide Ascii;
    IdentityUpToV(ds, ms, info, info');
  }

  /** The payload key of an accepted legacy rule agrees with the document. */
  lemma KeyAgrees(ds: Distributions, ms: seq<Member>, info: Info)
    requires IsLegacyRule(Object(ms)) && ParseRule(ds, ms, info).Success?
    ensures RequiredString(ms, PAYLOAD_KEY).Success?
    ensures ParseKey(ds, RequiredString(ms, PAYLOAD_KEY).value).Success?
    ensures SamePrefix(info, ParseKey(ds, RequiredString(ms, PAYLOAD_KEY).value).value.(section := []))
  {
    hide ParseRule;
    hide ParseKey;
    hide RequiredString;
    AcceptedIdentity(ds, ms, info);
  }

  // ----- Permutations

  ghost predicate Permutation(p: seq<nat>, n: nat) {
    && |p| == n
    && (forall i | 0 <= i < n :: p[i] < n)
    && (forall i, j | 0 <= i < j < n :: p[i] != p[j])
    && (forall k: nat | k < n :: k in p)
  }

  ghost function Permuted<T>(xs: seq<T>, p: seq<nat>): (ys: seq<T>)
    requires Permutation(p, |xs|)
    ensures |ys| == |xs| && forall i | 0 <= i < |xs| :: ys[i] == xs[p[i]]
  {
    seq(|xs|, i requires 0 <= i < |xs| => xs[p[i]])
  }

  lemma Inverse<T>(xs: seq<T>, p: seq<nat>) returns (q: seq<nat>)
    requires Permutation(p, |xs|)
    ensures Permutation(q, |xs|) && Permuted(Permuted(xs, p), q) == xs
  {
    var n := |xs|;
    var find: nat -> nat := k => if k < n && k in p then Index(p, k) else 0;
    q := seq(n, find);
    forall i | 0 <= i < n ensures q[i] < n && p[q[i]] == i {
      assert i in p;
    }
    forall k: nat | k < n ensures k in q {
      assert p[q[p[k]]] == p[k];
      assert q[p[k]] == k;
    }
  }

  function Index(p: seq<nat>, k: nat): (i: nat)
    requires k in p
    ensures i < |p| && p[i] == k
  {
    if p[0] == k then 0 else 1 + Index(p[1..], k)
  }

  // ----- Reordering the rules of a document

  ghost function WithRules(root: Value, e: Envelope, rules: seq<Value>): Value
    requires root.Object?
  {
    Object(Put(root.members, SPEC, Object(Put(e.spec, RULES, Array(rules)))))
  }

  /** The document with its rules in another order. */
  ghost function Reorder(root: Value, p: seq<nat>): Value
    requires ParseEnvelope(root).Success? && Permutation(p, |ParseEnvelope(root).value.rules|)
  {
    var e := ParseEnvelope(root).value;
    WithRules(root, e, Permuted(e.rules, p))
  }

  lemma EnvelopeWithRules(root: Value, rules: seq<Value>)
    requires ParseEnvelope(root).Success? && |rules| == |ParseEnvelope(root).value.rules|
    ensures var e := ParseEnvelope(root).value;
      ParseEnvelope(WithRules(root, e, rules)) == Success(e.(spec := Put(e.spec, RULES, Array(rules)), rules := rules))
  {
    hide Ascii;
    hide Put;
    hide Lookup;
    hide ContentVersions.Parse;
    hide ParseEnvelope;
    EnvelopeNames();
    var e := ParseEnvelope(root).value;
    EnvelopeExactly(root, e);
    var ms, spec := root.members, Put(e.spec, RULES, Array(rules));
    LookupPut(e.spec, RULES, Array(rules), RULES);
    LookupPut(e.spec, RULES, Array(rules), Ascii("version"));
    LookupPut(ms, SPEC, Object(spec), Ascii("kind"));
    LookupPut(ms, SPEC, Object(spec), Ascii("apiVersion"));
    LookupPut(ms, SPEC, Object(spec), METADATA);
    LookupPut(ms, SPEC, Object(spec), SPEC);
    EnvelopeExactly(WithRules(root, e, rules), e.(spec := spec, rules := rules));
  }

  lemma {:induction false} PutPut(ms: seq<Member>, key: bytes, v: Value, w: Value)
    ensures Put(Put(ms, key, v), key, w) == Put(ms, key, w)
  {
    if |ms| > 0 && ms[0].key != key {
      PutPut(ms[1..], key, v, w);
      assert Put(ms, key, v)[1..] == Put(ms[1..], key, v);
    }
  }

  lemma {:induction false} PutSame(ms: seq<Member>, key: bytes)
    requires Lookup(ms, key).Some?
    ensures Put(ms, key, Lookup(ms, key).value) == ms
  {
    if ms[0].key == key {
      assert ms == [ms[0]] + ms[1..];
    } else {
      PutSame(ms[1..], key);
      assert ms == [ms[0]] + ms[1..];
    }
  }

  lemma ReorderBack(root: Value, p: seq<nat>) returns (q: seq<nat>)
    requires ParseEnvelope(root).Success? && Permutation(p, |ParseEnvelope(root).value.rules|)
    ensures ParseEnvelope(Reorder(root, p)).Success?
    ensures Permutation(q, |ParseEnvelope(Reorder(root, p)).value.rules|)
    ensures Reorder(Reorder(root, p), q) == root
  {
    hide ParseEnvelope;
    hide Permutation;
    hide Put;
    hide Lookup;
    var e := ParseEnvelope(root).value;
    var rules := Permuted(e.rules, p);
    EnvelopeWithRules(root, rules);
    q := Inverse(e.rules, p);
    EnvelopeExactly(root, e);
    PutPut(e.spec, RULES, Array(rules), Array(e.rules));
    PutSame(e.spec, RULES);
    PutPut(root.members, SPEC, Object(Put(e.spec, RULES, Array(rules))), Object(e.spec));
    PutSame(root.members, SPEC);
  }

  // ----- Main results

  /** What a reordered document has to look like. */
  ghost predicate ReorderedDocument(d: Document, d': Document, p: seq<nat>)
    requires Permutation(p, |d.resources|)
  {
    && d'.name == d.name && d'.version == d.version
    && Agree(d.benchmarkInfo, d'.benchmarkInfo) && d'.benchmarkInfo.section == d.benchmarkInfo.section
    && |d'.resources| == |d.resources|
    && (forall i | 0 <= i < |d.resources| :: d'.resources[i] == d.resources[p[i]].(benchmarkInfo := d'.benchmarkInfo))
    && DistinctIds(d'.resources)
  }

  /** The document identity after reordering: the same one, up to a leading `v`. */
  lemma InfoUpToV(ds: Distributions, meta: seq<Member>, rules: seq<Value>, info: Info, rs: seq<Resource>, p: seq<nat>)
    requires |rules| > 0 && Permutation(p, |rules|)
    requires DocumentInfo(ds, meta, rules) == Success(info) && Yields(ds, rules, info, rs)
    ensures DocumentInfo(ds, meta, Permuted(rules, p)).Success?
    ensures SamePrefix(info, DocumentInfo(ds, meta, Permuted(rules, p)).value)
    ensures DocumentInfo(ds, meta, Permuted(rules, p)).value.section == info.section
    ensures HasKey(meta, LABELS) ==> DocumentInfo(ds, meta, Permuted(rules, p)).value == info
  {
    hide ParseRule;
    hide HoistedInfo;
    hide ParseKey;
    hide RequiredString;
    if Lookup(meta, LABELS).None? {
      var rules' := Permuted(rules, p);
      assert forall i | 0 <= i < |rules| :: IsLegacyRule(rules[p[i]]);
      KeyAgrees(ds, rules[p[0]].members, info);
    }
  }

  lemma ReorderedRules(ds: Distributions, rules: seq<Value>, info: Info, rs: seq<Resource>, info': Info, p: seq<nat>) returns (rs': seq<Resource>)
    requires Permutation(p, |rules|) && Yields(ds, rules, info, rs) && SamePrefix(info, info')
    ensures Yields(ds, Permuted(rules, p), info', rs')
    ensures forall i | 0 <= i < |rs| :: rs'[i] == rs[p[i]].(benchmarkInfo := info')
  {
    hide ParseRule;
    hide SamePrefix;
    rs' := seq(|rs|, i requires 0 <= i < |rs| => rs[p[i]].(benchmarkInfo := info'));
    forall i | 0 <= i < |rs| ensures ParseRule(ds, rules[p[i]].members, info') == Success(rs'[i]) {
      RuleUpToV(ds, rules[p[i]].members, info, info');
    }
    forall i, j | 0 <= i < j < |rs| ensures rs'[i].id != rs'[j].id {
      assert p[i] < p[j] || p[j] < p[i];
    }
  }

  lemma ReorderAccepted(ds: Distributions, root: Value, p: seq<nat>)
    requires ParseTree(ds, root).Success? && Permutation(p, |ParseEnvelope(root).value.rules|)
    ensures |ParseTree(ds, root).value.resources| == |p|
    ensures ParseTree(ds, Reorder(root, p)).Success?
    ensures ReorderedDocument(ParseTree(ds, root).value, ParseTree(ds, Reorder(root, p)).value, p)
    ensures HasKey(ParseEnvelope(root).value.meta, LABELS) ==>
      ParseTree(ds, Reorder(root, p)).value.benchmarkInfo == ParseTree(ds, root).value.benchmarkInfo
  {
    hide ParseEnvelope;
    hide DocumentInfo;
    hide ParseRules;
    hide ParseRule;
    hide SamePrefix;
    hide Agree;
    hide WithRules;
    var d, e := ParseTree(ds, root).value, ParseEnvelope(root).value;
    var rules := Permuted(e.rules, p);
    ParseRulesExactly(ds, e.rules, d.benchmarkInfo, d.resources);
    EnvelopeWithRules(root, rules);
    InfoUpToV(ds, e.meta, e.rules, d.benchmarkInfo, d.resources, p);
    var info := DocumentInfo(ds, e.meta, rules).value;
    SamePrefixExactly(d.benchmarkInfo, info);
    var rs := ReorderedRules(ds, e.rules, d.benchmarkInfo, d.resources, info, p);
    ParseRulesExactly(ds, rules, info, rs);
  }

  /** For every document and every reordering of its rules: one is accepted if and
      only if the other is, and then the resources are reordered in the same way,
      ids stay distinct, and the identity is equal up to a leading `v` of the
      benchmark version, and simply equal when it comes from the metadata. */
  lemma OrderIndependence(ds: Distributions, root: Value, p: seq<nat>)
    requires ParseEnvelope(root).Success? && Permutation(p, |ParseEnvelope(root).value.rules|)
    ensures ParseTree(ds, Reorder(root, p)).Success? <==> ParseTree(ds, root).Success?
    ensures ParseTree(ds, root).Success? ==>
      && |ParseTree(ds, root).value.resources| == |p|
      && ReorderedDocument(ParseTree(ds, root).value, ParseTree(ds, Reorder(root, p)).value, p)
      && (HasKey(ParseEnvelope(root).value.meta, LABELS) ==>
            ParseTree(ds, Reorder(root, p)).value.benchmarkInfo == ParseTree(ds, root).value.benchmarkInfo)
  {
    hide ParseTree;
    hide ParseEnvelope;
    hide Permutation;
    hide Reorder;
    hide ReorderedDocument;
    if ParseTree(ds, root).Success? {
      ReorderAccepted(ds, root, p);
    } else {
      var q := ReorderBack(root, p);
      if ParseTree(ds, Reorder(root, p)).Success? {
        ReorderAccepted(ds, Reorder(root, p), q);
        assert false;
      }
    }
  }

  /** The same for texts: the text of the reordered tree, in any style, is accepted
      with the reordered document. */
  lemma OrderOfText(ds: Distributions, json: bytes, p: seq<nat>, st: JsonText.Style)
    requires ParseString(ds, json).Accepted?
    requires Permutation(p, |ParseString(ds, json).document.resources|)
    ensures JsonWrapper.FromString(json).Ok?
    ensures var root := JsonWrapper.FromString(json).value;
      && ParseEnvelope(root).Success? && Permutation(p, |ParseEnvelope(root).value.rules|)
      && ParseString(ds, JsonText.Serialize(Reorder(root, p), st)).Accepted?
      && ReorderedDocument(ParseString(ds, json).document, ParseString(ds, JsonText.Serialize(Reorder(root, p), st)).document, p)
  {
    hide ParseTree;
    hide ParseEnvelope;
    hide Permutation;
    hide Reorder;
    hide ReorderedDocument;
    hide JsonText.Serialize;
    hide JsonWrapper.FromString;
    var root := JsonWrapper.FromString(json).value;
    ResourcesCount(ds, root);
    JsonWrapper.LoadedIsNulFree(json);
    OrderIndependence(ds, root, p);
    StorableReordered(root, p);
    TextOfTree(ds, Reorder(root, p), st);
  }

  lemma ResourcesCount(ds: Distributions, root: Value)
    requires ParseTree(ds, root).Success?
    ensures ParseEnvelope(root).Success?
    ensures |ParseTree(ds, root).value.resources| == |ParseEnvelope(root).value.rules|
  {
    hide ParseEnvelope;
    hide DocumentInfo;
    hide ParseRules;
    var d, e := ParseTree(ds, root).value, ParseEnvelope(root).value;
    ParseRulesExactly(ds, e.rules, d.benchmarkInfo, d.resources);
  }

  lemma StorableReordered(root: Value, p: seq<nat>)
    requires Storable(root, MAX_NESTING)
    requires ParseEnvelope(root).Success? && Permutation(p, |ParseEnvelope(root).value.rules|)
    ensures Storable(Reorder(root, p), MAX_NESTING)
  {
    hide Storable;
    hide ParseEnvelope;
    hide Put;
    hide Lookup;
    var e := ParseEnvelope(root).value;
    EnvelopeExactly(root, e);
    StorableLookup(root.members, MAX_NESTING, SPEC);
    StorableLookup(e.spec, MAX_NESTING - 1, RULES);
    StorableArray(e.rules, MAX_NESTING - 2);
    StorableArray(Permuted(e.rules, p), MAX_NESTING - 2);
    StorablePut(e.spec, RULES, Array(Permuted(e.rules, p)), MAX_NESTING - 1);
    StorablePut(root.members, SPEC, Object(Put(e.spec, RULES, Array(Permuted(e.rules, p)))), MAX_NESTING);
  }
}
