/** Which error codes the definition parser gives: 22 (EINVAL) and 7 (E2BIG). */
module BenchmarkCodes {
  import opened Bytes
  import opened JsonValues
  import opened BenchmarkInfos
  import opened BenchmarkDefinition
  import ContentVersions

  /** A failure is an EINVAL. */
  ghost predicate Invalid<T>(r: Result<T>) {
    r.Error? ==> r.code == 22
  }

  lemma StringErrors(ms: seq<Member>, key: bytes)
    ensures Invalid(RequiredString(ms, key)) && Invalid(RequiredStringAllowEmpty(ms, key)) && Invalid(OptionalString(ms, key))
  {
  }

  lemma ParameterErrors(m: Member)
    ensures Invalid(ParseParameter(m))
  {
    hide Lookup;
    hide Ascii;
    hide RequiredString;
    hide RequiredStringAllowEmpty;
    hide OptionalString;
    if m.value.Object? {
      var entry := m.value.members;
      StringErrors(entry, Ascii("default"));
      StringErrors(entry, Ascii("type"));
      StringErrors(entry, Ascii("displayName"));
      StringErrors(entry, Ascii("validationRegex"));
      StringErrors(entry, Ascii("validationFailedMessage"));
    }
  }

  lemma {:induction false} ParametersErrors(ms: seq<Member>, acc: map<bytes, ParameterMetadata>)
    ensures Invalid(ParseParameters(ms, acc))
    decreases |ms|
  {
    hide ParseParameter;
    if |ms| > 0 {
      ParameterErrors(ms[0]);
      if ParseParameter(ms[0]).Success? {
        ParametersErrors(ms[1..], acc[ms[0].key := ParseParameter(ms[0]).value]);
      }
    }
  }

  lemma {:induction false} AdditionalErrors(all: seq<Member>, ms: seq<Member>, acc: map<bytes, bytes>)
    ensures Invalid(ParseAdditional(all, ms, acc))
    decreases |ms|
  {
    hide OptionalString;
    hide KnownMetadata;
    if |ms| > 0 {
      StringErrors(all, ms[0].key);
      if KnownMetadata(ms[0].key) {
        AdditionalErrors(all, ms[1..], acc);
      } else if OptionalString(all, ms[0].key).Success? {
        var extra := OptionalString(all, ms[0].key).value;
        AdditionalErrors(all, ms[1..], if extra.None? || ms[0].key in acc then acc else acc[ms[0].key := extra.value]);
      }
    }
  }

  lemma MetadataErrors(ms: seq<Member>)
    ensures Invalid(ParseMetadata(ms))
  {
    hide Lookup;
    hide Ascii;
    hide OptionalString;
    hide ParseAdditional;
    match GetObject(ms, Ascii("metadata"))
    case None =>
    case Some(all) =>
      StringErrors(all, Ascii("description"));
      StringErrors(all, Ascii("rationale"));
      StringErrors(all, Ascii("fixtext"));
      StringErrors(all, Ascii("severity"));
      StringErrors(all, Ascii("references"));
      AdditionalErrors(all, all, map[]);
  }

  // ----- Tags

  ghost predicate LongTag(xs: seq<Value>) {
    exists i :: 0 <= i < |xs| && xs[i].String? && |xs[i].s| > 256
  }

  lemma {:induction false} TagErrors(xs: seq<Value>, acc: seq<bytes>)
    ensures ParseTagList(xs, acc).Error? ==> ParseTagList(xs, acc).code == 22 || (ParseTagList(xs, acc).code == 7 && LongTag(xs))
    decreases |xs|
  {
    hide ValidTag;
    if |xs| > 0 && ParseTag(xs[0]).Success? {
      TagErrors(xs[1..], acc + [ParseTag(xs[0]).value]);
      if LongTag(xs[1..]) {
        var i :| 0 <= i < |xs[1..]| && xs[1..][i].String? && |xs[1..][i].s| > 256;
        assert xs[i + 1] == xs[1..][i];
      }
    }
  }

  /** Some entry of the tags of the rule is too long. */
  ghost predicate RuleTooBig(v: Value) {
    v.Object? && match Lookup(v.members, Ascii("tags")) case Some(Array(xs)) => LongTag(xs) case _ => false
  }

  lemma TagsErrors(ms: seq<Member>)
    ensures ParseTags(ms).Error? ==> ParseTags(ms).code == 22 || (ParseTags(ms).code == 7 && RuleTooBig(Object(ms)))
  {
    hide Lookup;
    hide Ascii;
    hide ParseTagList;
    hide LongTag;
    match Lookup(ms, Ascii("tags"))
    case Some(Array(xs)) => TagErrors(xs, []);
    case _ =>
  }

  // ----- Rules

  lemma IdentityErrors(ds: Distributions, ms: seq<Member>, info: Info)
    ensures Invalid(RuleIdentity(ds, ms, info))
  {
    hide RequiredString;
    hide CutKey;
    hide SamePrefix;
    hide SlashesToDots;
    StringErrors(ms, ID);
    StringErrors(ms, SECTION);
    StringErrors(ms, PAYLOAD_KEY);
  }

  lemma PartsErrors(ms: seq<Member>)
    ensures Invalid(SerializeProcedure(ms)) && Invalid(ParseParameterMetadata(ms))
  {
    hide Lookup;
    hide Ascii;
    hide ParseParameters;
    match Lookup(ms, Ascii("parameterMetadata"))
    case Some(Object(entries)) => ParametersErrors(entries, map[]);
    case _ =>
  }

  lemma RuleErrors(ds: Distributions, ms: seq<Member>, info: Info)
    ensures var r := ParseRule(ds, ms, info);
      r.Error? ==> r.code == 22 || (r.code == 7 && RuleTooBig(Object(ms)))
  {
    hide Ascii;
    hide RequiredString;
    hide SerializeProcedure;
    hide ParseParameterMetadata;
    hide RuleIdentity;
    hide ParseTags;
    hide ParseMetadata;
    hide RuleTooBig;
    StringErrors(ms, Ascii("title"));
    StringErrors(ms, Ascii("ruleId"));
    StringErrors(ms, Ascii("ruleName"));
    PartsErrors(ms);
    IdentityErrors(ds, ms, info);
    TagsErrors(ms);
    MetadataErrors(ms);
  }

  ghost predicate SomeTooBig(rules: seq<Value>) {
    exists i :: 0 <= i < |rules| && RuleTooBig(rules[i])
  }

  lemma {:induction false} RulesErrors(ds: Distributions, rules: seq<Value>, info: Info, acc: seq<Resource>, seen: set<bytes>)
    ensures var r := ParseRules(ds, rules, info, acc, seen);
      r.Error? ==> r.code == 22 || (r.code == 7 && SomeTooBig(rules))
    decreases |rules|
  {
    hide ParseRule;
    hide RuleTooBig;
    if |rules| > 0 && rules[0].Object? {
      RuleErrors(ds, rules[0].members, info);
      var r := ParseRule(ds, rules[0].members, info);
      if r.Error? {
        assert rules[0] == Object(rules[0].members);
      } else if r.value.id !in seen {
        RulesErrors(ds, rules[1..], info, acc + [r.value], seen + {r.value.id});
        if SomeTooBig(rules[1..]) {
          var i :| 0 <= i < |rules[1..]| && RuleTooBig(rules[1..][i]);
          assert rules[i + 1] == rules[1..][i];
        }
      }
    }
  }

  // ----- The document

  lemma InfoErrors(ds: Distributions, meta: seq<Member>, rules: seq<Value>)
    requires |rules| > 0
    ensures Invalid(DocumentInfo(ds, meta, rules))
  {
    hide Lookup;
    hide Ascii;
    hide RequiredString;
    hide CutKey;
    hide NoGlobbing;
    hide IsLegacyRule;
    var labels, annotations := Lookup(meta, LABELS), Lookup(meta, ANNOTATIONS);
    if labels.Some? && annotations.Some? {
      HoistedErrors(ds, labels.value, annotations.value);
    } else if labels.None? && annotations.None? {
      LegacyErrors(ds, rules);
    }
  }

  lemma HoistedErrors(ds: Distributions, labels: Value, annotations: Value)
    ensures Invalid(HoistedInfo(ds, labels, annotations))
  {
    hide Ascii;
    hide RequiredString;
    if labels.Object? && annotations.Object? {
      StringErrors(labels.members, Ascii("framework"));
      StringErrors(labels.members, Ascii("distribution"));
      StringErrors(labels.members, Ascii("distributionVersion"));
      StringErrors(annotations.members, Ascii("benchmarkVersion"));
    }
  }

  lemma LegacyErrors(ds: Distributions, rules: seq<Value>)
    requires |rules| > 0
    ensures Invalid(LegacyInfo(ds, rules))
  {
    hide RequiredString;
    hide CutKey;
    if forall i | 0 <= i < |rules| :: IsLegacyRule(rules[i]) {
      StringErrors(rules[0].members, PAYLOAD_KEY);
    }
  }

  /** The rules of a tree that is a definition otherwise. */
  ghost predicate HasRules(root: Value, rules: seq<Value>) {
    root.Object? && match Lookup(root.members, Ascii("spec"))
                    case Some(Object(spec)) => Lookup(spec, Ascii("rules")) == Some(Array(rules))
                    case _ => false
  }

  lemma EnvelopeErrors(root: Value)
    ensures ParseEnvelope(root).Error? ==>
      ParseEnvelope(root).code == 22 || (ParseEnvelope(root).code == 7 && exists rules :: HasRules(root, rules) && |rules| > 100000)
    ensures ParseEnvelope(root).Success? ==> HasRules(root, ParseEnvelope(root).value.rules)
  {
    hide Lookup;
    hide RequiredString;
    hide ContentVersions.Parse;
    Names();
    hide Ascii;
    if root.Object? {
      StringErrors(root.members, Ascii("apiVersion"));
      match GetObject(root.members, METADATA)
      case None =>
      case Some(meta) => StringErrors(meta, Ascii("name"));
      match GetObject(root.members, SPEC)
      case None =>
      case Some(spec) => StringErrors(spec, Ascii("version"));
    }
  }

  /** Every refused tree is refused with 22 or 7, and with 7 only if it has more than
      100000 rules or a rule with a tag of more than 256 bytes. */
  lemma ErrorCodes(ds: Distributions, root: Value)
    requires ParseTree(ds, root).Error?
    ensures ParseTree(ds, root).code == 22 ||
      (ParseTree(ds, root).code == 7 && exists rules :: HasRules(root, rules) && (|rules| > 100000 || SomeTooBig(rules)))
  {
    hide ParseEnvelope;
    hide DocumentInfo;
    hide ParseRules;
    hide HasRules;
    hide SomeTooBig;
    EnvelopeErrors(root);
    if ParseEnvelope(root).Success? {
      var e := ParseEnvelope(root).value;
      InfoErrors(ds, e.meta, e.rules);
      if DocumentInfo(ds, e.meta, e.rules).Success? {
        RulesErrors(ds, e.rules, DocumentInfo(ds, e.meta, e.rules).value, [], {});
      }
    }
  }
}
