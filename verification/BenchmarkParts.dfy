/**
  What the parts of a rule accept, as relations between the JSON object and the
  result, without error paths and accumulators.
 */
module BenchmarkParts {
  import opened Bytes
  import opened JsonValues
  import opened BenchmarkInfos
  import opened BenchmarkDefinition
  import JsonText

  // ----- Tags

  /** name:value, neither empty, the name in lower case, digits and hyphens. */
  ghost predicate TagText(tag: bytes) {
    exists name, value ::
      && tag == name + [COLON] + value && name != [] && value != []
      && forall i | 0 <= i < |name| :: 'a' as int <= name[i] <= 'z' as int || '0' as int <= name[i] <= '9' as int || name[i] == '-' as int
  }

  ghost predicate GoodTag(tag: bytes) {
    |tag| <= 256 && NUL !in tag && TagText(tag)
  }

  ghost predicate TagsOf(xs: seq<Value>, tags: seq<bytes>) {
    |tags| == |xs| && forall i | 0 <= i < |xs| :: xs[i] == String(tags[i]) && GoodTag(tags[i])
  }

  lemma ValidTagExactly(tag: bytes)
    ensures ValidTag(tag) <==> TagText(tag)
  {
    hide FindByte;
    var r := FindByte(tag, COLON);
    if ValidTag(tag) {
      var colon := r.value;
      assert tag == tag[..colon] + [COLON] + tag[colon + 1..];
    }
    if TagText(tag) {
      var name, value :| tag == name + [COLON] + value && name != [] && value != []
        && forall i | 0 <= i < |name| :: 'a' as int <= name[i] <= 'z' as int || '0' as int <= name[i] <= '9' as int || name[i] == '-' as int;
      assert COLON !in name;
      FindByteAt(name, COLON, value);
    }
  }

  lemma TagExactly(v: Value, tag: bytes)
    ensures ParseTag(v) == Success(tag) <==> v == String(tag) && GoodTag(tag)
  {
    hide ValidTag;
    hide TagText;
    ValidTagExactly(tag);
    if v.String? {
      ValidTagExactly(v.s);
    }
  }

  lemma {:induction false} TagsSound(xs: seq<Value>, acc: seq<bytes>) returns (tags: seq<bytes>)
    requires ParseTagList(xs, acc).Success?
    ensures TagsOf(xs, tags) && ParseTagList(xs, acc) == Success(acc + tags)
    decreases |xs|
  {
    hide ParseTag;
    hide GoodTag;
    if |xs| == 0 {
      tags := [];
      assert acc + tags == acc;
    } else {
      var tag := ParseTag(xs[0]).value;
      TagExactly(xs[0], tag);
      var rest := TagsSound(xs[1..], acc + [tag]);
      tags := [tag] + rest;
      assert acc + [tag] + rest == acc + tags;
    }
  }

  lemma {:induction false} TagsComplete(xs: seq<Value>, tags: seq<bytes>, acc: seq<bytes>)
    requires TagsOf(xs, tags)
    ensures ParseTagList(xs, acc) == Success(acc + tags)
    decreases |xs|
  {
    hide ParseTag;
    hide GoodTag;
    if |xs| == 0 {
      assert acc + tags == acc;
    } else {
      TagExactly(xs[0], tags[0]);
      TagsComplete(xs[1..], tags[1..], acc + [tags[0]]);
      assert acc + [tags[0]] + tags[1..] == acc + tags;
    }
  }

  /** A list of tags is accepted exactly when each of its entries is a tag, and the
      tags are the entries in their order. */
  lemma TagsExactly(xs: seq<Value>, tags: seq<bytes>)
    ensures ParseTagList(xs, []) == Success(tags) <==> TagsOf(xs, tags)
  {
    hide ParseTagList;
    hide TagsOf;
    if ParseTagList(xs, []).Success? {
      var ts := TagsSound(xs, []);
      assert [] + ts == ts;
    }
    if TagsOf(xs, tags) {
      TagsComplete(xs, tags, []);
      assert [] + tags == tags;
    }
  }

  // ----- Fields

  /** The object gives the name a string that is neither empty nor holds a NUL. */
  ghost predicate Says(ms: seq<Member>, key: bytes, s: bytes) {
    Lookup(ms, key) == Some(String(s)) && s != [] && NUL !in s
  }

  /** The object gives the name a NUL-free string, or does not have the name. */
  ghost predicate MaySay(ms: seq<Member>, key: bytes, s: Option<bytes>) {
    match s
    case None => Lookup(ms, key) == None
    case Some(t) => Lookup(ms, key) == Some(String(t)) && NUL !in t
  }

  lemma RequiredExactly(ms: seq<Member>, key: bytes, s: bytes)
    ensures RequiredString(ms, key) == Success(s) <==> Says(ms, key, s)
  {
  }

  lemma OptionalExactly(ms: seq<Member>, key: bytes, s: Option<bytes>)
    ensures OptionalString(ms, key) == Success(s) <==> MaySay(ms, key, s)
  {
  }

  // ----- Parameters

  ghost predicate ParameterFields(entry: seq<Member>, p: ParameterMetadata) {
    && MaySay(entry, Ascii("default"), Some(p.defaultValue))
    && Says(entry, Ascii("type"), Ascii("string")) && p.kind == Ascii("string")
    && MaySay(entry, Ascii("displayName"), p.displayName)
    && MaySay(entry, Ascii("validationRegex"), p.validationRegex)
    && MaySay(entry, Ascii("validationFailedMessage"), p.validationFailedMessage)
    && Lookup(entry, Ascii("mandatory")) in {None, Some(Bool(p.mandatory))}
    && (Lookup(entry, Ascii("mandatory")) == None ==> !p.mandatory)
  }

  /** An entry is accepted exactly when it has a name and the fields say p. */
  lemma ParameterExactly(m: Member, p: ParameterMetadata)
    ensures ParseParameter(m) == Success(p) <==> EntryOf(m, p)
  {
    hide Lookup;
    hide Ascii;
    if m.value.Object? {
      var entry := m.value.members;
      RequiredExactly(entry, Ascii("type"), p.kind);
      OptionalExactly(entry, Ascii("displayName"), p.displayName);
      OptionalExactly(entry, Ascii("validationRegex"), p.validationRegex);
      OptionalExactly(entry, Ascii("validationFailedMessage"), p.validationFailedMessage);
    }
  }

  ghost predicate EntryOf(m: Member, p: ParameterMetadata) {
    m.key != [] && m.value.Object? && ParameterFields(m.value.members, p)
  }

  ghost predicate ParametersOf(ms: seq<Member>, m: map<bytes, ParameterMetadata>) {
    && (forall i | 0 <= i < |ms| :: ms[i].key in m && EntryOf(ms[i], m[ms[i].key]))
    && (forall key | key in m :: HasKey(ms, key))
  }

  lemma {:induction false} ParametersStep(ms: seq<Member>, acc: map<bytes, ParameterMetadata>, m: map<bytes, ParameterMetadata>)
    requires DistinctKeys(ms) && forall i | 0 <= i < |ms| :: ms[i].key !in acc
    ensures ParseParameters(ms, acc) == Success(m) <==>
      && (forall i | 0 <= i < |ms| :: ms[i].key in m && EntryOf(ms[i], m[ms[i].key]))
      && (forall key | key in acc :: key in m && m[key] == acc[key])
      && (forall key | key in m :: HasKey(ms, key) || key in acc)
    decreases |ms|
  {
    hide ParseParameter;
    hide EntryOf;
    if |ms| == 0 {
      assert ParseParameters(ms, acc) == Success(m) <==> acc == m;
    } else {
      if ms[0].key in m {
        ParameterExactly(ms[0], m[ms[0].key]);
      }
      if ParseParameter(ms[0]).Success? {
        var rest, acc' := ms[1..], acc[ms[0].key := ParseParameter(ms[0]).value];
        assert forall i | 1 <= i < |ms| :: ms[i] == rest[i - 1];
        assert forall i | 0 <= i < |rest| :: rest[i] == ms[i + 1];
        HasKeyStep(ms);
        ParametersStep(rest, acc', m);
      }
    }
  }

  /** The parameters are accepted exactly when the fields of each entry say so, and
      the result maps the names to the entries and holds no other name. */
  lemma ParametersExactly(ms: seq<Member>, m: map<bytes, ParameterMetadata>)
    requires DistinctKeys(ms)
    ensures ParseParameters(ms, map[]) == Success(m) <==> ParametersOf(ms, m)
  {
    hide EntryOf;
    hide ParseParameters;
    ParametersStep(ms, map[], m);
  }

  // ----- Metadata

  const FIELDS: seq<string> := ["description", "rationale", "fixtext", "severity", "references"]

  /** The properties that have a field of their own. */
  ghost predicate IsField(key: bytes) {
    exists i :: 0 <= i < |FIELDS| && key == Ascii(FIELDS[i])
  }

  lemma KnownExactly(key: bytes)
    ensures KnownMetadata(key) <==> IsField(key)
  {
    hide Ascii;
    assert FIELDS[0] == "description" && FIELDS[1] == "rationale" && FIELDS[2] == "fixtext"
        && FIELDS[3] == "severity" && FIELDS[4] == "references";
  }

  /** The additional properties are exactly the other names, with their strings. */
  ghost predicate AdditionalOf(all: seq<Member>, ms: seq<Member>, acc: map<bytes, bytes>, m: map<bytes, bytes>) {
    && (forall key | key in acc :: key in m && m[key] == acc[key])
    && (forall key | key in m :: key in acc || (HasKey(ms, key) && !IsField(key)))
    && (forall key | HasKey(ms, key) && !IsField(key) :: key in m && MaySay(all, key, Some(m[key])))
  }

  lemma {:induction false} AdditionalStep(all: seq<Member>, ms: seq<Member>, acc: map<bytes, bytes>, m: map<bytes, bytes>)
    requires forall key | HasKey(ms, key) :: HasKey(all, key)
    requires forall key | key in acc :: MaySay(all, key, Some(acc[key]))
    ensures ParseAdditional(all, ms, acc) == Success(m) <==> AdditionalOf(all, ms, acc, m)
    decreases |ms|
  {
    hide KnownMetadata;
    hide IsField;
    hide OptionalString;
    hide Lookup;
    if |ms| == 0 {
      assert AdditionalOf(all, ms, acc, m) <==> m == acc;
    } else {
      var rest, key := ms[1..], ms[0].key;
      HasKeyStep(ms);
      KnownExactly(key);
      assert HasKey(all, key);
      var extra := OptionalString(all, key);
      if KnownMetadata(key) {
        AdditionalStep(all, rest, acc, m);
      } else if extra.Error? {
        if key in m {
          OptionalExactly(all, key, Some(m[key]));
        }
      } else {
        OptionalExactly(all, key, extra.value);
        var acc' := if key in acc then acc else acc[key := extra.value.value];
        AdditionalStep(all, rest, acc', m);
      }
    }
  }

  lemma HasKeyStep(ms: seq<Member>)
    requires |ms| > 0
    ensures forall key :: HasKey(ms, key) <==> key == ms[0].key || HasKey(ms[1..], key)
  {
    assert forall i | 1 <= i < |ms| :: ms[i] == ms[1..][i - 1];
    assert forall i | 0 <= i < |ms| - 1 :: ms[1..][i] == ms[i + 1];
  }

  ghost predicate MetadataFields(all: seq<Member>, m: Metadata) {
    && MaySay(all, Ascii("description"), m.description)
    && MaySay(all, Ascii("rationale"), m.rationale)
    && MaySay(all, Ascii("fixtext"), m.fixtext)
    && MaySay(all, Ascii("severity"), m.severity)
    && MaySay(all, Ascii("references"), m.references)
    && AdditionalOf(all, all, map[], m.additional)
  }

  /** The metadata of a rule are accepted exactly when each property is a string. */
  lemma MetadataExactly(ms: seq<Member>, m: Metadata)
    ensures ParseMetadata(ms) == Success(m) <==> MetadataField(ms, m)
  {
    hide Lookup;
    hide Ascii;
    hide OptionalString;
    hide MaySay;
    hide AdditionalOf;
    var found := Lookup(ms, Ascii("metadata"));
    if found.Some? && found.value.Object? {
      var all := found.value.members;
      OptionalExactly(all, Ascii("description"), m.description);
      OptionalExactly(all, Ascii("rationale"), m.rationale);
      OptionalExactly(all, Ascii("fixtext"), m.fixtext);
      OptionalExactly(all, Ascii("severity"), m.severity);
      OptionalExactly(all, Ascii("references"), m.references);
      AdditionalStep(all, all, map[], m.additional);
    }
  }

  // ----- Identity

  ghost predicate HoistedId(ms: seq<Member>, id: bytes) {
    Says(ms, ID, id) && !HasKey(ms, SECTION) && !HasKey(ms, PAYLOAD_KEY)
  }

  ghost predicate LegacyId(ds: Distributions, ms: seq<Member>, info: Info, id: bytes) {
    && !HasKey(ms, ID) && Says(ms, SECTION, id)
    && exists key :: Says(ms, PAYLOAD_KEY, key) && AgreesWith(ds, key, info, id)
  }

  /** s is core, or core behind an optional leading `v`. */
  ghost predicate UpToV(s: bytes, core: bytes) {
    s == ['v' as int] + core || (s == core && (|s| > 0 ==> s[0] != 'v' as int))
  }

  /** The identities agree but for a leading `v` of the benchmark version; sections
      are not looked at. */
  ghost predicate Agree(a: Info, b: Info) {
    && a.framework == b.framework && a.distribution == b.distribution && a.version == b.version
    && exists core :: UpToV(a.benchmarkVersion, core) && UpToV(b.benchmarkVersion, core)
  }

  lemma SamePrefixExactly(a: Info, b: Info)
    ensures SamePrefix(a, b) <==> Agree(a, b)
  {
    UpToVExactly(a.benchmarkVersion);
    UpToVExactly(b.benchmarkVersion);
    if SamePrefix(a, b) {
      assert UpToV(a.benchmarkVersion, WithoutV(a.benchmarkVersion)) && UpToV(b.benchmarkVersion, WithoutV(a.benchmarkVersion));
    }
  }

  lemma UpToVExactly(s: bytes)
    ensures forall core :: UpToV(s, core) <==> core == WithoutV(s)
  {
    if |s| > 0 {
      HeadTail(s);
    }
    forall core ensures UpToV(s, core) <==> core == WithoutV(s) {
      if s == ['v' as int] + core {
        Splits(['v' as int], core);
      }
    }
  }

  /** id is the section with a dot for each slash. */
  ghost predicate Dotted(section: bytes, id: bytes) {
    |id| == |section| && forall i | 0 <= i < |id| :: id[i] == if section[i] == '/' as int then '.' as int else section[i]
  }

  lemma DottedExactly(section: bytes, id: bytes)
    ensures id == SlashesToDots(section) <==> Dotted(section, id)
  {
  }

  /** Joined with slashes in the key, the parts of a section are joined with dots in
      the id. */
  lemma {:induction false} DottedParts(parts: seq<bytes>)
    requires Without(parts, SLASH)
    ensures Dotted(Join(parts, SLASH), Join(parts, DOT))
  {
    if |parts| > 1 {
      var a, b := Join(parts[1..], SLASH), Join(parts[1..], DOT);
      DottedParts(parts[1..]);
      var s, t := parts[0] + [SLASH] + a, parts[0] + [DOT] + b;
      forall i | 0 <= i < |t| ensures t[i] == if s[i] == SLASH then DOT else s[i] {
        if i < |parts[0]| {
          assert t[i] == s[i] == parts[0][i];
        } else if i > |parts[0]| {
          assert t[i] == b[i - |parts[0]| - 1] && s[i] == a[i - |parts[0]| - 1];
        }
      }
    }
  }

  /** The key names an identity that agrees with the document's, and the id is its
      section with dots for slashes. */
  ghost predicate AgreesWith(ds: Distributions, key: bytes, info: Info, id: bytes) {
    exists named :: KeyNames(ds, key, named) && Agree(named, info) && Dotted(named.section, id)
  }

  lemma AgreesExactly(ds: Distributions, key: bytes, info: Info, id: bytes)
    ensures AgreesWith(ds, key, info, id) <==>
      ParseKey(ds, key).Success? && SamePrefix(ParseKey(ds, key).value, info) && id == SlashesToDots(ParseKey(ds, key).value.section)
  {
    hide KeyNames;
    hide ParseKey;
    hide SamePrefix;
    hide Agree;
    hide Dotted;
    hide SlashesToDots;
    if ParseKey(ds, key).Success? {
      var named := ParseKey(ds, key).value;
      ParseKeyExactly(ds, key, named);
      SamePrefixExactly(named, info);
      DottedExactly(named.section, id);
    }
    if AgreesWith(ds, key, info, id) {
      var named :| KeyNames(ds, key, named) && Agree(named, info) && Dotted(named.section, id);
      ParseKeyExactly(ds, key, named);
    }
  }

  /** A rule is identified in one of two ways, never by a mixture of them. */
  lemma IdentityExactly(ds: Distributions, ms: seq<Member>, info: Info, id: bytes)
    ensures RuleIdentity(ds, ms, info) == Success(id) <==> HoistedId(ms, id) || LegacyId(ds, ms, info, id)
  {
    hide ParseKey;
    hide SlashesToDots;
    hide SamePrefix;
    hide RequiredString;
    hide Says;
    hide AgreesWith;
    RequiredExactly(ms, ID, id);
    RequiredExactly(ms, SECTION, id);
    SaysHasKey(ms, ID, id);
    SaysHasKey(ms, SECTION, id);
    forall key
      ensures RequiredString(ms, PAYLOAD_KEY) == Success(key) <==> Says(ms, PAYLOAD_KEY, key)
    {
      RequiredExactly(ms, PAYLOAD_KEY, key);
      SaysHasKey(ms, PAYLOAD_KEY, key);
    }
    forall key
      ensures AgreesWith(ds, key, info, id) <==>
        ParseKey(ds, key).Success? && SamePrefix(ParseKey(ds, key).value, info) && id == SlashesToDots(ParseKey(ds, key).value.section)
    {
      AgreesExactly(ds, key, info, id);
    }
    if RequiredString(ms, PAYLOAD_KEY).Success? {
      SaysHasKey(ms, PAYLOAD_KEY, RequiredString(ms, PAYLOAD_KEY).value);
    }
  }

  lemma SaysHasKey(ms: seq<Member>, key: bytes, s: bytes)
    ensures Says(ms, key, s) ==> HasKey(ms, key)
  {
  }

  // ----- Rules

  ghost predicate TagsField(ms: seq<Member>, tags: seq<bytes>) {
    match Lookup(ms, Ascii("tags"))
    case Some(Array(xs)) => TagsOf(xs, tags)
    case _ => false
  }

  ghost predicate ParametersField(ms: seq<Member>, m: map<bytes, ParameterMetadata>) {
    match Lookup(ms, Ascii("parameterMetadata"))
    case None => m == map[]
    case Some(Object(entries)) => ParametersOf(entries, m)
    case _ => false
  }

  ghost predicate MetadataField(ms: seq<Member>, m: Metadata) {
    match Lookup(ms, Ascii("metadata"))
    case Some(Object(all)) => MetadataFields(all, m)
    case _ => false
  }

  ghost predicate ProcedureField(ms: seq<Member>, procedure: bytes) {
    match Lookup(ms, Ascii("payload"))
    case Some(Object(inner)) => procedure == JsonText.Serialize(Object(inner), JsonText.Style(false, true))
    case _ => false
  }

  /** The members of a rule say r. */
  ghost predicate RuleFields(ds: Distributions, ms: seq<Member>, info: Info, r: Resource) {
    && Says(ms, Ascii("title"), r.title) && Says(ms, Ascii("ruleId"), r.ruleId) && Says(ms, Ascii("ruleName"), r.ruleName)
    && ProcedureField(ms, r.procedure) && ParametersField(ms, r.parameterMetadata)
    && (HoistedId(ms, r.id) || LegacyId(ds, ms, info, r.id))
    && TagsField(ms, r.tags) && MetadataField(ms, r.metadata)
    && r.benchmarkInfo == info && r.hasInitAudit
  }

  lemma FieldsExactly(ms: seq<Member>, r: Resource)
    requires WellFormed(Object(ms))
    ensures SerializeProcedure(ms) == Success(r.procedure) <==> ProcedureField(ms, r.procedure)
    ensures ParseParameterMetadata(ms) == Success(r.parameterMetadata) <==> ParametersField(ms, r.parameterMetadata)
    ensures ParseTags(ms) == Success(r.tags) <==> TagsField(ms, r.tags)
    ensures ParseMetadata(ms) == Success(r.metadata) <==> MetadataField(ms, r.metadata)
  {
    hide Lookup;
    hide Ascii;
    hide ParseParameters;
    hide ParametersOf;
    hide ParseTagList;
    hide TagsOf;
    hide ParseMetadata;
    hide MetadataFields;
    hide JsonText.Serialize;
    var parameters, tags := Lookup(ms, Ascii("parameterMetadata")), Lookup(ms, Ascii("tags"));
    if parameters.Some? && parameters.value.Object? {
      MemberWellFormed(ms, Ascii("parameterMetadata"));
      ParametersExactly(parameters.value.members, r.parameterMetadata);
    }
    if tags.Some? && tags.value.Array? {
      TagsExactly(tags.value.items, r.tags);
    }
    MetadataExactly(ms, r.metadata);
  }

  lemma MemberWellFormed(ms: seq<Member>, key: bytes)
    requires WellFormed(Object(ms)) && Lookup(ms, key).Some?
    ensures WellFormed(Lookup(ms, key).value)
  {
    var i :| 0 <= i < |ms| && ms[i] == Member(key, Lookup(ms, key).value);
    assert WellFormed(ms[i].value);
  }

  /** A rule is accepted as r exactly when its members say r. */
  lemma RuleExactly(ds: Distributions, ms: seq<Member>, info: Info, r: Resource)
    requires WellFormed(Object(ms))
    ensures ParseRule(ds, ms, info) == Success(r) <==> RuleFields(ds, ms, info, r)
  {
    hide Lookup;
    hide Ascii;
    hide RequiredString;
    hide SerializeProcedure;
    hide ParseParameterMetadata;
    hide ParseTags;
    hide ParseMetadata;
    hide ProcedureField;
    hide ParametersField;
    hide TagsField;
    hide MetadataField;
    hide RuleIdentity;
    hide HoistedId;
    hide LegacyId;
    hide Says;
    RequiredExactly(ms, Ascii("title"), r.title);
    RequiredExactly(ms, Ascii("ruleId"), r.ruleId);
    RequiredExactly(ms, Ascii("ruleName"), r.ruleName);
    FieldsExactly(ms, r);
    IdentityExactly(ds, ms, info, r.id);
  }
}
