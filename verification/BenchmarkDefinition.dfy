/**
  The benchmark-definition parser: a JSON tree becomes a BenchmarkDocument, or the
  error code of the first check that fails. Error messages are not modelled.
 */
module BenchmarkDefinition {
  import opened Bytes
  import opened JsonValues
  import opened BenchmarkInfos
  import ContentVersions
  import JsonText
  import JsonWrapper

  const MAX_RULES: nat := 100000
  const MAX_TAG_BYTES: nat := 256

  datatype ParameterMetadata = ParameterMetadata(
    defaultValue: bytes, kind: bytes, displayName: Option<bytes>,
    validationRegex: Option<bytes>, validationFailedMessage: Option<bytes>, mandatory: bool)

  datatype Metadata = Metadata(
    description: Option<bytes>, rationale: Option<bytes>, fixtext: Option<bytes>,
    severity: Option<bytes>, references: Option<bytes>, additional: map<bytes, bytes>)

  datatype Resource = Resource(
    benchmarkInfo: Info, title: bytes, id: bytes, ruleId: bytes, procedure: bytes, ruleName: bytes,
    tags: seq<bytes>, metadata: Metadata, parameterMetadata: map<bytes, ParameterMetadata>, hasInitAudit: bool)

  datatype Document = Document(name: bytes, version: ContentVersions.Version, benchmarkInfo: Info, resources: seq<Resource>)

  // ----- Fields of an object

  /** `json_object_get_object`. */
  function GetObject(ms: seq<Member>, key: bytes): Option<seq<Member>> {
    match Lookup(ms, key)
    case Some(Object(inner)) => Some(inner)
    case _ => None
  }

  function RequiredStringAllowEmpty(ms: seq<Member>, key: bytes): Result<bytes> {
    match Lookup(ms, key)
    case Some(String(s)) => if NUL in s then Error(EINVAL) else Success(s)
    case _ => Error(EINVAL)
  }

  function RequiredString(ms: seq<Member>, key: bytes): Result<bytes> {
    var s :- RequiredStringAllowEmpty(ms, key);
    if s == [] then Error(EINVAL) else Success(s)
  }

  function OptionalString(ms: seq<Member>, key: bytes): Result<Option<bytes>> {
    match Lookup(ms, key)
    case None => Success(None)
    case Some(String(s)) => if NUL in s then Error(EINVAL) else Success(Some(s))
    case _ => Error(EINVAL)
  }

  // ----- The parts of a rule

  /** The style of `json_serialize_to_string` with the library's defaults. */
  const COMPACT := JsonText.Style(false, true)

  function SerializeProcedure(ms: seq<Member>): Result<bytes> {
    match Lookup(ms, Ascii("payload"))
    case Some(Object(inner)) => Success(JsonText.Serialize(Object(inner), COMPACT))
    case _ => Error(EINVAL)
  }

  function ParseMandatory(entry: seq<Member>): Result<bool> {
    match Lookup(entry, Ascii("mandatory"))
    case None => Success(false)
    case Some(Bool(b)) => Success(b)
    case _ => Error(EINVAL)
  }

  /** One entry of `parameterMetadata`. */
  function ParseParameter(m: Member): Result<ParameterMetadata> {
    if m.key == [] || !m.value.Object? then Error(EINVAL)
    else
      var entry := m.value.members;
      var defaultValue :- RequiredStringAllowEmpty(entry, Ascii("default"));
      var kind :- RequiredString(entry, Ascii("type"));
      if kind != Ascii("string") then Error(EINVAL)
      else
        var displayName :- OptionalString(entry, Ascii("displayName"));
        var regex :- OptionalString(entry, Ascii("validationRegex"));
        var message :- OptionalString(entry, Ascii("validationFailedMessage"));
        var mandatory :- ParseMandatory(entry);
        Success(ParameterMetadata(defaultValue, kind, displayName, regex, message, mandatory))
  }

  function ParseParameters(ms: seq<Member>, acc: map<bytes, ParameterMetadata>): Result<map<bytes, ParameterMetadata>> {
    if |ms| == 0 then Success(acc)
    else
      var p :- ParseParameter(ms[0]);
      ParseParameters(ms[1..], acc[ms[0].key := p])
  }

  function ParseParameterMetadata(ms: seq<Member>): Result<map<bytes, ParameterMetadata>> {
    match Lookup(ms, Ascii("parameterMetadata"))
    case None => Success(map[])
    case Some(Object(entries)) => ParseParameters(entries, map[])
    case _ => Error(EINVAL)
  }

  predicate TagNameByte(b: byte) {
    0x61 <= b <= 0x7A || 0x30 <= b <= 0x39 || b == MINUS
  }

  predicate ValidTag(tag: bytes) {
    match FindByte(tag, COLON)
    case None => false
    case Some(colon) =>
      colon != 0 && colon + 1 != |tag| && forall i | 0 <= i < colon :: TagNameByte(tag[i])
  }

  function ParseTag(v: Value): Result<bytes> {
    if !v.String? then Error(EINVAL)
    else if |v.s| > MAX_TAG_BYTES then Error(E2BIG)
    else if NUL in v.s || !ValidTag(v.s) then Error(EINVAL)
    else Success(v.s)
  }

  function ParseTagList(xs: seq<Value>, acc: seq<bytes>): Result<seq<bytes>> {
    if |xs| == 0 then Success(acc)
    else
      var tag :- ParseTag(xs[0]);
      ParseTagList(xs[1..], acc + [tag])
  }

  function ParseTags(ms: seq<Member>): Result<seq<bytes>> {
    match Lookup(ms, Ascii("tags"))
    case Some(Array(xs)) => ParseTagList(xs, [])
    case _ => Error(EINVAL)
  }

  predicate KnownMetadata(key: bytes) {
    || key == Ascii("description") || key == Ascii("rationale") || key == Ascii("fixtext")
    || key == Ascii("severity") || key == Ascii("references")
  }

  /** The loop over the other properties of `metadata`; each is looked up by name. */
  function ParseAdditional(all: seq<Member>, ms: seq<Member>, acc: map<bytes, bytes>): Result<map<bytes, bytes>> {
    if |ms| == 0 then Success(acc)
    else if KnownMetadata(ms[0].key) then ParseAdditional(all, ms[1..], acc)
    else
      var extra :- OptionalString(all, ms[0].key);
      ParseAdditional(all, ms[1..], if extra.None? || ms[0].key in acc then acc else acc[ms[0].key := extra.value])
  }

  function ParseMetadata(ms: seq<Member>): Result<Metadata> {
    match GetObject(ms, Ascii("metadata"))
    case None => Error(EINVAL)
    case Some(all) =>
      var description :- OptionalString(all, Ascii("description"));
      var rationale :- OptionalString(all, Ascii("rationale"));
      var fixtext :- OptionalString(all, Ascii("fixtext"));
      var severity :- OptionalString(all, Ascii("severity"));
      var references :- OptionalString(all, Ascii("references"));
      var additional :- ParseAdditional(all, all, map[]);
      Success(Metadata(description, rationale, fixtext, severity, references, additional))
  }

  // ----- Identity of a rule

  const ID: bytes := [0x69, 0x64]
  const SECTION: bytes := [0x73, 0x65, 0x63, 0x74, 0x69, 0x6F, 0x6E]
  const PAYLOAD_KEY: bytes := [0x70, 0x61, 0x79, 0x6C, 0x6F, 0x61, 0x64, 0x4B, 0x65, 0x79]

  /** `BenchmarkVersionWithoutOptionalPrefix`. */
  function WithoutV(version: bytes): bytes {
    if |version| > 0 && version[0] == 0x76 then version[1..] else version
  }

  /** `ValidateLegacyPayloadKeyPrefix` finds nothing to complain about. */
  predicate SamePrefix(key: Info, document: Info) {
    && key.framework == document.framework
    && key.distribution == document.distribution
    && key.version == document.version
    && WithoutV(key.benchmarkVersion) == WithoutV(document.benchmarkVersion)
  }

  function SlashesToDots(s: bytes): (t: bytes)
    ensures |t| == |s|
  {
    seq(|s|, i requires 0 <= i < |s| => if s[i] == SLASH then DOT else s[i])
  }

  /** A legacy identity: section and payload key, which must agree with each other
      and with the document. */
  function LegacyIdentity(ds: Distributions, ms: seq<Member>, info: Info): Result<bytes> {
    var section :- RequiredString(ms, SECTION);
    var payloadKey :- RequiredString(ms, PAYLOAD_KEY);
    var key :- ParseKey(ds, payloadKey);
    if !SamePrefix(key, info) || section != SlashesToDots(key.section) then Error(EINVAL)
    else Success(section)
  }

  function RuleIdentity(ds: Distributions, ms: seq<Member>, info: Info): Result<bytes> {
    if HasKey(ms, ID) then
      if HasKey(ms, SECTION) || HasKey(ms, PAYLOAD_KEY) then Error(EINVAL) else RequiredString(ms, ID)
    else if !HasKey(ms, SECTION) || !HasKey(ms, PAYLOAD_KEY) then Error(EINVAL)
    else LegacyIdentity(ds, ms, info)
  }

  /** `ParseRule`. */
  function ParseRule(ds: Distributions, ms: seq<Member>, info: Info): Result<Resource> {
    var title :- RequiredString(ms, Ascii("title"));
    var ruleId :- RequiredString(ms, Ascii("ruleId"));
    var ruleName :- RequiredString(ms, Ascii("ruleName"));
    var procedure :- SerializeProcedure(ms);
    var parameters :- ParseParameterMetadata(ms);
    var id :- RuleIdentity(ds, ms, info);
    var tags :- ParseTags(ms);
    var metadata :- ParseMetadata(ms);
    Success(Resource(info, title, id, ruleId, procedure, ruleName, tags, metadata, parameters, true))
  }

  /** The loop over the rules, with the resources and ids seen so far. */
  function ParseRules(ds: Distributions, rules: seq<Value>, info: Info, acc: seq<Resource>, seen: set<bytes>): Result<seq<Resource>> {
    if |rules| == 0 then Success(acc)
    else if !rules[0].Object? then Error(EINVAL)
    else
      var r :- ParseRule(ds, rules[0].members, info);
      if r.id in seen then Error(EINVAL)
      else ParseRules(ds, rules[1..], info, acc + [r], seen + {r.id})
  }

  // ----- The document

  predicate IsLegacyRule(v: Value) {
    v.Object? && !HasKey(v.members, ID) && HasKey(v.members, SECTION) && HasKey(v.members, PAYLOAD_KEY)
  }

  /** Identity from `metadata.labels` and `metadata.annotations`. */
  function HoistedInfo(ds: Distributions, labels: Value, annotations: Value): Result<Info> {
    if !labels.Object? || !annotations.Object? then Error(EINVAL)
    else
      var framework :- RequiredString(labels.members, Ascii("framework"));
      var distribution :- RequiredString(labels.members, Ascii("distribution"));
      var version :- RequiredString(labels.members, Ascii("distributionVersion"));
      var benchmarkVersion :- RequiredString(annotations.members, Ascii("benchmarkVersion"));
      FromMetadata(ds, framework, distribution, version, benchmarkVersion)
  }

  /** Identity from the first payload key of a document that is legacy throughout. */
  function LegacyInfo(ds: Distributions, rules: seq<Value>): Result<Info>
    requires |rules| > 0
  {
    if exists i | 0 <= i < |rules| :: !IsLegacyRule(rules[i]) then Error(EINVAL)
    else
      var key :- RequiredString(rules[0].members, PAYLOAD_KEY);
      var info :- ParseKey(ds, key);
      Success(info.(section := []))
  }

  const LABELS: bytes := [0x6C, 0x61, 0x62, 0x65, 0x6C, 0x73]
  const ANNOTATIONS: bytes := [0x61, 0x6E, 0x6E, 0x6F, 0x74, 0x61, 0x74, 0x69, 0x6F, 0x6E, 0x73]

  function DocumentInfo(ds: Distributions, meta: seq<Member>, rules: seq<Value>): Result<Info>
    requires |rules| > 0
  {
    match (Lookup(meta, LABELS), Lookup(meta, ANNOTATIONS))
    case (Some(labels), Some(annotations)) => HoistedInfo(ds, labels, annotations)
    case (None, None) => LegacyInfo(ds, rules)
    case _ => Error(EINVAL)
  }

  const METADATA: bytes := [0x6D, 0x65, 0x74, 0x61, 0x64, 0x61, 0x74, 0x61]
  const SPEC: bytes := [0x73, 0x70, 0x65, 0x63]
  const RULES: bytes := [0x72, 0x75, 0x6C, 0x65, 0x73]

  /** The names that are written out above. */
  lemma Names()
    ensures ID == Ascii("id") && SECTION == Ascii("section") && PAYLOAD_KEY == Ascii("payloadKey")
    ensures LABELS == Ascii("labels") && ANNOTATIONS == Ascii("annotations")
    ensures METADATA == Ascii("metadata") && SPEC == Ascii("spec") && RULES == Ascii("rules")
  {
    assert Ascii("id") == ID;
    assert Ascii("section") == SECTION;
    assert Ascii("payloadKey") == PAYLOAD_KEY;
    assert Ascii("labels") == LABELS;
    assert Ascii("annotations") == ANNOTATIONS;
    assert Ascii("metadata") == METADATA;
    assert Ascii("spec") == SPEC;
    assert Ascii("rules") == RULES;
  }

  /** What stands in the envelope of a document besides its identity and rules. */
  datatype Envelope = Envelope(meta: seq<Member>, spec: seq<Member>, name: bytes, version: ContentVersions.Version, rules: seq<Value>)

  function ParseEnvelope(root: Value): (r: Result<Envelope>)
    ensures r.Success? ==> root.Object? && 0 < |r.value.rules| <= MAX_RULES
  {
    if !root.Object? then Error(EINVAL)
    else
      var ms := root.members;
      var kind := RequiredString(ms, Ascii("kind"));
      if kind != Success(Ascii("BenchmarkDefinition")) then Error(EINVAL)
      else
        var apiVersion :- RequiredString(ms, Ascii("apiVersion"));
        if apiVersion != Ascii("v1") then Error(EINVAL)
        else
          match GetObject(ms, METADATA)
          case None => Error(EINVAL)
          case Some(meta) =>
            var name :- RequiredString(meta, Ascii("name"));
            match GetObject(ms, SPEC)
            case None => Error(EINVAL)
            case Some(spec) =>
              var text :- RequiredString(spec, Ascii("version"));
              match ContentVersions.Parse(text)
              case None => Error(EINVAL)
              case Some(version) =>
                match Lookup(spec, RULES)
                case Some(Array(rules)) =>
                  if |rules| == 0 then Error(EINVAL)
                  else if |rules| > MAX_RULES then Error(E2BIG)
                  else Success(Envelope(meta, spec, name, version, rules))
                case _ => Error(EINVAL)
  }

  /** `ParseString` behind the JSON parser. */
  function ParseTree(ds: Distributions, root: Value): Result<Document> {
    var e :- ParseEnvelope(root);
    var info :- DocumentInfo(ds, e.meta, e.rules);
    var resources :- ParseRules(ds, e.rules, info, [], {});
    Success(Document(e.name, e.version, info, resources))
  }

  datatype Outcome = Accepted(document: Document) | Refused(code: int) | OutsideModel

  /** `ParseString`: a raw NUL is refused before the JSON parser sees the text.
      OutsideModel stands for texts with numbers the model gives no meaning to. */
  function ParseString(ds: Distributions, json: bytes): Outcome {
    if NUL in json then Refused(EINVAL)
    else
      match JsonWrapper.FromString(json)
      case Err(UnmodelledNumber) => OutsideModel
      case Err(Malformed) => Refused(EINVAL)
      case Ok(root, _) =>
        match ParseTree(ds, root)
        case Error(code) => Refused(code)
        case Success(document) => Accepted(document)
  }

  // ----- The loops of the source

  method ParseTagsLoop(xs: seq<Value>) returns (r: Result<seq<bytes>>)
    ensures r == ParseTagList(xs, [])
  {
    var tags: seq<bytes> := [];
    for i := 0 to |xs|
      invariant ParseTagList(xs, []) == ParseTagList(xs[i..], tags)
    {
      var tag := ParseTag(xs[i]);
      if tag.Error? {
        return Error(tag.code);
      }
      assert xs[i..][1..] == xs[i + 1..];
      tags := tags + [tag.value];
    }
    return Success(tags);
  }

  method ParseParametersLoop(entries: seq<Member>) returns (r: Result<map<bytes, ParameterMetadata>>)
    ensures r == ParseParameters(entries, map[])
  {
    hide ParseParameter;
    var result: map<bytes, ParameterMetadata> := map[];
    for i := 0 to |entries|
      invariant ParseParameters(entries, map[]) == ParseParameters(entries[i..], result)
    {
      var p := ParseParameter(entries[i]);
      if p.Error? {
        return Error(p.code);
      }
      assert entries[i..][1..] == entries[i + 1..];
      result := result[entries[i].key := p.value];
    }
    return Success(result);
  }

  method ParseAdditionalLoop(all: seq<Member>) returns (r: Result<map<bytes, bytes>>)
    ensures r == ParseAdditional(all, all, map[])
  {
    hide KnownMetadata;
    hide OptionalString;
    var result: map<bytes, bytes> := map[];
    for i := 0 to |all|
      invariant ParseAdditional(all, all, map[]) == ParseAdditional(all, all[i..], result)
    {
      var key := all[i].key;
      assert all[i..][1..] == all[i + 1..];
      if !KnownMetadata(key) {
        var extra := OptionalString(all, key);
        if extra.Error? {
          return Error(extra.code);
        }
        if extra.value.Some? && key !in result {
          result := result[key := extra.value.value];
        }
      }
    }
    return Success(result);
  }

  method ParseRulesLoop(ds: Distributions, rules: seq<Value>, info: Info) returns (r: Result<seq<Resource>>)
    ensures r == ParseRules(ds, rules, info, [], {})
  {
    hide ParseRule;
    var resources: seq<Resource>, seenIds: set<bytes> := [], {};
    for i := 0 to |rules|
      invariant ParseRules(ds, rules, info, [], {}) == ParseRules(ds, rules[i..], info, resources, seenIds)
    {
      assert rules[i..][1..] == rules[i + 1..];
      if !rules[i].Object? {
        return Error(EINVAL);
      }
      var resource := ParseRule(ds, rules[i].members, info);
      if resource.Error? {
        return Error(resource.code);
      }
      if resource.value.id in seenIds {
        return Error(EINVAL);
      }
      seenIds := seenIds + {resource.value.id};
      resources := resources + [resource.value];
    }
    return Success(resources);
  }
}
