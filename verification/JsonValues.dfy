/** JSON trees as parson stores them, and what it guarantees about every tree. */
module JsonValues {
  import opened Bytes

  datatype Value =
    | Null
    | Bool(b: bool)
    | Number(n: int)
    | String(s: bytes)
    | Array(items: seq<Value>)
    | Object(members: seq<Member>)

  /** A slot of the parallel `names` and `values` arrays of an object. */
  datatype Member = Member(key: bytes, value: Value)

  const MAX_NESTING: nat := 2048

  /** Integers up to this magnitude are printed exactly by "%1.17g". */
  const MAX_INTEGER: int := 0x20_0000_0000_0000

  function Max(a: nat, b: nat): nat {
    if a < b then b else a
  }

  /** How many levels of nesting the parser enters below a value. An empty
      container costs no level, since nothing inside it is parsed. */
  function Depth(v: Value): nat
    decreases v, 1
  {
    match v
    case Array(xs) => DepthItems(xs)
    case Object(ms) => DepthMembers(ms)
    case _ => 0
  }

  function DepthItems(xs: seq<Value>): nat
    decreases xs, 0
  {
    if |xs| == 0 then 0 else Max(1 + Depth(xs[0]), DepthItems(xs[1..]))
  }

  function DepthMembers(ms: seq<Member>): nat
    decreases ms, 0
  {
    if |ms| == 0 then 0 else Max(1 + Depth(ms[0].value), DepthMembers(ms[1..]))
  }

  predicate HasKey(ms: seq<Member>, key: bytes) {
    exists i :: 0 <= i < |ms| && ms[i].key == key
  }

  /** `json_object_get_value`: the first slot with the name. */
  function Lookup(ms: seq<Member>, key: bytes): (r: Option<Value>)
    ensures r.Some? <==> HasKey(ms, key)
    ensures r.Some? ==> exists i :: 0 <= i < |ms| && ms[i] == Member(key, r.value)
  {
    if |ms| == 0 then None
    else if ms[0].key == key then Some(ms[0].value)
    else
      var r := Lookup(ms[1..], key);
      assert forall i | 1 <= i < |ms| :: ms[i] == ms[1..][i - 1];
      assert forall i | 0 <= i < |ms| - 1 :: ms[1..][i] == ms[i + 1];
      r
  }

  predicate DistinctKeys(ms: seq<Member>) {
    forall i, j | 0 <= i < j < |ms| :: ms[i].key != ms[j].key
  }

  /** Names are C strings, pairwise distinct in each object. */
  predicate WellFormed(v: Value) {
    match v
    case Number(n) => -MAX_INTEGER <= n <= MAX_INTEGER
    case Array(xs) => forall i | 0 <= i < |xs| :: WellFormed(xs[i])
    case Object(ms) =>
      && DistinctKeys(ms)
      && (forall i | 0 <= i < |ms| :: NUL !in ms[i].key)
      && (forall i | 0 <= i < |ms| :: WellFormed(ms[i].value))
    case _ => true
  }

  /** With distinct names the lookup by name is the slot itself. */
  lemma {:induction false} LookupSlot(ms: seq<Member>, i: nat)
    requires DistinctKeys(ms) && i < |ms|
    ensures Lookup(ms, ms[i].key) == Some(ms[i].value)
  {
    if i > 0 {
      LookupSlot(ms[1..], i - 1);
    }
  }

  lemma {:induction false} DepthItemsAt(xs: seq<Value>, i: nat)
    requires i < |xs|
    ensures 1 + Depth(xs[i]) <= DepthItems(xs)
  {
    if i > 0 {
      DepthItemsAt(xs[1..], i - 1);
    }
  }

  lemma {:induction false} DepthMembersAt(ms: seq<Member>, i: nat)
    requires i < |ms|
    ensures 1 + Depth(ms[i].value) <= DepthMembers(ms)
  {
    if i > 0 {
      DepthMembersAt(ms[1..], i - 1);
    }
  }

  lemma {:induction false} DepthItemsBound(xs: seq<Value>, bound: nat)
    requires forall i | 0 <= i < |xs| :: 1 + Depth(xs[i]) <= bound
    ensures DepthItems(xs) <= bound
  {
    if |xs| > 0 {
      DepthItemsBound(xs[1..], bound);
    }
  }

  lemma {:induction false} DepthMembersBound(ms: seq<Member>, bound: nat)
    requires forall i | 0 <= i < |ms| :: 1 + Depth(ms[i].value) <= bound
    ensures DepthMembers(ms) <= bound
  {
    if |ms| > 0 {
      DepthMembersBound(ms[1..], bound);
    }
  }
}
