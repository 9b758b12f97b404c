/** `json_value_equals` decides equality of trees whose objects are unordered. */
module JsonEquality {
  import opened Bytes
  import opened JsonValues

  /** A tree in which an object is a finite map, so that order has no meaning. */
  datatype Unordered =
    | UNull
    | UBool(b: bool)
    | UNumber(n: int)
    | UString(s: bytes)
    | UArray(items: seq<Unordered>)
    | UObject(members: map<bytes, Unordered>)

  function Forget(v: Value): Unordered
    decreases v
  {
    match v
    case Null => UNull
    case Bool(b) => UBool(b)
    case Number(n) => UNumber(n)
    case String(s) => UString(s)
    case Array(xs) => UArray(ForgetItems(xs))
    case Object(ms) => UObject(ForgetMembers(ms))
  }

  function ForgetItems(xs: seq<Value>): (us: seq<Unordered>)
    ensures |us| == |xs|
    decreases xs
  {
    if |xs| == 0 then [] else [Forget(xs[0])] + ForgetItems(xs[1..])
  }

  function ForgetMembers(ms: seq<Member>): map<bytes, Unordered>
    decreases ms
  {
    if |ms| == 0 then map[] else ForgetMembers(ms[1..])[ms[0].key := Forget(ms[0].value)]
  }

  lemma {:induction false} ForgetItemsAt(xs: seq<Value>, i: nat)
    requires i < |xs|
    ensures ForgetItems(xs)[i] == Forget(xs[i])
  {
    if i > 0 {
      ForgetItemsAt(xs[1..], i - 1);
    }
  }

  /** The map of an object is its lookup function. */
  lemma {:induction false} ForgetLookup(ms: seq<Member>, key: bytes)
    ensures key in ForgetMembers(ms) <==> Lookup(ms, key).Some?
    ensures Lookup(ms, key).Some? ==> ForgetMembers(ms)[key] == Forget(Lookup(ms, key).value)
  {
    if |ms| > 0 && ms[0].key != key {
      ForgetLookup(ms[1..], key);
    }
  }

  lemma {:induction false} ForgetSize(ms: seq<Member>)
    requires DistinctKeys(ms)
    ensures |ForgetMembers(ms).Keys| == |ms|
  {
    if |ms| > 0 {
      ForgetSize(ms[1..]);
      ForgetLookup(ms[1..], ms[0].key);
      assert ForgetMembers(ms).Keys == ForgetMembers(ms[1..]).Keys + {ms[0].key};
      assert !HasKey(ms[1..], ms[0].key);
    }
  }

  lemma {:induction false} SameSize<T>(a: set<T>, b: set<T>)
    requires a <= b && |a| == |b|
    ensures a == b
  {
    assert b == a + (b - a);
    assert |b| == |a| + |b - a|;
  }

  /** Walking the first object's names is enough when the sizes agree. */
  lemma ObjectsAgree(ms: seq<Member>, ns: seq<Member>)
    requires DistinctKeys(ms) && DistinctKeys(ns) && |ms| == |ns|
    requires forall i | 0 <= i < |ms| :: ForgetOption(Lookup(ms, ms[i].key)) == ForgetOption(Lookup(ns, ms[i].key))
    ensures ForgetMembers(ms) == ForgetMembers(ns)
  {
    var a, b := ForgetMembers(ms), ForgetMembers(ns);
    forall key | key in a
      ensures key in b && a[key] == b[key]
    {
      ForgetLookup(ms, key);
      ForgetLookup(ns, key);
      var i :| 0 <= i < |ms| && ms[i].key == key;
    }
    ForgetSize(ms);
    ForgetSize(ns);
    SameSize(a.Keys, b.Keys);
  }

  lemma ObjectsDiffer(ms: seq<Member>, ns: seq<Member>, key: bytes)
    requires ForgetOption(Lookup(ms, key)) != ForgetOption(Lookup(ns, key))
    ensures ForgetMembers(ms) != ForgetMembers(ns)
  {
    ForgetLookup(ms, key);
    ForgetLookup(ns, key);
  }

  function ForgetOption(v: Option<Value>): Option<Unordered> {
    match v
    case None => None
    case Some(w) => Some(Forget(w))
  }

  /** `fabs(a - b) < 0.000001`. */
  predicate NumbersEqual(a: int, b: int) {
    (if a < b then b - a else a - b) as real < 0.000001
  }

  ghost predicate WellFormedOption(v: Option<Value>) {
    v.Some? ==> WellFormed(v.value)
  }

  /** `json_value_equals`; None is the NULL a failed lookup returns. The result is
      equality of the unordered trees, so it is an equivalence although only the
      names of the first object are walked. */
  method ValueEquals(a: Option<Value>, b: Option<Value>) returns (equal: bool)
    requires WellFormedOption(a) && WellFormedOption(b)
    ensures equal <==> ForgetOption(a) == ForgetOption(b)
    decreases if a.Some? then a.value else Null
  {
    if a.None? || b.None? {
      return a.None? && b.None?;
    }
    match (a.value, b.value)
    case (Array(xs), Array(ys)) => equal := ItemsEqual(xs, ys);
    case (Object(ms), Object(ns)) => equal := MembersEqual(ms, ns);
    case (String(s), String(t)) => equal := |s| == |t| && s == t;
    case (Bool(s), Bool(t)) => equal := s == t;
    case (Number(s), Number(t)) => equal := NumbersEqual(s, t);
    case (Null, Null) => equal := true;
    case _ => equal := false;
  }

  method ItemsEqual(xs: seq<Value>, ys: seq<Value>) returns (equal: bool)
    requires WellFormed(Array(xs)) && WellFormed(Array(ys))
    ensures equal <==> ForgetItems(xs) == ForgetItems(ys)
    decreases xs
  {
    if |xs| != |ys| {
      return false;
    }
    for i := 0 to |xs|
      invariant forall j | 0 <= j < i :: ForgetItems(xs)[j] == ForgetItems(ys)[j]
    {
      ForgetItemsAt(xs, i);
      ForgetItemsAt(ys, i);
      var same := ValueEquals(Some(xs[i]), Some(ys[i]));
      if !same {
        return false;
      }
    }
    return true;
  }

  method MembersEqual(ms: seq<Member>, ns: seq<Member>) returns (equal: bool)
    requires WellFormed(Object(ms)) && WellFormed(Object(ns))
    ensures equal <==> ForgetMembers(ms) == ForgetMembers(ns)
    decreases ms
  {
    hide ForgetMembers;
    hide Forget;
    hide Lookup;
    hide HasKey;
    if |ms| != |ns| {
      ForgetSize(ms);
      ForgetSize(ns);
      return false;
    }
    for i := 0 to |ms|
      invariant forall j | 0 <= j < i :: ForgetOption(Lookup(ms, ms[j].key)) == ForgetOption(Lookup(ns, ms[j].key))
    {
      var key := ms[i].key;
      LookupSlot(ms, i);
      LookupWellFormed(ns, key);
      var same := ValueEquals(Lookup(ms, key), Lookup(ns, key));
      if !same {
        ObjectsDiffer(ms, ns, key);
        return false;
      }
    }
    ObjectsAgree(ms, ns);
    return true;
  }

  lemma LookupWellFormed(ms: seq<Member>, key: bytes)
    requires WellFormed(Object(ms))
    ensures WellFormedOption(Lookup(ms, key))
  {
    if Lookup(ms, key).Some? {
      var i :| 0 <= i < |ms| && ms[i] == Member(key, Lookup(ms, key).value);
      assert WellFormed(ms[i].value);
    }
  }

  /** Reordering the members of an object is invisible to the comparison. */
  lemma OrderIsForgotten(ms: seq<Member>, ns: seq<Member>)
    requires DistinctKeys(ms) && DistinctKeys(ns) && multiset(ms) == multiset(ns)
    ensures Forget(Object(ms)) == Forget(Object(ns))
  {
    assert |ms| == |multiset(ms)| == |multiset(ns)| == |ns|;
    forall i | 0 <= i < |ms|
      ensures ForgetOption(Lookup(ms, ms[i].key)) == ForgetOption(Lookup(ns, ms[i].key))
    {
      LookupSlot(ms, i);
      assert ms[i] in multiset(ns);
      var j :| 0 <= j < |ns| && ns[j] == ms[i];
      LookupSlot(ns, j);
    }
    ObjectsAgree(ms, ns);
  }
}
