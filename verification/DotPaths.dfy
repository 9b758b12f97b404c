/**
  Dotted names: `json_object_dotget_value`, `json_object_dotset_value` and
  `json_object_dotremove`. A name is cut at its dots into components, each of which
  is looked up in the object found so far.
 */
module DotPaths {
  import opened Bytes
  import opened JsonValues
  import opened ObjectStore
  import opened HeapForest
  import opened HeapCalls
  import opened HeapTrees
  import HeapTreeCalls
  import opened JsonHeap
  import opened JsonCopy

  // ----- Names and paths

  /** `strchr(name, '.')`. */
  function FirstDot(name: bytes): (r: Option<nat>)
    ensures r.Some? ==> r.value < |name| && name[r.value] == DOT && DOT !in name[..r.value]
    ensures r.None? ==> DOT !in name
  {
    FindByte(name, DOT)
  }

  /** The components between the dots; there is always at least one. */
  function Split(name: bytes): (path: seq<bytes>)
    ensures |path| > 0
    decreases |name|
  {
    match FirstDot(name)
    case None => [name]
    case Some(i) => [name[..i]] + Split(name[i + 1..])
  }

  /** The components are what stands between the dots: none holds a dot, and joining
      them with dots gives the name back. */
  lemma {:induction false} SplitParts(name: bytes)
    ensures Without(Split(name), DOT) && Join(Split(name), DOT) == name
    decreases |name|
  {
    hide FirstDot;
    var dot := FirstDot(name);
    if dot.Some? {
      var first, rest := name[..dot.value], name[dot.value + 1..];
      SplitParts(rest);
      assert Split(name)[1..] == Split(rest);
      assert name == first + [DOT] + rest;
    }
  }

  /** Every path of dot-free components is the split of its dotted name. */
  lemma {:induction false} SplitJoined(path: seq<bytes>)
    requires |path| > 0 && Without(path, DOT)
    ensures Split(Join(path, DOT)) == path
  {
    var name := Join(path, DOT);
    if |path| > 1 {
      var rest := Join(path[1..], DOT);
      FindByteAt(path[0], DOT, rest);
      assert name[..|path[0]|] == path[0] && name[|path[0]| + 1..] == rest;
      SplitJoined(path[1..]);
      assert path == [path[0]] + path[1..];
    }
  }

  /** `json_object_getn_value`, NULL for anything but an object. */
  function Member(h: Heap, o: Ptr, name: bytes): (r: Option<Ptr>)
    ensures r.Some? ==> IsObject(h, o) && r.value in KidsOf(h, o)
  {
    if IsObject(h, o) then
      var slots := h[o].body.slots;
      match IndexOf(slots, name)
      case None => None
      case Some(i) => assert Pointers(slots)[i] == slots[i].ptr; Some(slots[i].ptr)
    else None
  }

  /** What a path leads to. */
  function DotGet(h: Heap, o: Ptr, path: seq<bytes>): Option<Ptr>
    requires |path| > 0
    decreases |path|
  {
    match Member(h, o, path[0])
    case None => None
    case Some(c) => if |path| == 1 then Some(c) else DotGet(h, c, path[1..])
  }

  /** `json_object_dotget_value` on the name itself. */
  function DotGetValue(h: Heap, o: Option<Ptr>, name: bytes): Option<Ptr>
    decreases |name|
  {
    match FirstDot(name)
    case None => if o.None? then None else Member(h, o.value, name)
    case Some(i) => DotGetValue(h, if o.None? then None else Member(h, o.value, name[..i]), name[i + 1..])
  }

  lemma {:induction false} DotGetIsPath(h: Heap, o: Option<Ptr>, name: bytes)
    ensures DotGetValue(h, o, name) == if o.None? then None else DotGet(h, o.value, Split(name))
    decreases |name|
  {
    var dot := FirstDot(name);
    if dot.Some? {
      var first, rest := name[..dot.value], name[dot.value + 1..];
      assert Split(name)[1..] == Split(rest);
      DotGetIsPath(h, if o.None? then None else Member(h, o.value, first), rest);
    }
  }

  predicate IsPrefix(p: seq<bytes>, q: seq<bytes>) {
    |p| == 0 || (|q| > 0 && p[0] == q[0] && IsPrefix(p[1..], q[1..]))
  }

  /** Neither path extends the other. */
  predicate Unrelated(p: seq<bytes>, q: seq<bytes>) {
    !IsPrefix(p, q) && !IsPrefix(q, p)
  }

  lemma UnrelatedTails(name: bytes, rest: seq<bytes>, q: seq<bytes>)
    requires |rest| > 0 && |q| > 0 && q[0] == name && Unrelated([name] + rest, q)
    ensures |q| > 1 && Unrelated(rest, q[1..])
  {
    var path := [name] + rest;
    assert path[1..] == rest;
    assert IsPrefix(path, q) <==> IsPrefix(rest, q[1..]);
    assert IsPrefix(q, path) <==> IsPrefix(q[1..], rest);
  }

  /** The path can be set: as far as it exists, it leads through objects. */
  predicate Open(h: Heap, o: Ptr, path: seq<bytes>)
    requires |path| > 0
    decreases |path|
  {
    |path| == 1 ||
    match Member(h, o, path[0])
    case None => true
    case Some(c) => IsObject(h, c) && Open(h, c, path[1..])
  }

  // ----- Lookups that do not change

  lemma {:induction false} DotGetFrame(h: Heap, h': Heap, x: Ptr, path: seq<bytes>)
    requires Forest(h) && x in h && SameBodies(h, h', x) && |path| > 0
    ensures SameLookup(h, h', x, path)
    decreases |path|
  {
    InOwnSubtree(h, x);
    assert Member(h', x, path[0]) == Member(h, x, path[0]);
    var m := Member(h, x, path[0]);
    if m.Some? {
      KidSameBodies(h, h', x, m.value);
      assert m.value in h;
      if |path| > 1 {
        DotGetFrame(h, h', m.value, path[1..]);
      }
    }
  }

  lemma MemberLive(h: Heap, o: Ptr, name: bytes)
    requires Forest(h)
    ensures Member(h, o, name).Some? ==> Member(h, o, name).value in h
  {
    hide Member;
  }

  /** The path leads to the same place in both heaps, with the same contents. */
  ghost predicate SameLookup(h: Heap, h': Heap, o: Ptr, q: seq<bytes>)
    requires |q| > 0
  {
    DotGet(h', o, q) == DotGet(h, o, q) && (DotGet(h, o, q).Some? ==> SameBodies(h, h', DotGet(h, o, q).value))
  }

  /** A lookup is unchanged when its first step is, and what that step leads to is. */
  lemma DotGetVia(h: Heap, h': Heap, o: Ptr, q: seq<bytes>)
    requires Forest(h) && |q| > 0 && Member(h', o, q[0]) == Member(h, o, q[0])
    requires Member(h, o, q[0]).Some? ==> SameBodies(h, h', Member(h, o, q[0]).value)
    ensures SameLookup(h, h', o, q)
  {
    MemberLive(h, o, q[0]);
    hide Member;
    hide SameBodies;
    hide Forest;
    if Member(h, o, q[0]).Some? && |q| > 1 {
      DotGetFrame(h, h', Member(h, o, q[0]).value, q[1..]);
    }
  }

  /** Nodes outside the subtree of t, other than the given ones, are the same in h'. */
  ghost predicate Confined(h: Heap, h': Heap, t: Ptr, but: set<Ptr>) {
    forall n | n in h && n !in but && n !in Subtree(h, t) :: n in h' && h'[n] == h[n]
  }

  ghost predicate Roots(h: Heap, vs: set<Ptr>) {
    forall v | v in vs :: IsRoot(h, v)
  }

  /** A change confined to one item leaves the other items of the object alone. */
  lemma SiblingSame(h: Heap, h': Heap, o: Ptr, t: Ptr, but: set<Ptr>, d: Ptr)
    requires Forest(h) && o in h && t in KidsOf(h, o) && d in KidsOf(h, o) && d != t
    requires Roots(h, but) && Confined(h, h', t, but)
    ensures SameBodies(h, h', d)
  {
    forall m | m in Subtree(h, d) ensures m in h' && h'[m].body == h[m].body {
      SiblingsApart(h, o, t, d, m);
      if m in but {
        RootOutside(h, o, d, m);
      }
    }
  }

  /** A root is not inside an item of a container. */
  lemma RootOutside(h: Heap, o: Ptr, d: Ptr, v: Ptr)
    requires Forest(h) && o in h && d in KidsOf(h, o) && IsRoot(h, v)
    ensures v !in Subtree(h, d)
  {
    BelowParent(h, d, v);
  }

  // ----- Setting one name

  lemma {:induction false} IndexOfAppend(slots: seq<Slot>, slot: Slot, name: bytes)
    ensures IndexOf(slots + [slot], name) == match IndexOf(slots, name)
                                            case Some(i) => Some(i)
                                            case None => if slot.name == name then Some(|slots|) else None
  {
    if |slots| > 0 {
      assert (slots + [slot])[1..] == slots[1..] + [slot];
      IndexOfAppend(slots[1..], slot, name);
    } else {
      assert slots + [slot] == [slot] && [slot][1..] == [];
    }
  }

  lemma {:induction false} IndexOfUpdate(slots: seq<Slot>, i: nat, v: Ptr, name: bytes)
    requires i < |slots|
    ensures IndexOf(slots[i := Slot(slots[i].name, v)], name) == IndexOf(slots, name)
  {
    var t := slots[i := Slot(slots[i].name, v)];
    if i == 0 {
      assert t[1..] == slots[1..];
    } else {
      assert t[1..] == slots[1..][i - 1 := Slot(slots[i].name, v)];
      IndexOfUpdate(slots[1..], i - 1, v, name);
    }
  }

  /** After `json_object_set_value` the name leads to v and every other name leads
      where it did. */
  lemma SetMembers(h: Heap, o: Ptr, name: bytes, v: Ptr, other: bytes)
    requires Forest(h) && IsObject(h, o) && IsRoot(h, v) && !Below(h, v, o)
    ensures IsObject(Set(h, o, name, v), o)
    ensures Member(Set(h, o, name, v), o, name) == Some(v)
    ensures other != name ==> Member(Set(h, o, name, v), o, other) == Member(h, o, other)
  {
    var slots := h[o].body.slots;
    match IndexOf(slots, name)
    case None =>
      IndexOfAppend(slots, Slot(name, v), name);
      IndexOfAppend(slots, Slot(name, v), other);
    case Some(i) =>
      IndexOfUpdate(slots, i, v, name);
      IndexOfUpdate(slots, i, v, other);
  }

  /** Setting a name frees at most the subtree it replaces. */
  lemma SetConfined(h: Heap, o: Ptr, name: bytes, v: Ptr)
    requires Forest(h) && IsObject(h, o) && IsRoot(h, v) && !Below(h, v, o)
    ensures Confined(h, Set(h, o, name, v), o, {v})
    ensures Set(h, o, name, v)[o].parent == h[o].parent
  {
    InOwnSubtree(h, o);
    var slots := h[o].body.slots;
    var index := IndexOf(slots, name);
    if index.Some? {
      assert Pointers(slots)[index.value] == slots[index.value].ptr;
      SubtreeShrinks(h, o, slots[index.value].ptr);
    }
  }

  /** Other members keep their contents when a name is set. */
  lemma SetSiblings(h: Heap, o: Ptr, name: bytes, v: Ptr, d: Ptr)
    requires Forest(h) && IsObject(h, o) && IsRoot(h, v) && !Below(h, v, o)
    requires d in KidsOf(h, o) && Member(h, o, name) != Some(d)
    ensures SameBodies(h, Set(h, o, name, v), d)
  {
    var slots := h[o].body.slots;
    NotInsideKid(h, o, d);
    RootOutside(h, o, d, v);
    var index := IndexOf(slots, name);
    if index.Some? {
      var c := slots[index.value].ptr;
      assert Pointers(slots)[index.value] == c;
      forall m | m in Subtree(h, d) ensures m !in Subtree(h, c) {
        SiblingsApart(h, o, c, d, m);
      }
    }
  }

  /** The other lookups after setting a single name. */
  lemma SetLookups(h: Heap, o: Ptr, name: bytes, v: Ptr, q: seq<bytes>)
    requires Forest(h) && IsObject(h, o) && IsRoot(h, v) && !Below(h, v, o)
    requires |q| > 0 && q[0] != name
    ensures SameLookup(h, Set(h, o, name, v), o, q)
  {
    hide Set;
    hide Forest;
    hide SameBodies;
    hide Member;
    hide DotGet;
    SetMembers(h, o, name, v, q[0]);
    var m := Member(h, o, q[0]);
    if m.Some? {
      DifferentNames(h, o, name, q[0]);
      SetSiblings(h, o, name, v, m.value);
    }
    DotGetVia(h, Set(h, o, name, v), o, q);
  }

  /** Different names lead to different members. */
  lemma DifferentNames(h: Heap, o: Ptr, a: bytes, b: bytes)
    requires Forest(h) && a != b && Member(h, o, b).Some?
    ensures Member(h, o, a) != Member(h, o, b)
  {
    var slots := h[o].body.slots;
    assert BodyOk(h[o].body);
    var i := IndexOf(slots, b).value;
    if IndexOf(slots, a).Some? {
      var j := IndexOf(slots, a).value;
      assert Pointers(slots)[i] != Pointers(slots)[j];
    }
  }

  // ----- json_object_dotset_value

  /** What a successful set along a path promises about the lookups: the path leads
      to v with the contents it had, and unrelated paths are as they were. */
  ghost predicate SetAlong(h: Heap, h': Heap, o: Ptr, path: seq<bytes>, v: Ptr)
    requires |path| > 0
  {
    && IsObject(h', o)
    && DotGet(h', o, path) == Some(v) && SameBodies(h, h', v)
    && forall q | |q| > 0 && Unrelated(path, q) :: SameLookup(h, h', o, q)
  }

  /** The value set keeps its contents. */
  lemma SetContents(h: Heap, o: Ptr, name: bytes, v: Ptr)
    requires Forest(h) && IsObject(h, o) && IsRoot(h, v) && !Below(h, v, o)
    ensures SameBodies(h, Set(h, o, name, v), v)
  {
    var slots := h[o].body.slots;
    var index := IndexOf(slots, name);
    BelowSelf(h, v);
    if index.Some? {
      var c := slots[index.value].ptr;
      assert Pointers(slots)[index.value] == c;
      forall m | m in Subtree(h, v) ensures m !in Subtree(h, c) {
        RootApart(h, o, c, v, m);
      }
    }
  }

  lemma SetHere(h: Heap, o: Ptr, name: bytes, v: Ptr)
    requires Forest(h) && IsObject(h, o) && IsRoot(h, v) && !Below(h, v, o)
    ensures SetAlong(h, Set(h, o, name, v), o, [name], v)
  {
    SetMembers(h, o, name, v, name);
    SetContents(h, o, name, v);
    assert [name][1..] == [];
    forall q | |q| > 0 && Unrelated([name], q)
      ensures SameLookup(h, Set(h, o, name, v), o, q)
    {
      assert IsPrefix([name], q) <==> q[0] == name;
      SetLookups(h, o, name, v, q);
    }
  }

  /** A change confined to one member is invisible to paths through the others. */
  lemma OtherMembers(h: Heap, h': Heap, o: Ptr, name: bytes, t: Ptr, but: set<Ptr>, q: seq<bytes>)
    requires Forest(h) && IsObject(h, o) && Member(h, o, name) == Some(t) && Roots(h, but)
    requires Confined(h, h', t, but) && o in h' && h'[o].body == h[o].body
    requires |q| > 0 && q[0] != name
    ensures SameLookup(h, h', o, q)
  {
    assert Member(h', o, q[0]) == Member(h, o, q[0]);
    hide Forest;
    hide SameBodies;
    hide Confined;
    hide Member;
    hide DotGet;
    var m := Member(h, o, q[0]);
    if m.Some? {
      DifferentNames(h, o, name, q[0]);
      SiblingSame(h, h', o, t, but, m.value);
    }
    DotGetVia(h, h', o, q);
  }

  /** A change inside the member t leaves o itself alone. */
  lemma ContainerSame(h: Heap, h': Heap, o: Ptr, t: Ptr, but: set<Ptr>)
    requires Forest(h) && o in h && t in KidsOf(h, o) && o !in but && Confined(h, h', t, but)
    ensures o in h' && h'[o] == h[o] && Confined(h, h', o, but)
  {
    NotInsideKid(h, o, t);
    SubtreeShrinks(h, o, t);
  }

  /** A set inside the member t of o, seen from o. */
  lemma SetBelow(h: Heap, h': Heap, o: Ptr, name: bytes, t: Ptr, rest: seq<bytes>, v: Ptr)
    requires Forest(h) && IsObject(h, o) && Member(h, o, name) == Some(t)
    requires IsRoot(h, v) && v != o && |rest| > 0
    requires Confined(h, h', t, {v}) && SetAlong(h, h', t, rest, v)
    ensures SetAlong(h, h', o, [name] + rest, v) && h'[o] == h[o]
    ensures Confined(h, h', o, {v})
  {
    hide Forest;
    hide Confined;
    ContainerSame(h, h', o, t, {v});
    var path := [name] + rest;
    assert path[1..] == rest;
    assert Member(h', o, name) == Some(t);
    hide Member;
    forall q | |q| > 0 && Unrelated(path, q) ensures SameLookup(h, h', o, q) {
      if q[0] == name {
        UnrelatedTails(name, rest, q);
      } else {
        OtherMembers(h, h', o, name, t, {v}, q);
      }
    }
  }

  // The case in which a component is missing: a chain of new objects that ends in
  // v is built first and then given to o under the missing name.

  /** h2 keeps every node of h but v. */
  ghost predicate KeepsAllBut(h: Heap, h2: Heap, v: Ptr) {
    forall m | m in h && m != v :: m in h2 && h2[m] == h[m]
  }

  lemma NewcomerKeeps(h: Heap, h1: Heap, h2: Heap, n: Ptr, v: Ptr)
    requires Forest(h) && n !in h && Extends(h, h1) && Confined(h1, h2, n, {v})
    ensures KeepsAllBut(h, h2, v)
  {
    FreshSubtree(h, h1, n);
  }

  lemma {:induction false} UpSame(h: Heap, h2: Heap, v: Ptr, x: Ptr, k: nat)
    requires Forest(h) && KeepsAllBut(h, h2, v) && x in h && !Below(h, v, x)
    ensures Up(h2, x, k) == Up(h, x, k) && (Up(h, x, k).Some? ==> Up(h, x, k).value in h)
    decreases k
  {
    BelowParent(h, v, x);
    if k > 0 && h[x].parent.Some? {
      UpSame(h, h2, v, h[x].parent.value, k - 1);
    }
  }

  lemma NotInNewcomer(h: Heap, h2: Heap, v: Ptr, o: Ptr, n: Ptr)
    requires Forest(h) && KeepsAllBut(h, h2, v) && o in h && !Below(h, v, o) && n !in h
    ensures !Below(h2, n, o)
  {
    if Below(h2, n, o) {
      var k: nat :| Up(h2, o, k) == Some(n);
      UpSame(h, h2, v, o, k);
    }
  }

  /** The heap after o has received the chain n under a new name. */
  ghost predicate Received(h2: Heap, h3: Heap, o: Ptr, name: bytes, n: Ptr) {
    && IsObject(h2, o) && IndexOf(h2[o].body.slots, name) == None && IsRoot(h2, n)
    && h3 == Set(h2, o, name, n)
  }

  lemma ReceivedChange(h2: Heap, h3: Heap, o: Ptr, name: bytes, n: Ptr, x: Ptr)
    requires Received(h2, h3, o, name, n) && x in h2 && x != o && n != o
    ensures x in h3 && h3[x].body == h2[x].body && (x != n ==> h3[x] == h2[x])
  {
  }

  /** Nothing inside the chain changes when o receives it. */
  lemma ChainSame(h2: Heap, h3: Heap, o: Ptr, name: bytes, n: Ptr)
    requires Forest(h2) && Received(h2, h3, o, name, n) && !Below(h2, n, o)
    ensures SameBodies(h2, h3, n)
  {
    BelowSelf(h2, n);
    forall m | m in Subtree(h2, n) ensures m in h3 && h3[m].body == h2[m].body {
      ReceivedChange(h2, h3, o, name, n, m);
    }
  }

  /** The old members of o keep their contents. */
  lemma OldMemberSame(h: Heap, h2: Heap, h3: Heap, o: Ptr, name: bytes, n: Ptr, v: Ptr, d: Ptr)
    requires Forest(h) && o in h && d in KidsOf(h, o) && IsRoot(h, v)
    requires KeepsAllBut(h, h2, v) && n !in h && n != o && Received(h2, h3, o, name, n)
    ensures SameBodies(h, h3, d)
  {
    NotInsideKid(h, o, d);
    RootOutside(h, o, d, v);
    forall m | m in Subtree(h, d) ensures m in h3 && h3[m].body == h[m].body {
      ReceivedChange(h2, h3, o, name, n, m);
    }
  }

  lemma CreatedOthers(h: Heap, h2: Heap, h3: Heap, o: Ptr, name: bytes, n: Ptr, v: Ptr, q: seq<bytes>)
    requires Forest(h) && Forest(h2) && IsObject(h, o) && IsRoot(h, v) && !Below(h, v, o)
    requires KeepsAllBut(h, h2, v) && n !in h && o in h2 && h2[o] == h[o] && !Below(h2, n, o) && Received(h2, h3, o, name, n)
    requires |q| > 0 && q[0] != name
    ensures SameLookup(h, h3, o, q)
  {
    assert Member(h2, o, q[0]) == Member(h, o, q[0]);
    hide Forest;
    hide SameBodies;
    hide Member;
    hide KeepsAllBut;
    hide DotGet;
    SetMembers(h2, o, name, n, q[0]);
    BelowSelf(h2, n);
    var m := Member(h, o, q[0]);
    if m.Some? {
      OldMemberSame(h, h2, h3, o, name, n, v, m.value);
    }
    DotGetVia(h, h3, o, q);
  }

  lemma CreatedConfined(h: Heap, h2: Heap, h3: Heap, o: Ptr, name: bytes, n: Ptr, v: Ptr)
    requires o in h && n !in h && KeepsAllBut(h, h2, v) && Received(h2, h3, o, name, n) && h2[o] == h[o]
    ensures Confined(h, h3, o, {v}) && h3[o].parent == h[o].parent
  {
    InOwnSubtree(h, o);
    forall x | x in h && x != v && x !in Subtree(h, o) ensures x in h3 && h3[x] == h[x] {
      ReceivedChange(h2, h3, o, name, n, x);
    }
  }

  lemma EmptyLookup(h1: Heap, n: Ptr, q: seq<bytes>)
    requires n in h1 && h1[n].body == ObjectBody([]) && |q| > 0
    ensures DotGet(h1, n, q) == None
  {
  }

  lemma ReceivedParts(h2: Heap, h3: Heap, o: Ptr, name: bytes, n: Ptr)
    requires Received(h2, h3, o, name, n)
    ensures IsObject(h2, o) && IsRoot(h2, n) && h3 == Set(h2, o, name, n)
  {
  }

  /** The value set keeps its contents while the chain above it is built. */
  lemma CreatedContents(h: Heap, h1: Heap, h2: Heap, h3: Heap, o: Ptr, name: bytes, n: Ptr, v: Ptr)
    requires Forest(h) && Forest(h1) && Extends(h, h1) && IsRoot(h, v) && !Below(h, v, o) && o in h
    requires SameBodies(h1, h2, v) && n !in h && Received(h2, h3, o, name, n)
    ensures SameBodies(h, h3, v)
  {
    hide Forest;
    hide Received;
    ExtendsSubtree(h, h1, v);
    forall m | m in Subtree(h, v) ensures m in h3 && h3[m].body == h[m].body {
      ReceivedChange(h2, h3, o, name, n, m);
    }
  }

  lemma SetCreated(h: Heap, h1: Heap, h2: Heap, h3: Heap, o: Ptr, name: bytes, n: Ptr, rest: seq<bytes>, v: Ptr)
    requires Forest(h) && Forest(h2) && IsObject(h, o) && Member(h, o, name) == None
    requires IsRoot(h, v) && !Below(h, v, o) && |rest| > 0
    requires n !in h && n in h1 && h1[n].body == ObjectBody([]) && Forest(h1) && Extends(h, h1)
    requires KeepsAllBut(h, h2, v) && o in h2 && h2[o] == h[o] && !Below(h2, n, o)
    requires SetAlong(h1, h2, n, rest, v) && Received(h2, h3, o, name, n)
    ensures SetAlong(h, h3, o, [name] + rest, v)
  {
    hide Forest;
    hide SameBodies;
    hide Received;
    hide Member;
    hide Below;
    hide KeepsAllBut;
    hide Extends;
    var path := [name] + rest;
    assert path[1..] == rest;
    ReceivedParts(h2, h3, o, name, n);
    SetMembers(h2, o, name, n, name);
    ChainSame(h2, h3, o, name, n);
    CreatedContents(h, h1, h2, h3, o, name, n, v);
    DotGetFrame(h2, h3, n, rest);
    forall q | |q| > 0 && Unrelated(path, q) ensures SameLookup(h, h3, o, q) {
      if q[0] == name {
        UnrelatedTails(name, rest, q);
        DotGetFrame(h2, h3, n, q[1..]);
        EmptyLookup(h1, n, q[1..]);
      } else {
        CreatedOthers(h, h2, h3, o, name, n, v, q);
      }
    }
  }

  /** Undoing an unused new object restores the heap. */
  lemma FreedNewcomer(h: Heap, n: Ptr)
    requires Forest(h) && n !in h
    ensures Freed(h[n := Node(None, ObjectBody([]))], n) == h
  {
    var h1 := h[n := Node(None, ObjectBody([]))];
    FreshSubtree(h, h1, n);
    BelowSelf(h1, n);
    forall m | m in h ensures !Below(h1, n, m) {
      assert m !in Subtree(h1, n);
    }
  }

  /** `json_object_dotset_value`. It succeeds exactly when v has no parent and the
      path leads through objects as far as it exists; otherwise nothing changes. After
      a success the path leads to v and every unrelated path leads where it did, unless
      v was put beneath itself, which is exactly when the forest is lost. */
  method DotSet(s: Store, o: Ptr, name: bytes, v: Ptr) returns (ok: bool)
    requires s.Valid() && IsObject(s.nodes, o) && v in s.nodes
    modifies s
    ensures ok <==> IsRoot(old(s.nodes), v) && Open(old(s.nodes), o, Split(name))
    ensures !ok ==> s.nodes == old(s.nodes)
    ensures s.Valid() <==> !ok || !Below(old(s.nodes), v, o)
    ensures ok && s.Valid() ==> SetAlong(old(s.nodes), s.nodes, o, Split(name), v)
    ensures ok && s.Valid() ==> Confined(old(s.nodes), s.nodes, o, {v}) && s.nodes[o].parent == old(s.nodes)[o].parent
    decreases |name|, 0
  {
    hide HeapTreeCalls.MemberSet;
    hide HeapTreeCalls.Members;
    hide Tree;
    hide SetAlong;
    hide Confined;
    hide Forest;
    hide Open;
    hide Split;
    hide Member;
    hide Set;
    hide Freed;
    hide IndexOf;
    hide Below;
    ghost var h := s.nodes;
    OpenSteps(h, o, name);
    BelowSelf(h, v);
    var dot := FirstDot(name);
    if dot == None {
      if !IsRoot(h, v) {
        SetRefused(h, o, name, v);
      }
      ok := s.SetValue(o, name, v);
      if ok && !Below(h, v, o) {
        SetHere(h, o, name, v);
        SetConfined(h, o, name, v);
        SetAlongObject(h, s.nodes, o, [name], v);
      }
      return;
    }
    var first, rest := name[..dot.value], name[dot.value + 1..];
    var found := Member(s.nodes, o, first);
    if found.Some? {
      var t := found.value;
      if !IsObject(s.nodes, t) {
        return false;
      }
      StillBeneath(h, o, t, v);
      ok := DotSet(s, t, rest, v);
      if ok && !Below(h, v, o) {
        SetBelow(h, s.nodes, o, first, t, Split(rest), v);
        SetAlongObject(h, s.nodes, o, [first] + Split(rest), v);
      }
      return;
    }
    ok := DotSetNew(s, o, first, rest, v);
  }

  lemma SetRefused(h: Heap, o: Ptr, name: bytes, v: Ptr)
    requires !IsRoot(h, v)
    ensures Set(h, o, name, v) == h
  {
  }

  lemma SetAlongObject(h: Heap, h': Heap, o: Ptr, path: seq<bytes>, v: Ptr)
    requires |path| > 0 && SetAlong(h, h', o, path, v)
    ensures IsObject(h', o) && DotGet(h', o, path) == Some(v) && SameBodies(h, h', v)
  {
  }

  /** The end of `json_object_dotset_value`: the first component is missing, so a
      new object is filled and then added under it. */
  method DotSetNew(s: Store, o: Ptr, first: bytes, rest: bytes, v: Ptr) returns (ok: bool)
    requires s.Valid() && IsObject(s.nodes, o) && v in s.nodes
    requires Member(s.nodes, o, first) == None
    modifies s
    ensures ok <==> IsRoot(old(s.nodes), v)
    ensures !ok ==> s.nodes == old(s.nodes)
    ensures s.Valid() <==> !ok || !Below(old(s.nodes), v, o)
    ensures ok && s.Valid() ==> SetAlong(old(s.nodes), s.nodes, o, [first] + Split(rest), v)
    ensures ok && s.Valid() ==>
      IsObject(s.nodes, o) && Confined(old(s.nodes), s.nodes, o, {v}) && s.nodes[o].parent == old(s.nodes)[o].parent
    decreases |rest|, 1
  {
    hide HeapTreeCalls.MemberSet;
    hide HeapTreeCalls.Members;
    hide Tree;
    hide SetAlong;
    hide Confined;
    hide Forest;
    hide Open;
    hide Split;
    hide Member;
    hide Freed;
    hide IndexOf;
    hide Below;
    hide Add;
    hide Received;
    ghost var h := s.nodes;
    var n := s.Init(ObjectBody([]));
    ghost var h1 := s.nodes;
    RootsDiffer(h, h1, n, v);
    BelowSelf(h, v);
    ok := DotSet(s, n, rest, v);
    if !ok {
      FreedNewcomer(h, n);
      s.Free(n);
      return;
    }
    ghost var h2 := s.nodes;
    SetAlongObject(h1, h2, n, Split(rest), v);
    ReadyToAdd(h, h1, h2, o, first, n, v, Split(rest));
    var added := s.AddValue(o, first, n);
    if !Below(h, v, o) {
      ObjectReceives(h2, s.nodes, o, first, n);
      SetCreated(h, h1, h2, s.nodes, o, first, n, Split(rest), v);
      CreatedConfined(h, h2, s.nodes, o, first, n, v);
      SetAlongObject(h, s.nodes, o, [first] + Split(rest), v);
    }
  }

  lemma ObjectReceives(h2: Heap, h3: Heap, o: Ptr, name: bytes, n: Ptr)
    requires IsObject(h2, o) && IndexOf(h2[o].body.slots, name) == None && IsRoot(h2, n) && h3 == Add(h2, o, name, n)
    ensures Received(h2, h3, o, name, n)
  {
  }

  /** What a path leads to lies inside where it starts. */
  lemma {:induction false} DotGetInside(h: Heap, n: Ptr, path: seq<bytes>)
    requires Forest(h) && n in h && |path| > 0
    ensures DotGet(h, n, path).Some? ==> Below(h, n, DotGet(h, n, path).value)
    decreases |path|
  {
    hide Below;
    var m := Member(h, n, path[0]);
    if m.Some? {
      assert m.value in h && h[m.value].parent == Some(n);
      hide Forest;
      BelowSelf(h, n);
      BelowParent(h, n, m.value);
      if |path| > 1 {
        DotGetInside(h, m.value, path[1..]);
        if DotGet(h, m.value, path[1..]).Some? {
          BelowTrans(h, n, m.value, DotGet(h, m.value, path[1..]).value);
        }
      }
    }
  }

  /** The new chain n, which ends in v, is a root that o can receive; o is inside it
      exactly when it was inside v. */
  lemma ReadyToAdd(h: Heap, h1: Heap, h2: Heap, o: Ptr, name: bytes, n: Ptr, v: Ptr, rest: seq<bytes>)
    requires Forest(h) && n !in h && Extends(h, h1) && Confined(h1, h2, n, {v}) && SameBodies(h1, h2, v)
    requires IsObject(h, o) && Member(h, o, name) == None && IsRoot(h, v)
    requires Forest(h2) && n in h2 && |rest| > 0 && DotGet(h2, n, rest) == Some(v)
    ensures KeepsAllBut(h, h2, v) && IsObject(h2, o) && IndexOf(h2[o].body.slots, name) == None
    ensures Below(h2, n, o) <==> Below(h, v, o)
    ensures o != v ==> h2[o] == h[o]
  {
    hide Forest;
    hide DotGet;
    NewcomerKeeps(h, h1, h2, n, v);
    BelowSelf(h1, v);
    assert v in Subtree(h1, v);
    if Below(h, v, o) {
      var k: nat :| Up(h, o, k) == Some(v);
      PathSurvives(h, h2, o, v, k);
      DotGetInside(h2, n, rest);
      BelowTrans(h2, n, v, o);
    } else {
      NotInNewcomer(h, h2, v, o, n);
    }
  }

  /** A member of o is inside the root v exactly when o is. */
  lemma StillBeneath(h: Heap, o: Ptr, t: Ptr, v: Ptr)
    requires Forest(h) && o in h && t in KidsOf(h, o)
    ensures IsRoot(h, v) ==> (Below(h, v, t) <==> Below(h, v, o))
  {
    BelowParent(h, v, t);
  }

  lemma RootsDiffer(h: Heap, h1: Heap, n: Ptr, v: Ptr)
    requires n !in h && v in h && h1 == h[n := Node(None, ObjectBody([]))]
    ensures !Below(h1, v, n) && IsRoot(h1, v) == IsRoot(h, v) && Extends(h, h1)
    ensures forall path | |path| > 0 :: Open(h1, n, path)
  {
    BelowParent(h1, v, n);
  }

  /** The tests of one call of `json_object_dotset_value`. */
  lemma OpenSteps(h: Heap, o: Ptr, name: bytes)
    ensures FirstDot(name) == None ==> Split(name) == [name] && Open(h, o, Split(name))
    ensures FirstDot(name).Some? ==>
              var first, rest := name[..FirstDot(name).value], name[FirstDot(name).value + 1..];
              && Split(name) == [first] + Split(rest)
              && (Open(h, o, Split(name)) <==>
                    match Member(h, o, first)
                    case None => true
                    case Some(t) => IsObject(h, t) && Open(h, t, Split(rest)))
  {
    hide Member;
    if FirstDot(name).Some? {
      assert Split(name)[1..] == Split(name[FirstDot(name).value + 1..]);
    }
  }

  // ----- json_object_dotremove

  /** What a successful removal along a path promises about the lookups. */
  ghost predicate RemovedAlong(h: Heap, h': Heap, o: Ptr, path: seq<bytes>)
    requires |path| > 0
  {
    && DotGet(h', o, path) == None
    && forall q | |q| > 0 && Unrelated(path, q) :: SameLookup(h, h', o, q)
  }

  lemma {:induction false} IndexOfAt(slots: seq<Slot>, i: nat)
    requires Distinct(slots) && i < |slots|
    ensures IndexOf(slots, slots[i].name) == Some(i)
  {
    if i > 0 {
      IndexOfAt(slots[1..], i - 1);
    }
  }

  lemma RemoveMembers(h: Heap, o: Ptr, name: bytes, other: bytes)
    requires Forest(h) && IsObject(h, o) && Member(h, o, name).Some?
    ensures Member(RemoveMember(h, o, name), o, name) == None
    ensures other != name ==> Member(RemoveMember(h, o, name), o, other) == Member(h, o, other)
  {
    var slots := h[o].body.slots;
    assert BodyOk(h[o].body);
    var i, last := IndexOf(slots, name).value, |slots| - 1;
    var t := SwapRemove(slots, i);
    SwapRemoveIsDelete(slots, i);
    assert forall k | 0 <= k < last :: t[k] == if k == i then slots[last] else slots[k];
    if other != name && IndexOf(slots, other).Some? {
      var j := IndexOf(slots, other).value;
      IndexOfAt(t, if j == last then i else j);
    }
  }

  lemma RemoveSiblings(h: Heap, o: Ptr, name: bytes, d: Ptr)
    requires Forest(h) && IsObject(h, o) && Member(h, o, name).Some?
    requires d in KidsOf(h, o) && Member(h, o, name) != Some(d)
    ensures SameBodies(h, RemoveMember(h, o, name), d)
  {
    var slots := h[o].body.slots;
    NotInsideKid(h, o, d);
    var c := Member(h, o, name).value;
    forall m | m in Subtree(h, d) ensures m !in Subtree(h, c) {
      SiblingsApart(h, o, c, d, m);
    }
  }

  lemma RemoveHere(h: Heap, o: Ptr, name: bytes)
    requires Forest(h) && IsObject(h, o) && Member(h, o, name).Some?
    ensures RemovedAlong(h, RemoveMember(h, o, name), o, [name])
  {
    hide Member;
    hide RemoveMember;
    hide SameBodies;
    RemoveMembers(h, o, name, name);
    assert [name][1..] == [];
    forall q | |q| > 0 && Unrelated([name], q)
      ensures SameLookup(h, RemoveMember(h, o, name), o, q)
    {
      assert IsPrefix([name], q) <==> q[0] == name;
      RemoveMembers(h, o, name, q[0]);
      var m := Member(h, o, q[0]);
      if m.Some? {
        DifferentNames(h, o, name, q[0]);
        RemoveSiblings(h, o, name, m.value);
      }
      DotGetVia(h, RemoveMember(h, o, name), o, q);
    }
  }

  lemma RemoveInside(h: Heap, o: Ptr, name: bytes)
    requires Forest(h) && IsObject(h, o) && Member(h, o, name).Some?
    ensures Confined(h, RemoveMember(h, o, name), o, {})
  {
    InOwnSubtree(h, o);
    SubtreeShrinks(h, o, Member(h, o, name).value);
  }

  lemma SameMembers(h: Heap, h': Heap, o: Ptr)
    requires o in h && o in h' && h'[o].body == h[o].body
    ensures forall name :: Member(h', o, name) == Member(h, o, name)
  {
  }

  lemma RemoveBelow(h: Heap, h': Heap, o: Ptr, name: bytes, t: Ptr, rest: seq<bytes>)
    requires Forest(h) && IsObject(h, o) && Member(h, o, name) == Some(t) && |rest| > 0
    requires Confined(h, h', t, {}) && RemovedAlong(h, h', t, rest)
    ensures RemovedAlong(h, h', o, [name] + rest) && Confined(h, h', o, {})
  {
    hide Member;
    hide Forest;
    hide Confined;
    hide SameBodies;
    ContainerSame(h, h', o, t, {});
    SameMembers(h, h', o);
    var path := [name] + rest;
    assert path[1..] == rest;
    forall q | |q| > 0 && Unrelated(path, q) ensures SameLookup(h, h', o, q) {
      if q[0] == name {
        UnrelatedTails(name, rest, q);
      } else {
        OtherMembers(h, h', o, name, t, {}, q);
      }
    }
  }

  /** `json_object_dotremove` succeeds exactly when the path leads somewhere. Then
      it leads nowhere and unrelated paths lead where they did; otherwise nothing
      has changed. */
  method DotRemove(s: Store, o: Ptr, name: bytes) returns (ok: bool)
    requires s.Valid() && IsObject(s.nodes, o)
    modifies s
    ensures s.Valid()
    ensures ok <==> DotGet(old(s.nodes), o, Split(name)).Some?
    ensures !ok ==> s.nodes == old(s.nodes)
    ensures ok ==> RemovedAlong(old(s.nodes), s.nodes, o, Split(name))
    ensures ok ==> Confined(old(s.nodes), s.nodes, o, {})
    decreases |name|
  {
    hide Member;
    hide RemoveMember;
    hide IndexOf;
    hide DotGet;
    hide RemovedAlong;
    hide Confined;
    hide Forest;
    hide Split;
    hide HeapTreeCalls.MemberRemoved;
    hide HeapTreeCalls.Members;
    hide Tree;
    ghost var h := s.nodes;
    GetSteps(h, o, name);
    MemberIsFound(h, o, name);
    var dot := FirstDot(name);
    if dot == None {
      ok := s.RemoveValue(o, name);
      assert !ok ==> s.nodes == h by {
        RemoveRefused(h, o, name);
      }
      if ok {
        RemoveHere(h, o, name);
        RemoveInside(h, o, name);
      }
      return;
    }
    var first, rest := name[..dot.value], name[dot.value + 1..];
    var found := Member(s.nodes, o, first);
    if found == None || !IsObject(s.nodes, found.value) {
      return false;
    }
    ok := DotRemove(s, found.value, rest);
    if ok {
      RemoveBelow(h, s.nodes, o, first, found.value, Split(rest));
    }
  }

  lemma MemberIsFound(h: Heap, o: Ptr, name: bytes)
    requires IsObject(h, o)
    ensures Member(h, o, name).Some? <==> IndexOf(h[o].body.slots, name).Some?
  {
  }

  lemma RemoveRefused(h: Heap, o: Ptr, name: bytes)
    requires IsObject(h, o)
    ensures IndexOf(h[o].body.slots, name).None? ==> RemoveMember(h, o, name) == h
  {
  }

  lemma GetSteps(h: Heap, o: Ptr, name: bytes)
    ensures FirstDot(name) == None ==> Split(name) == [name] && DotGet(h, o, Split(name)) == Member(h, o, name)
    ensures FirstDot(name).Some? ==>
              var first, rest := name[..FirstDot(name).value], name[FirstDot(name).value + 1..];
              && Split(name) == [first] + Split(rest)
              && DotGet(h, o, Split(name)) ==
                   match Member(h, o, first)
                   case None => None
                   case Some(t) => if IsObject(h, t) then DotGet(h, t, Split(rest)) else None
  {
    if FirstDot(name).Some? {
      var rest := name[FirstDot(name).value + 1..];
      assert Split(name)[1..] == Split(rest);
      assert forall t :: !IsObject(h, t) ==> DotGet(h, t, Split(rest)) == None;
    }
  }

  // ----- Trees along unrelated paths

  lemma UnrelatedTree(h: Heap, h': Heap, o: Ptr, q: seq<bytes>)
    requires Forest(h) && Forest(h') && |q| > 0 && SameLookup(h, h', o, q) && DotGet(h, o, q).Some?
    ensures SameTree(h, DotGet(h, o, q).value, h', DotGet(h', o, q).value)
  {
    hide Forest;
    hide SameBodies;
    hide Member;
    DotGetLive(h, o, q);
    TreeFrame(h, h', DotGet(h, o, q).value);
  }

  lemma {:induction false} DotGetLive(h: Heap, o: Ptr, q: seq<bytes>)
    requires Forest(h) && |q| > 0
    ensures DotGet(h, o, q).Some? ==> DotGet(h, o, q).value in h
    decreases |q|
  {
    MemberLive(h, o, q[0]);
    if Member(h, o, q[0]).Some? && |q| > 1 {
      DotGetLive(h, Member(h, o, q[0]).value, q[1..]);
    }
  }

  /** After a set the value has the tree it had, and so has whatever an unrelated
      path leads to. */
  lemma SetKeepsTrees(h: Heap, h': Heap, o: Ptr, path: seq<bytes>, v: Ptr)
    requires Forest(h) && Forest(h') && v in h && |path| > 0 && SetAlong(h, h', o, path, v)
    ensures SameTree(h, v, h', v)
    ensures forall q | |q| > 0 && Unrelated(path, q) && DotGet(h, o, q).Some? ::
      DotGet(h', o, q).Some? && SameTree(h, DotGet(h, o, q).value, h', DotGet(h', o, q).value)
  {
    hide Forest;
    hide SameBodies;
    hide SameTree;
    assert SameTree(h, v, h', v) by {
      ValueTree(h, h', v);
    }
    forall q | |q| > 0 && Unrelated(path, q) && DotGet(h, o, q).Some?
      ensures DotGet(h', o, q).Some? && SameTree(h, DotGet(h, o, q).value, h', DotGet(h', o, q).value)
    {
      UnrelatedTree(h, h', o, q);
    }
  }

  lemma ValueTree(h: Heap, h': Heap, v: Ptr)
    requires Forest(h) && Forest(h') && v in h && SameBodies(h, h', v)
    ensures SameTree(h, v, h', v)
  {
    TreeFrame(h, h', v);
  }

  /** The same after a removal. */
  lemma RemoveKeepsTrees(h: Heap, h': Heap, o: Ptr, path: seq<bytes>)
    requires Forest(h) && Forest(h') && |path| > 0 && RemovedAlong(h, h', o, path)
    ensures forall q | |q| > 0 && Unrelated(path, q) && DotGet(h, o, q).Some? ::
      DotGet(h', o, q).Some? && SameTree(h, DotGet(h, o, q).value, h', DotGet(h', o, q).value)
  {
    hide Forest;
    hide SameBodies;
    hide SameTree;
    forall q | |q| > 0 && Unrelated(path, q) && DotGet(h, o, q).Some?
      ensures DotGet(h', o, q).Some? && SameTree(h, DotGet(h, o, q).value, h', DotGet(h', o, q).value)
    {
      UnrelatedTree(h, h', o, q);
    }
  }

  // ----- Dotted names

  /** Looking up the dotted name of a path follows the path. */
  lemma GetJoined(h: Heap, o: Ptr, path: seq<bytes>)
    requires |path| > 0 && Without(path, DOT)
    ensures DotGetValue(h, Some(o), Join(path, DOT)) == DotGet(h, o, path)
  {
    SplitJoined(path);
    DotGetIsPath(h, Some(o), Join(path, DOT));
  }

  /** Set and get on dotted names: after a set under the dotted name of a path the
      dotted name yields the value, and so does following the path component by
      component; the dotted name of every unrelated path yields what it did. */
  lemma SetJoined(h: Heap, h': Heap, o: Ptr, path: seq<bytes>, v: Ptr)
    requires |path| > 0 && Without(path, DOT) && SetAlong(h, h', o, Split(Join(path, DOT)), v)
    ensures DotGetValue(h', Some(o), Join(path, DOT)) == DotGet(h', o, path) == Some(v)
    ensures forall q | |q| > 0 && Without(q, DOT) && Unrelated(path, q) ::
      DotGetValue(h', Some(o), Join(q, DOT)) == DotGetValue(h, Some(o), Join(q, DOT)) == DotGet(h, o, q)
  {
    hide SameBodies;
    hide Member;
    SplitJoined(path);
    GetJoined(h', o, path);
    forall q | |q| > 0 && Without(q, DOT) && Unrelated(path, q)
      ensures DotGetValue(h', Some(o), Join(q, DOT)) == DotGetValue(h, Some(o), Join(q, DOT)) == DotGet(h, o, q)
    {
      assert SameLookup(h, h', o, q);
      GetJoined(h, o, q);
      GetJoined(h', o, q);
    }
  }

  /** The same for a removal. */
  lemma RemoveJoined(h: Heap, h': Heap, o: Ptr, path: seq<bytes>)
    requires |path| > 0 && Without(path, DOT) && RemovedAlong(h, h', o, Split(Join(path, DOT)))
    ensures DotGetValue(h', Some(o), Join(path, DOT)) == DotGet(h', o, path) == None
    ensures forall q | |q| > 0 && Without(q, DOT) && Unrelated(path, q) ::
      DotGetValue(h', Some(o), Join(q, DOT)) == DotGetValue(h, Some(o), Join(q, DOT)) == DotGet(h, o, q)
  {
    hide SameBodies;
    hide Member;
    SplitJoined(path);
    GetJoined(h', o, path);
    forall q | |q| > 0 && Without(q, DOT) && Unrelated(path, q)
      ensures DotGetValue(h', Some(o), Join(q, DOT)) == DotGetValue(h, Some(o), Join(q, DOT)) == DotGet(h, o, q)
    {
      assert SameLookup(h, h', o, q);
      GetJoined(h, o, q);
      GetJoined(h', o, q);
    }
  }
}
