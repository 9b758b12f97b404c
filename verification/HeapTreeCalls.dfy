/**
  What the calls that change the heap do to the tree of the container: which items
  and members it has afterwards, and in which order.
 */
module HeapTreeCalls {
  import opened Bytes
  import opened JsonValues
  import opened ObjectStore
  import opened HeapForest
  import opened HeapCalls
  import opened HeapTrees

  /** Outside p, and outside what was freed, every body is as it was. */
  ghost predicate Elsewhere(h: Heap, h': Heap, p: Ptr, freed: Option<Ptr>) {
    forall m | m in h && m != p && (freed.Some? ==> m !in Subtree(h, freed.value)) :: m in h' && h'[m].body == h[m].body
  }

  /** An item of p that was not freed keeps its tree. */
  lemma KidKeepsTree(h: Heap, h': Heap, p: Ptr, freed: Option<Ptr>, d: Ptr)
    requires Forest(h) && Forest(h') && Elsewhere(h, h', p, freed)
    requires p in h && d in KidsOf(h, p) && freed != Some(d) && (freed.Some? ==> freed.value in KidsOf(h, p))
    ensures d in h && d in h' && Tree(h', d) == Tree(h, d)
  {
    NotInsideKid(h, p, d);
    if freed.Some? {
      forall m | m in Subtree(h, d) ensures m !in Subtree(h, freed.value) {
        SiblingsApart(h, p, freed.value, d, m);
      }
    }
    TreeFrame(h, h', d);
  }

  /** So does a root that p is not inside. */
  lemma RootKeepsTree(h: Heap, h': Heap, p: Ptr, freed: Option<Ptr>, v: Ptr)
    requires Forest(h) && Forest(h') && Elsewhere(h, h', p, freed)
    requires p in h && IsRoot(h, v) && !Below(h, v, p) && (freed.Some? ==> freed.value in KidsOf(h, p))
    ensures v in h' && Tree(h', v) == Tree(h, v)
  {
    if freed.Some? {
      forall m | m in Subtree(h, v) ensures m !in Subtree(h, freed.value) {
        RootApart(h, p, freed.value, v, m);
      }
    }
    TreeFrame(h, h', v);
  }

  // ----- Trees of containers, item by item

  /** The items of an array, as trees. */
  ghost function Items(h: Heap, a: Ptr): (xs: seq<Value>)
    requires Forest(h) && IsArray(h, a)
    ensures Tree(h, a) == Array(xs) && |xs| == |h[a].body.items|
  {
    Tree(h, a).items
  }

  /** The members of an object, as trees. */
  ghost function Members(h: Heap, o: Ptr): (ms: seq<Member>)
    requires Forest(h) && IsObject(h, o)
    ensures Tree(h, o) == Object(ms) && |ms| == |h[o].body.slots|
  {
    Tree(h, o).members
  }

  lemma ItemsOf(h: Heap, a: Ptr)
    requires Forest(h) && IsArray(h, a)
    ensures var items := h[a].body.items;
      forall j | 0 <= j < |items| :: items[j] in h && Items(h, a)[j] == Tree(h, items[j])
  {
    var items := h[a].body.items;
    forall j | 0 <= j < |items| ensures items[j] in h && Items(h, a)[j] == Tree(h, items[j]) {
      TreeItemsAt(h, a, items, j);
    }
  }

  lemma MembersOf(h: Heap, o: Ptr)
    requires Forest(h) && IsObject(h, o)
    ensures var slots := h[o].body.slots;
      forall j | 0 <= j < |slots| :: slots[j].ptr in h && Members(h, o)[j] == Member(slots[j].name, Tree(h, slots[j].ptr))
  {
    var slots := h[o].body.slots;
    PointersOf(slots);
    forall j | 0 <= j < |slots|
      ensures slots[j].ptr in h && Members(h, o)[j] == Member(slots[j].name, Tree(h, slots[j].ptr))
    {
      TreeMembersAt(h, o, slots, j);
    }
  }

  // ----- Arrays

  /** `json_array_append_value` adds the tree of the value at the end. */
  lemma AppendTree(h: Heap, a: Ptr, v: Ptr)
    requires Forest(h) && IsArray(h, a) && IsRoot(h, v) && !Below(h, v, a)
    ensures var h' := Append(h, a, v);
      Forest(h') && IsArray(h', a) && Items(h', a) == Items(h, a) + [Tree(h, v)]
  {
    hide Forest;
    hide Tree;
    hide Items;
    var h', items := Append(h, a, v), h[a].body.items;
    AppendExactly(h, a, v);
    BelowSelf(h, v);
    assert Elsewhere(h, h', a, None);
    ItemsOf(h, a);
    ItemsOf(h', a);
    RootKeepsTree(h, h', a, None, v);
    forall j | 0 <= j < |items| ensures Items(h', a)[j] == Items(h, a)[j] {
      KidKeepsTree(h, h', a, None, items[j]);
    }
    assert Items(h', a) == Items(h, a) + [Tree(h, v)];
  }

  lemma ItemsDiffer(h: Heap, a: Ptr, i: nat, j: nat)
    requires Forest(h) && a in h && i < |KidsOf(h, a)| && j < |KidsOf(h, a)| && i != j
    ensures KidsOf(h, a)[i] != KidsOf(h, a)[j]
  {
    assert BodyOk(h[a].body);
  }

  lemma ExchangeElsewhere(h: Heap, p: Ptr, c: Ptr, v: Ptr, body: Body)
    requires Forest(h) && p in h && v in h && v != p && c in KidsOf(h, p) && IsRoot(h, v)
    ensures Elsewhere(h, Exchange(h, p, c, v, body), p, Some(c))
    ensures p in Exchange(h, p, c, v, body) && Exchange(h, p, c, v, body)[p].body == body
  {
  }

  /** `json_array_replace_value` puts the tree of the value at the index. */
  lemma ReplaceTree(h: Heap, a: Ptr, i: nat, v: Ptr)
    requires Forest(h) && IsArray(h, a) && i < |h[a].body.items| && IsRoot(h, v) && !Below(h, v, a)
    ensures var h' := Replace(h, a, i, v);
      Forest(h') && IsArray(h', a) && Items(h', a) == Items(h, a)[i := Tree(h, v)]
  {
    hide Forest;
    hide Tree;
    hide Items;
    var h', items := Replace(h, a, i, v), h[a].body.items;
    ReplaceExactly(h, a, i, v);
    BelowSelf(h, v);
    ExchangeElsewhere(h, a, items[i], v, ArrayBody(items[i := v]));
    ItemsOf(h, a);
    ItemsOf(h', a);
    RootKeepsTree(h, h', a, Some(items[i]), v);
    forall j | 0 <= j < |items| && j != i ensures Items(h', a)[j] == Items(h, a)[j] {
      ItemsDiffer(h, a, i, j);
      KidKeepsTree(h, h', a, Some(items[i]), items[j]);
    }
    assert Items(h', a) == Items(h, a)[i := Tree(h, v)];
  }

  /** Where the item that ends up at index k was, when index i is taken out. */
  function Past(k: nat, i: nat): nat {
    if k < i then k else k + 1
  }

  lemma GapClosed<T>(xs: seq<T>, i: nat, ys: seq<T>)
    requires i < |xs| && |ys| == |xs| - 1
    requires forall k | 0 <= k < |ys| :: ys[k] == xs[Past(k, i)]
    ensures ys == xs[..i] + xs[i + 1..]
  {
    var zs := xs[..i] + xs[i + 1..];
    assert forall k | 0 <= k < |ys| :: zs[k] == xs[Past(k, i)];
  }

  /** `json_array_remove` closes the gap: the items behind move up by one. */
  lemma RemoveTree(h: Heap, a: Ptr, i: nat)
    requires Forest(h) && IsArray(h, a) && i < |h[a].body.items|
    ensures var h' := RemoveItem(h, a, i);
      Forest(h') && IsArray(h', a) && Items(h', a) == Items(h, a)[..i] + Items(h, a)[i + 1..]
  {
    hide Forest;
    hide Tree;
    hide Items;
    var h', items := RemoveItem(h, a, i), h[a].body.items;
    RemoveItemKeepsForest(h, a, i);
    assert Elsewhere(h, h', a, Some(items[i]));
    ItemsOf(h, a);
    ItemsOf(h', a);
    forall k | 0 <= k < |items| - 1 ensures Items(h', a)[k] == Items(h, a)[Past(k, i)] {
      assert h'[a].body.items[k] == items[Past(k, i)];
      ItemsDiffer(h, a, i, Past(k, i));
      KidKeepsTree(h, h', a, Some(items[i]), items[Past(k, i)]);
    }
    GapClosed(Items(h, a), i, Items(h', a));
  }

  // ----- Objects

  /** A member with the name is overwritten in its place, or one is added at the end. */
  ghost predicate MemberSet(ms: seq<Member>, ms': seq<Member>, name: bytes, v: Value) {
    && (forall i | 0 <= i < |ms| && ms[i].key == name :: ms' == ms[i := Member(name, v)])
    && (!HasKey(ms, name) ==> ms' == ms + [Member(name, v)])
  }

  /** The last member has moved into the gap, if there was a member with the name. */
  ghost predicate MemberRemoved(ms: seq<Member>, ms': seq<Member>, name: bytes) {
    && (forall i | 0 <= i < |ms| && ms[i].key == name :: ms' == ms[i := ms[|ms| - 1]][..|ms| - 1])
    && (!HasKey(ms, name) ==> ms' == ms)
  }

  /** `json_object_set_value`. */
  lemma SetTree(h: Heap, o: Ptr, name: bytes, v: Ptr)
    requires Forest(h) && IsObject(h, o) && IsRoot(h, v) && !Below(h, v, o)
    ensures var h' := Set(h, o, name, v);
      Forest(h') && IsObject(h', o) && MemberSet(Members(h, o), Members(h', o), name, Tree(h, v))
  {
    hide Forest;
    hide Tree;
    hide Members;
    var h', slots := Set(h, o, name, v), h[o].body.slots;
    var index := IndexOf(slots, name);
    SetExactly(h, o, name, v);
    BelowSelf(h, v);
    MembersOf(h, o);
    if index.Some? {
      var i := index.value;
      assert Pointers(slots)[i] == slots[i].ptr;
      ExchangeElsewhere(h, o, slots[i].ptr, v, ObjectBody(slots[i := Slot(name, v)]));
      MembersOf(h', o);
      RootKeepsTree(h, h', o, Some(slots[i].ptr), v);
      forall j | 0 <= j < |slots| && j != i ensures slots[j].name != name && Members(h', o)[j] == Members(h, o)[j] {
        SlotsDiffer(h, o, i, j);
        KidKeepsTree(h, h', o, Some(slots[i].ptr), slots[j].ptr);
      }
      assert Members(h', o) == Members(h, o)[i := Member(name, Tree(h, v))];
      assert Members(h, o)[i].key == name;
    } else {
      assert Elsewhere(h, h', o, None);
      MembersOf(h', o);
      RootKeepsTree(h, h', o, None, v);
      forall j | 0 <= j < |slots| ensures Members(h', o)[j] == Members(h, o)[j] {
        assert Pointers(slots)[j] == slots[j].ptr;
        KidKeepsTree(h, h', o, None, slots[j].ptr);
      }
      assert Members(h', o) == Members(h, o) + [Member(name, Tree(h, v))];
    }
  }

  lemma SlotsDiffer(h: Heap, o: Ptr, i: nat, j: nat)
    requires Forest(h) && IsObject(h, o) && i < |h[o].body.slots| && j < |h[o].body.slots| && i != j
    ensures h[o].body.slots[i].name != h[o].body.slots[j].name
    ensures h[o].body.slots[i].ptr != h[o].body.slots[j].ptr && h[o].body.slots[j].ptr in KidsOf(h, o)
  {
    assert BodyOk(h[o].body);
    assert Pointers(h[o].body.slots)[i] != Pointers(h[o].body.slots)[j];
  }

  /** `json_object_remove`. */
  lemma RemoveMemberTree(h: Heap, o: Ptr, name: bytes)
    requires Forest(h) && IsObject(h, o)
    ensures var h' := RemoveMember(h, o, name);
      Forest(h') && IsObject(h', o) && MemberRemoved(Members(h, o), Members(h', o), name)
  {
    hide Forest;
    hide Tree;
    hide Members;
    var h', slots, ms := RemoveMember(h, o, name), h[o].body.slots, Members(h, o);
    var index := IndexOf(slots, name);
    RemoveMemberKeepsForest(h, o, name);
    MembersOf(h, o);
    if index.Some? {
      RemovedMembers(h, o, name, index.value);
      forall i | 0 <= i < |ms| && ms[i].key == name ensures i == index.value {
        if i != index.value {
          SlotsDiffer(h, o, index.value, i);
        }
      }
    }
  }

  lemma RemovedMembers(h: Heap, o: Ptr, name: bytes, i: nat)
    requires Forest(h) && IsObject(h, o) && IndexOf(h[o].body.slots, name) == Some(i)
    ensures var h', ms := RemoveMember(h, o, name), Members(h, o);
      Forest(h') && IsObject(h', o) && Members(h', o) == ms[i := ms[|ms| - 1]][..|ms| - 1]
  {
    hide Forest;
    hide Tree;
    hide Members;
    hide IndexOf;
    var h', slots, ms := RemoveMember(h, o, name), h[o].body.slots, Members(h, o);
    var last := |slots| - 1;
    RemoveMemberKeepsForest(h, o, name);
    assert Pointers(slots)[i] == slots[i].ptr;
    assert Elsewhere(h, h', o, Some(slots[i].ptr));
    MembersOf(h, o);
    MembersOf(h', o);
    SwapRemoveAt(slots, i);
    forall k | 0 <= k < last ensures Members(h', o)[k] == ms[i := ms[last]][..last][k] {
      var j := if k == i then last else k;
      SlotsDiffer(h, o, i, j);
      KidKeepsTree(h, h', o, Some(slots[i].ptr), slots[j].ptr);
    }
  }

  /** The last slot moves into the gap, the others stay. */
  lemma SwapRemoveAt(slots: seq<Slot>, i: nat)
    requires i < |slots|
    ensures |SwapRemove(slots, i)| == |slots| - 1
    ensures forall k | 0 <= k < |slots| - 1 :: SwapRemove(slots, i)[k] == slots[if k == i then |slots| - 1 else k]
  {
  }
}
