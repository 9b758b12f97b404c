/**
  The heap of JSON values as an object whose methods are the calls of parson.
  `nodes` holds the live values, `next` is a pointer the allocator has not handed
  out; allocation succeeds.
 */
module JsonHeap {
  import opened Bytes
  import opened ObjectStore
  import opened HeapForest
  import opened HeapCalls
  import opened HeapTrees
  import opened HeapTreeCalls

  class Store {
    var nodes: Heap
    var next: Ptr

    ghost predicate Valid()
      reads this
    {
      Forest(nodes) && forall p | p in nodes :: p < next
    }

    constructor ()
      ensures Valid() && nodes == map[]
    {
      nodes, next := map[], 0;
      new;
      assert Leveled(nodes, _ => 0);
    }

    /** `json_value_init_*`. */
    method Init(body: Body) returns (r: Ptr)
      requires Valid() && BodyOk(body) && Kids(body) == []
      modifies this
      ensures Valid()
      ensures r == old(next) && r !in old(nodes) && nodes == old(nodes)[r := Node(None, body)]
    {
      r := next;
      NewRootKeepsForest(nodes, r, body);
      nodes := nodes[r := Node(None, body)];
      next := next + 1;
    }

    /** The recursion of `json_value_free`: h is the forest the freeing started
        from, of which the nodes still live are a part. */
    method FreeNode(v: Ptr, ghost h: Heap)
      requires Forest(h) && v in h
      requires Extends(nodes, h) && Subtree(h, v) <= nodes.Keys
      modifies this`nodes
      ensures nodes == old(nodes) - Subtree(h, v)
      decreases Subtree(h, v)
    {
      InOwnSubtree(h, v);
      var kids := Kids(nodes[v].body);
      hide Subtree;
      hide Forest;
      for i := 0 to |kids|
        invariant nodes == old(nodes) - Inside(h, kids[..i])
      {
        SubtreeShrinks(h, v, kids[i]);
        KidsApart(h, v, i);
        FreeNode(kids[i], h);
        InsideNext(h, kids, i);
      }
      nodes := nodes - {v};
      InsideAll(h, v);
      assert kids[..|kids|] == kids;
    }

    /** `json_value_free` of a value in a forest frees the value and everything
        inside it, each node once, and nothing else. */
    method Free(v: Ptr)
      requires Forest(nodes) && v in nodes
      modifies this`nodes
      ensures nodes == Freed(old(nodes), v)
    {
      FreeNode(v, nodes);
    }

    /** `json_array_append_value`. */
    method AppendValue(a: Ptr, v: Ptr) returns (ok: bool)
      requires Valid() && IsArray(nodes, a) && v in nodes
      modifies this`nodes
      ensures ok <==> IsRoot(old(nodes), v)
      ensures nodes == Append(old(nodes), a, v)
      ensures Valid() <==> NotBeneath(old(nodes), v, a)
      ensures ok && Valid() ==> IsArray(nodes, a) && Items(nodes, a) == Items(old(nodes), a) + [Tree(old(nodes), v)]
    {
      hide Forest;
      hide Items;
      hide Tree;
      if nodes[v].parent != None {
        return false;
      }
      AppendExactly(nodes, a, v);
      if NotBeneath(nodes, v, a) {
        AppendTree(nodes, a, v);
      }
      nodes := nodes[v := Node(Some(a), nodes[v].body)];
      nodes := nodes[a := Node(nodes[a].parent, ArrayBody(nodes[a].body.items + [v]))];
      ok := true;
    }

    /** `json_array_replace_value`. */
    method ReplaceValue(a: Ptr, i: nat, v: Ptr) returns (ok: bool)
      requires Valid() && IsArray(nodes, a) && v in nodes
      modifies this`nodes
      ensures ok <==> IsRoot(old(nodes), v) && i < |old(nodes)[a].body.items|
      ensures nodes == Replace(old(nodes), a, i, v)
      ensures Valid() <==> !ok || NotBeneath(old(nodes), v, a)
      ensures ok && Valid() ==> IsArray(nodes, a) && Items(nodes, a) == Items(old(nodes), a)[i := Tree(old(nodes), v)]
    {
      hide Forest;
      hide BodyOk;
      hide Items;
      hide Tree;
      if nodes[v].parent != None || i >= |nodes[a].body.items| {
        return false;
      }
      ghost var h := nodes;
      ReplaceExactly(h, a, i, v);
      if NotBeneath(h, v, a) {
        ReplaceTree(h, a, i, v);
      }
      var item := nodes[a].body.items[i];
      SurvivesFree(nodes, a, item, v);
      Free(item);
      nodes := nodes[v := Node(Some(a), nodes[v].body)];
      nodes := nodes[a := Node(nodes[a].parent, ArrayBody(nodes[a].body.items[i := v]))];
      assert nodes == Replace(h, a, i, v);
      ok := true;
    }

    /** `json_array_remove`. */
    method RemoveItemAt(a: Ptr, i: nat) returns (ok: bool)
      requires Valid() && IsArray(nodes, a)
      modifies this`nodes
      ensures Valid()
      ensures ok <==> i < |old(nodes)[a].body.items|
      ensures nodes == RemoveItem(old(nodes), a, i)
      ensures ok ==> IsArray(nodes, a) && Items(nodes, a) == Items(old(nodes), a)[..i] + Items(old(nodes), a)[i + 1..]
    {
      hide Forest;
      hide Items;
      hide Tree;
      var items := nodes[a].body.items;
      if i >= |items| {
        return false;
      }
      RemoveItemKeepsForest(nodes, a, i);
      RemoveTree(nodes, a, i);
      SurvivesFree(nodes, a, items[i], a);
      Free(items[i]);
      nodes := nodes[a := Node(nodes[a].parent, ArrayBody(items[..i] + items[i + 1..]))];
      ok := true;
    }

    /** `json_object_set_value`. */
    method SetValue(o: Ptr, name: bytes, v: Ptr) returns (ok: bool)
      requires Valid() && IsObject(nodes, o) && v in nodes
      modifies this`nodes
      ensures ok <==> IsRoot(old(nodes), v)
      ensures nodes == Set(old(nodes), o, name, v)
      ensures Valid() <==> NotBeneath(old(nodes), v, o)
      ensures ok && Valid() ==>
        IsObject(nodes, o) && MemberSet(Members(old(nodes), o), Members(nodes, o), name, Tree(old(nodes), v))
    {
      hide Members;
      hide Tree;
      hide MemberSet;
      hide Forest;
      hide Pointers;
      if nodes[v].parent != None {
        return false;
      }
      ghost var h := nodes;
      SetExactly(h, o, name, v);
      if NotBeneath(h, v, o) {
        SetTree(h, o, name, v);
      }
      BelowSelf(h, v);
      var slots := nodes[o].body.slots;
      var index := IndexOf(slots, name);
      if index.Some? {
        var i := index.value;
        SlotIsKid(nodes, o, i);
        SurvivesFree(nodes, o, slots[i].ptr, v);
        Free(slots[i].ptr);
        slots := slots[i := Slot(name, v)];
      } else {
        slots := slots + [Slot(name, v)];
      }
      nodes := nodes[v := Node(Some(o), nodes[v].body)];
      nodes := nodes[o := Node(nodes[o].parent, ObjectBody(slots))];
      assert nodes == Set(h, o, name, v);
      ok := true;
    }

    /** `json_object_add`: a name already present is refused; whether the value has a
        parent is not looked at. */
    method AddValue(o: Ptr, name: bytes, v: Ptr) returns (ok: bool)
      requires Valid() && IsObject(nodes, o) && v in nodes
      modifies this`nodes
      ensures ok <==> IndexOf(old(nodes)[o].body.slots, name) == None
      ensures nodes == Add(old(nodes), o, name, v)
      ensures Valid() <==> !ok || (IsRoot(old(nodes), v) && !Below(old(nodes), v, o))
    {
      hide Forest;
      AddExactly(nodes, o, name, v);
      var slots := nodes[o].body.slots;
      if IndexOf(slots, name).Some? {
        return false;
      }
      nodes := nodes[v := Node(Some(o), nodes[v].body)];
      nodes := nodes[o := Node(nodes[o].parent, ObjectBody(slots + [Slot(name, v)]))];
      ok := true;
    }

    /** `json_object_remove`. */
    method RemoveValue(o: Ptr, name: bytes) returns (ok: bool)
      requires Valid() && IsObject(nodes, o)
      modifies this`nodes
      ensures Valid()
      ensures ok <==> IndexOf(old(nodes)[o].body.slots, name).Some?
      ensures nodes == RemoveMember(old(nodes), o, name)
      ensures IsObject(nodes, o) && MemberRemoved(Members(old(nodes), o), Members(nodes, o), name)
    {
      hide Members;
      hide Tree;
      hide MemberRemoved;
      hide Below;
      hide Forest;
      hide Pointers;
      hide SwapRemove;
      var slots := nodes[o].body.slots;
      var index := IndexOf(slots, name);
      RemoveMemberTree(nodes, o, name);
      if index == None {
        return false;
      }
      RemoveMemberKeepsForest(nodes, o, name);
      var i := index.value;
      SlotIsKid(nodes, o, i);
      SurvivesFree(nodes, o, slots[i].ptr, o);
      Free(slots[i].ptr);
      nodes := nodes[o := Node(nodes[o].parent, ObjectBody(SwapRemove(slots, i)))];
      ok := true;
    }
  }

  lemma InOwnSubtree(h: Heap, v: Ptr)
    requires v in h
    ensures v in Subtree(h, v)
  {
    BelowSelf(h, v);
  }

  /** Everything inside the given nodes. */
  ghost function Inside(h: Heap, ps: seq<Ptr>): set<Ptr> {
    if |ps| == 0 then {} else Inside(h, ps[..|ps| - 1]) + Subtree(h, ps[|ps| - 1])
  }

  lemma InsideNext(h: Heap, ps: seq<Ptr>, i: nat)
    requires i < |ps|
    ensures Inside(h, ps[..i + 1]) == Inside(h, ps[..i]) + Subtree(h, ps[i])
  {
    assert ps[..i + 1][..i] == ps[..i];
  }

  lemma {:induction false} InsideMember(h: Heap, ps: seq<Ptr>, n: Ptr)
    ensures n in Inside(h, ps) <==> exists c :: c in ps && n in Subtree(h, c)
  {
    hide Subtree;
    if |ps| > 0 {
      InsideMember(h, ps[..|ps| - 1], n);
      assert ps == ps[..|ps| - 1] + [ps[|ps| - 1]];
    }
  }

  /** The subtree of a container is itself and what lies inside its items. */
  lemma InsideAll(h: Heap, v: Ptr)
    requires Forest(h) && v in h
    ensures Subtree(h, v) == Inside(h, KidsOf(h, v)) + {v}
  {
    hide Subtree;
    hide Inside;
    forall n ensures n in Subtree(h, v) <==> n in Inside(h, KidsOf(h, v)) + {v} {
      SubtreeSplits(h, v, n);
      InsideMember(h, KidsOf(h, v), n);
    }
  }

  /** Freeing the earlier items does not touch the next one. */
  lemma KidsApart(h: Heap, v: Ptr, i: nat)
    requires Forest(h) && v in h && i < |KidsOf(h, v)|
    ensures Subtree(h, KidsOf(h, v)[i]) !! Inside(h, KidsOf(h, v)[..i])
    ensures KidsOf(h, v)[i] in h
  {
    hide Inside;
    var kids := KidsOf(h, v);
    forall n | n in Subtree(h, kids[i]) ensures n !in Inside(h, kids[..i]) {
      InsideMember(h, kids[..i], n);
      if exists c :: c in kids[..i] && n in Subtree(h, c) {
        var c :| c in kids[..i] && n in Subtree(h, c);
        var j :| 0 <= j < i && kids[j] == c;
        SiblingsApart(h, v, kids[i], c, n);
      }
    }
  }

  lemma SlotIsKid(h: Heap, o: Ptr, i: nat)
    requires IsObject(h, o) && i < |h[o].body.slots|
    ensures h[o].body.slots[i].ptr in KidsOf(h, o)
  {
    assert Pointers(h[o].body.slots)[i] == h[o].body.slots[i].ptr;
  }

  /** The container and any root outlive the freeing of an item. */
  lemma SurvivesFree(h: Heap, p: Ptr, c: Ptr, v: Ptr)
    requires Forest(h) && p in h && c in KidsOf(h, p)
    requires v == p || IsRoot(h, v)
    ensures c in h && p in Freed(h, c) && v in Freed(h, c)
  {
    NotInsideKid(h, p, c);
    assert h[c].parent == Some(p);
    hide Forest;
    BelowParent(h, c, v);
  }
}
