/** `json_value_deep_copy`: an equal tree made of fresh nodes. */
module JsonCopy {
  import opened Bytes
  import opened ObjectStore
  import opened HeapForest
  import opened HeapCalls
  import opened HeapTrees
  import opened JsonHeap

  // ----- Growing a heap does not disturb what is there

  lemma {:induction false} UpStaysOld(h: Heap, h': Heap, c: Ptr, n: Ptr, k: nat)
    requires Forest(h) && Forest(h') && Extends(h, h') && c in h && n in h'
    requires Up(h', n, k) == Some(c)
    ensures n in h
    decreases k
  {
    if k > 0 {
      var q := h'[n].parent.value;
      UpStaysOld(h, h', c, q, k - 1);
      assert n in KidsOf(h', q);
      assert n in KidsOf(h, q);
    }
  }

  lemma ExtendsSubtree(h: Heap, h': Heap, c: Ptr)
    requires Forest(h) && Forest(h') && Extends(h, h') && c in h
    ensures Subtree(h', c) == Subtree(h, c)
  {
    forall n | n in Subtree(h', c) ensures n in Subtree(h, c) {
      var k: nat :| Up(h', n, k) == Some(c);
      UpStaysOld(h, h', c, n, k);
      UpInside(h, h', n, k);
    }
    forall n | n in Subtree(h, c) ensures n in Subtree(h', c) {
      var k: nat :| Up(h, n, k) == Some(c);
      UpInside(h, h', n, k);
    }
  }

  /** A fresh root shares no node with the heap it was added to. */
  lemma FreshSubtree(h: Heap, h': Heap, r: Ptr)
    requires Forest(h) && Extends(h, h') && r !in h
    ensures Subtree(h', r) !! h.Keys
  {
    forall n | n in Subtree(h', r) ensures n !in h {
      var k: nat :| Up(h', n, k) == Some(r);
      if n in h {
        UpInside(h, h', n, k);
      }
    }
  }

  /** Attaching changes the body of the container only. */
  lemma AttachKeepsTree(h: Heap, p: Ptr, v: Ptr, body: Body, x: Ptr)
    requires Forest(h) && p in h && v in h && x in h && v != p && Forest(Attach(h, p, v, body))
    requires !Below(h, x, p)
    ensures x in Attach(h, p, v, body) && Tree(Attach(h, p, v, body), x) == Tree(h, x)
  {
    TreeFrame(h, Attach(h, p, v, body), x);
  }

  lemma RootsApart(h: Heap, r: Ptr, c: Ptr)
    requires IsRoot(h, r) && r != c
    ensures !Below(h, c, r)
  {
    BelowParent(h, c, r);
  }

  // ----- The copy under construction

  /** x in h' stands for the same tree as y in h. */
  ghost predicate SameTree(h: Heap, y: Ptr, h': Heap, x: Ptr) {
    Forest(h) && Forest(h') && y in h && x in h' && Tree(h', x) == Tree(h, y)
  }

  /** A copy already in r survives both steps of a turn of the loop. */
  lemma CopyStays(h: Heap, y: Ptr, h1: Heap, h2: Heap, r: Ptr, c: Ptr, body: Body, x: Ptr)
    requires SameTree(h, y, h1, x) && r in h1 && x in KidsOf(h1, r)
    requires Forest(h2) && Extends(h1, h2)
    requires c in h2 && c != r && Forest(Attach(h2, r, c, body))
    ensures SameTree(h, y, Attach(h2, r, c, body), x)
  {
    NotInsideKid(h2, r, x);
    hide Forest;
    ExtendsTree(h1, h2, x);
    AttachKeepsTree(h2, r, c, body, x);
  }

  /** The copy just made is still one after r has received it. */
  lemma CopyArrives(h: Heap, y: Ptr, h1: Heap, h2: Heap, r: Ptr, c: Ptr, body: Body)
    requires Forest(h) && y in h && Forest(h1) && Extends(h, h1) && SameTree(h1, y, h2, c)
    requires r in h2 && c != r && !Below(h2, c, r) && Forest(Attach(h2, r, c, body))
    ensures SameTree(h, y, Attach(h2, r, c, body), c)
  {
    ExtendsTree(h, h1, y);
    AttachKeepsTree(h2, r, c, body, c);
  }

  /** r is a fresh root in an extension of h. */
  ghost predicate Growing(h: Heap, h': Heap, r: Ptr) {
    Forest(h) && Forest(h') && Extends(h, h') && r !in h && IsRoot(h', r)
  }

  lemma StillGrowing(h: Heap, h1: Heap, h2: Heap, r: Ptr, c: Ptr, body: Body)
    requires Growing(h, h1, r) && Forest(h2) && Extends(h1, h2) && c in h2 && c !in h1
    requires Forest(Attach(h2, r, c, body))
    ensures Growing(h, Attach(h2, r, c, body), r)
  {
    hide Forest;
  }

  /** r is a fresh root array holding copies of the first i items of v. */
  ghost predicate ArraySoFar(h: Heap, h': Heap, items: seq<Ptr>, r: Ptr, copies: seq<Ptr>) {
    && Growing(h, h', r) && h'[r].body == ArrayBody(copies) && |copies| <= |items|
    && forall j | 0 <= j < |copies| :: SameTree(h, items[j], h', copies[j])
  }

  lemma ArrayDone(h: Heap, h': Heap, v: Ptr, r: Ptr, copies: seq<Ptr>)
    requires IsArray(h, v) && ArraySoFar(h, h', h[v].body.items, r, copies) && |copies| == |h[v].body.items|
    ensures Tree(h', r) == Tree(h, v)
  {
    var items := h[v].body.items;
    forall j | 0 <= j < |items|
      ensures TreeItems(h', r, copies)[j] == TreeItems(h, v, items)[j]
    {
      assert SameTree(h, items[j], h', copies[j]);
      TreeItemsAt(h, v, items, j);
      TreeItemsAt(h', r, copies, j);
    }
    assert TreeItems(h', r, copies) == TreeItems(h, v, items);
  }

  /** One turn of the loop: h2 adds a copy c of the next item, then r receives it. */
  lemma ArrayGrows(h: Heap, h1: Heap, h2: Heap, items: seq<Ptr>, r: Ptr, copies: seq<Ptr>, c: Ptr)
    requires ArraySoFar(h, h1, items, r, copies) && |copies| < |items|
    requires Forest(h2) && Extends(h1, h2) && IsRoot(h2, c) && c !in h1
    requires items[|copies|] in h && SameTree(h1, items[|copies|], h2, c)
    ensures !Below(h2, c, r)
    ensures ArraySoFar(h, Append(h2, r, c), items, r, copies + [c])
  {
    hide Forest;
    hide SameTree;
    var body := ArrayBody(copies + [c]);
    RootsApart(h2, r, c);
    AppendExactly(h2, r, c);
    assert Append(h2, r, c) == Attach(h2, r, c, body);
    CopyArrives(h, items[|copies|], h1, h2, r, c, body);
    StillGrowing(h, h1, h2, r, c, body);
    forall j | 0 <= j < |copies| ensures SameTree(h, items[j], Append(h2, r, c), copies[j]) {
      CopyStays(h, items[j], h1, h2, r, c, body, copies[j]);
    }
  }

  ghost predicate ObjectSoFar(h: Heap, h': Heap, slots: seq<Slot>, r: Ptr, copies: seq<Slot>) {
    && Growing(h, h', r) && h'[r].body == ObjectBody(copies) && |copies| <= |slots|
    && forall j | 0 <= j < |copies| ::
         copies[j].name == slots[j].name && SameTree(h, slots[j].ptr, h', copies[j].ptr)
  }

  lemma ObjectDone(h: Heap, h': Heap, v: Ptr, r: Ptr, copies: seq<Slot>)
    requires IsObject(h, v) && ObjectSoFar(h, h', h[v].body.slots, r, copies) && |copies| == |h[v].body.slots|
    ensures Tree(h', r) == Tree(h, v)
  {
    var slots := h[v].body.slots;
    PointersOf(slots);
    PointersOf(copies);
    forall j | 0 <= j < |slots|
      ensures TreeMembers(h', r, copies)[j] == TreeMembers(h, v, slots)[j]
    {
      assert SameTree(h, slots[j].ptr, h', copies[j].ptr);
      TreeMembersAt(h, v, slots, j);
      TreeMembersAt(h', r, copies, j);
    }
    assert TreeMembers(h', r, copies) == TreeMembers(h, v, slots);
  }

  lemma ObjectGrows(h: Heap, h1: Heap, h2: Heap, slots: seq<Slot>, r: Ptr, copies: seq<Slot>, c: Ptr)
    requires ObjectSoFar(h, h1, slots, r, copies) && |copies| < |slots| && Distinct(slots)
    requires Forest(h2) && Extends(h1, h2) && IsRoot(h2, c) && c !in h1
    requires slots[|copies|].ptr in h && SameTree(h1, slots[|copies|].ptr, h2, c)
    ensures !Below(h2, c, r)
    ensures r in h2 && IsObject(h2, r) && IndexOf(h2[r].body.slots, slots[|copies|].name) == None
    ensures ObjectSoFar(h, Add(h2, r, slots[|copies|].name, c), slots, r, copies + [Slot(slots[|copies|].name, c)])
  {
    hide Forest;
    hide SameTree;
    var name := slots[|copies|].name;
    var copies' := copies + [Slot(name, c)];
    var body := ObjectBody(copies');
    RootsApart(h2, r, c);
    AddExactly(h2, r, name, c);
    assert Add(h2, r, name, c) == Attach(h2, r, c, body);
    CopyArrives(h, slots[|copies|].ptr, h1, h2, r, c, body);
    StillGrowing(h, h1, h2, r, c, body);
    PointersOf(copies);
    forall j | 0 <= j < |copies| ensures SameTree(h, slots[j].ptr, Add(h2, r, name, c), copies[j].ptr) {
      assert copies[j] in copies;
      CopyStays(h, slots[j].ptr, h1, h2, r, c, body, copies[j].ptr);
    }
  }

  /** `json_value_deep_copy`: the copy is a root, equal as a tree, made of fresh
      nodes only, and every node that was there is left as it was. */
  method DeepCopy(s: Store, v: Ptr) returns (r: Ptr)
    requires s.Valid() && v in s.nodes
    modifies s
    ensures s.Valid() && Extends(old(s.nodes), s.nodes)
    ensures r !in old(s.nodes) && IsRoot(s.nodes, r)
    ensures Tree(s.nodes, r) == Tree(old(s.nodes), v)
    ensures Subtree(s.nodes, r) !! old(s.nodes).Keys
    decreases Subtree(s.nodes, v)
  {
    hide Leveled;
    hide Linked;
    hide Owned;
    ghost var h := s.nodes;
    match s.nodes[v].body {
      case Leaf(_) =>
        r := s.Init(s.nodes[v].body);
      case ArrayBody(items) =>
        r := s.Init(ArrayBody([]));
        ghost var copies := [];
        for i := 0 to |items|
          invariant s.Valid() && ArraySoFar(h, s.nodes, items, r, copies) && |copies| == i
        {
          ghost var h1 := s.nodes;
          KidShrinks(h, h1, v, items[i]);
          var c := DeepCopy(s, items[i]);
          ArrayGrows(h, h1, s.nodes, items, r, copies, c);
          var ok := s.AppendValue(r, c);
          copies := copies + [c];
        }
        ArrayDone(h, s.nodes, v, r, copies);
      case ObjectBody(slots) =>
        r := s.Init(ObjectBody([]));
        ghost var copies := [];
        for i := 0 to |slots|
          invariant s.Valid() && ObjectSoFar(h, s.nodes, slots, r, copies) && |copies| == i
        {
          ghost var h1 := s.nodes;
          PointersOf(slots);
          KidShrinks(h, h1, v, slots[i].ptr);
          var c := DeepCopy(s, slots[i].ptr);
          ObjectGrows(h, h1, s.nodes, slots, r, copies, c);
          var ok := s.AddValue(r, slots[i].name, c);
          copies := copies + [Slot(slots[i].name, c)];
        }
        ObjectDone(h, s.nodes, v, r, copies);
    }
    FreshSubtree(h, s.nodes, r);
  }

  lemma KidShrinks(h: Heap, h': Heap, v: Ptr, c: Ptr)
    requires Forest(h) && Forest(h') && Extends(h, h') && v in h && c in KidsOf(h, v)
    ensures c in h && c in h' && Subtree(h', c) < Subtree(h, v)
  {
    SubtreeShrinks(h, v, c);
    ExtendsSubtree(h, h', c);
  }
}
