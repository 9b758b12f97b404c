/** The JSON tree that a node of the heap stands for, and when it stays the same. */
module HeapTrees {
  import opened Bytes
  import opened JsonValues
  import opened ObjectStore
  import opened HeapForest

  ghost function Tree(h: Heap, n: Ptr): Value
    requires Forest(h) && n in h
    decreases Subtree(h, n), 1, 0
  {
    match h[n].body
    case Leaf(v) => v
    case ArrayBody(items) => Array(TreeItems(h, n, items))
    case ObjectBody(slots) =>
      assert forall s | s in slots :: s.ptr in Pointers(slots) by {
        forall s | s in slots ensures s.ptr in Pointers(slots) {
          var i :| 0 <= i < |slots| && slots[i] == s;
          assert Pointers(slots)[i] == s.ptr;
        }
      }
      Object(TreeMembers(h, n, slots))
  }

  ghost function TreeItems(h: Heap, n: Ptr, items: seq<Ptr>): (xs: seq<Value>)
    requires Forest(h) && n in h
    requires forall c | c in items :: c in KidsOf(h, n)
    ensures |xs| == |items|
    decreases Subtree(h, n), 0, |items|
  {
    if |items| == 0 then []
    else
      SubtreeShrinks(h, n, items[0]);
      [Tree(h, items[0])] + TreeItems(h, n, items[1..])
  }

  ghost function TreeMembers(h: Heap, n: Ptr, slots: seq<Slot>): (ms: seq<Member>)
    requires Forest(h) && n in h
    requires forall s | s in slots :: s.ptr in KidsOf(h, n)
    ensures |ms| == |slots|
    decreases Subtree(h, n), 0, |slots|
  {
    if |slots| == 0 then []
    else
      SubtreeShrinks(h, n, slots[0].ptr);
      [Member(slots[0].name, Tree(h, slots[0].ptr))] + TreeMembers(h, n, slots[1..])
  }

  /** The bodies of n and everything inside it are the same in both heaps. */
  ghost predicate SameBodies(h: Heap, h': Heap, n: Ptr) {
    forall m | m in Subtree(h, n) :: m in h' && h'[m].body == h[m].body
  }

  /** A tree depends on the bodies inside it and on nothing else. */
  lemma {:induction false} TreeFrame(h: Heap, h': Heap, n: Ptr)
    requires Forest(h) && Forest(h') && n in h && SameBodies(h, h', n)
    ensures n in h' && Tree(h', n) == Tree(h, n)
    decreases Subtree(h, n), 1, 0
  {
    BelowSelf(h, n);
    assert n in Subtree(h, n);
    match h[n].body
    case Leaf(_) =>
    case ArrayBody(items) => ItemsFrame(h, h', n, n, items);
    case ObjectBody(slots) =>
      PointersOf(slots);
      MembersFrame(h, h', n, n, slots);
  }

  lemma PointersOf(slots: seq<Slot>)
    ensures forall s | s in slots :: s.ptr in Pointers(slots)
  {
    forall s | s in slots ensures s.ptr in Pointers(slots) {
      var i :| 0 <= i < |slots| && slots[i] == s;
      assert Pointers(slots)[i] == s.ptr;
    }
  }

  lemma KidSameBodies(h: Heap, h': Heap, n: Ptr, c: Ptr)
    requires Forest(h) && n in h && c in KidsOf(h, n) && SameBodies(h, h', n)
    ensures SameBodies(h, h', c)
  {
    SubtreeShrinks(h, n, c);
  }

  /** The items of container n in h are the same trees as those of n' in h'. */
  lemma {:induction false} ItemsFrame(h: Heap, h': Heap, n: Ptr, n': Ptr, items: seq<Ptr>)
    requires Forest(h) && Forest(h') && n in h && n' in h' && SameBodies(h, h', n)
    requires forall c | c in items :: c in KidsOf(h, n) && c in KidsOf(h', n')
    ensures TreeItems(h', n', items) == TreeItems(h, n, items)
    decreases Subtree(h, n), 0, |items|
  {
    if |items| > 0 {
      SubtreeShrinks(h, n, items[0]);
      KidSameBodies(h, h', n, items[0]);
      TreeFrame(h, h', items[0]);
      ItemsFrame(h, h', n, n', items[1..]);
    }
  }

  lemma {:induction false} MembersFrame(h: Heap, h': Heap, n: Ptr, n': Ptr, slots: seq<Slot>)
    requires Forest(h) && Forest(h') && n in h && n' in h' && SameBodies(h, h', n)
    requires forall s | s in slots :: s.ptr in KidsOf(h, n) && s.ptr in KidsOf(h', n')
    ensures TreeMembers(h', n', slots) == TreeMembers(h, n, slots)
    decreases Subtree(h, n), 0, |slots|
  {
    if |slots| > 0 {
      SubtreeShrinks(h, n, slots[0].ptr);
      KidSameBodies(h, h', n, slots[0].ptr);
      TreeFrame(h, h', slots[0].ptr);
      MembersFrame(h, h', n, n', slots[1..]);
    }
  }

  /** A larger heap with the old nodes untouched. */
  ghost predicate Extends(h: Heap, h': Heap) {
    forall n | n in h :: n in h' && h'[n] == h[n]
  }

  lemma ExtendsTree(h: Heap, h': Heap, n: Ptr)
    requires Forest(h) && Forest(h') && Extends(h, h') && n in h
    ensures Tree(h', n) == Tree(h, n)
  {
    TreeFrame(h, h', n);
  }

  lemma {:induction false} UpInside(h: Heap, h': Heap, n: Ptr, k: nat)
    requires Forest(h) && Extends(h, h') && n in h
    ensures Up(h', n, k) == Up(h, n, k) && (Up(h, n, k).Some? ==> Up(h, n, k).value in h)
    decreases k
  {
    if k > 0 && h[n].parent.Some? {
      UpInside(h, h', h[n].parent.value, k - 1);
    }
  }

  /** Two different items of a container have nothing in common. */
  lemma SiblingsApart(h: Heap, p: Ptr, c: Ptr, d: Ptr, n: Ptr)
    requires Forest(h) && p in h && c in KidsOf(h, p) && d in KidsOf(h, p) && c != d
    ensures !(Below(h, c, n) && Below(h, d, n))
  {
    if Below(h, c, n) && Below(h, d, n) {
      var j: nat :| Up(h, n, j) == Some(c);
      var k: nat :| Up(h, n, k) == Some(d);
      if j <= k {
        UpTrans(h, n, j, c, k - j);
        NotAbove(h, p, d, c);
      } else {
        UpTrans(h, n, k, d, j - k);
        NotAbove(h, p, c, d);
      }
    }
  }

  /** An item is not inside its sibling. */
  lemma NotAbove(h: Heap, p: Ptr, c: Ptr, d: Ptr)
    requires Forest(h) && p in h && c in KidsOf(h, p) && d in KidsOf(h, p) && c != d
    ensures !Below(h, c, d)
  {
    BelowParent(h, c, d);
    NotInsideKid(h, p, c);
  }

  /** What is inside a root is not inside an item of a container elsewhere. */
  lemma RootApart(h: Heap, o: Ptr, c: Ptr, v: Ptr, n: Ptr)
    requires Forest(h) && o in h && c in KidsOf(h, o) && v in h && h[v].parent == None && !Below(h, v, o)
    ensures !(Below(h, v, n) && Below(h, c, n))
  {
    assert h[c].parent == Some(o);
    if Below(h, v, n) && Below(h, c, n) {
      var j: nat :| Up(h, n, j) == Some(v);
      var k: nat :| Up(h, n, k) == Some(c);
      if j <= k {
        UpTrans(h, n, j, v, k - j);
        BelowParent(h, c, v);
      } else {
        UpTrans(h, n, k, c, j - k);
        BelowParent(h, v, c);
      }
    }
  }

  lemma {:induction false} TreeItemsAt(h: Heap, n: Ptr, items: seq<Ptr>, i: nat)
    requires Forest(h) && n in h && i < |items|
    requires forall c | c in items :: c in KidsOf(h, n)
    ensures items[i] in h && TreeItems(h, n, items)[i] == Tree(h, items[i])
    decreases |items|
  {
    assert items[i] in KidsOf(h, n);
    if i > 0 {
      TreeItemsAt(h, n, items[1..], i - 1);
    }
  }

  lemma {:induction false} TreeMembersAt(h: Heap, n: Ptr, slots: seq<Slot>, i: nat)
    requires Forest(h) && n in h && i < |slots|
    requires forall s | s in slots :: s.ptr in KidsOf(h, n)
    ensures slots[i].ptr in h && TreeMembers(h, n, slots)[i] == Member(slots[i].name, Tree(h, slots[i].ptr))
    decreases |slots|
  {
    assert slots[i].ptr in KidsOf(h, n);
    if i > 0 {
      TreeMembersAt(h, n, slots[1..], i - 1);
    }
  }
}
