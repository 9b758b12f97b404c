/**
  The values of parson as a graph of nodes: containers point to their items, and
  every node points back to the value that contains it. This module defines what
  it means for that graph to be a forest and shows that attaching a root and
  freeing a subtree keep it one.
 */
module HeapForest {
  import opened Bytes
  import opened JsonValues
  import opened ObjectStore

  datatype Body =
    | Leaf(v: Value)
    | ArrayBody(items: seq<Ptr>)
    | ObjectBody(slots: seq<Slot>)

  /** A `JSON_Value` with the array or object it wraps. */
  datatype Node = Node(parent: Option<Ptr>, body: Body)

  type Heap = map<Ptr, Node>

  function Pointers(slots: seq<Slot>): (ps: seq<Ptr>)
    ensures |ps| == |slots| && forall i | 0 <= i < |slots| :: ps[i] == slots[i].ptr
  {
    seq(|slots|, i requires 0 <= i < |slots| => slots[i].ptr)
  }

  function Kids(b: Body): seq<Ptr> {
    match b
    case Leaf(_) => []
    case ArrayBody(items) => items
    case ObjectBody(slots) => Pointers(slots)
  }

  function KidsOf(h: Heap, p: Ptr): seq<Ptr>
    requires p in h
  {
    Kids(h[p].body)
  }

  predicate NoDuplicates(s: seq<Ptr>) {
    forall i, j | 0 <= i < j < |s| :: s[i] != s[j]
  }

  predicate BodyOk(b: Body) {
    && NoDuplicates(Kids(b))
    && (b.ObjectBody? ==> Distinct(b.slots))
    && (b.Leaf? ==> !b.v.Array? && !b.v.Object?)
  }

  /** Every slot holds a live node whose parent is the container. */
  ghost predicate Linked(h: Heap) {
    forall p, c | p in h && c in KidsOf(h, p) :: c in h && h[c].parent == Some(p)
  }

  /** Every node with a parent sits in a slot of that parent. */
  ghost predicate Owned(h: Heap) {
    forall c | c in h && h[c].parent.Some? :: h[c].parent.value in h && c in KidsOf(h, h[c].parent.value)
  }

  ghost predicate BodiesOk(h: Heap) {
    forall p | p in h :: BodyOk(h[p].body)
  }

  /** Parents come strictly before their children, so no node contains itself. */
  ghost predicate Leveled(h: Heap, level: Ptr -> nat) {
    forall c | c in h && h[c].parent.Some? :: level(h[c].parent.value) < level(c)
  }

  ghost predicate Forest(h: Heap) {
    Linked(h) && Owned(h) && BodiesOk(h) && exists level :: Leveled(h, level)
  }

  // ----- Ancestors

  /** The k-th ancestor of n, n itself being the 0-th. */
  function Up(h: Heap, n: Ptr, k: nat): Option<Ptr>
    decreases k
  {
    if k == 0 then Some(n)
    else if n in h && h[n].parent.Some? then Up(h, h[n].parent.value, k - 1)
    else None
  }

  /** n is a, or lies somewhere inside a. */
  ghost predicate Below(h: Heap, a: Ptr, n: Ptr) {
    exists k: nat :: Up(h, n, k) == Some(a)
  }

  ghost function Subtree(h: Heap, a: Ptr): set<Ptr> {
    set n | n in h && Below(h, a, n)
  }

  /** The heap after `json_value_free(a)`. */
  ghost function Freed(h: Heap, a: Ptr): Heap {
    map n | n in h && !Below(h, a, n) :: h[n]
  }

  lemma BelowSelf(h: Heap, a: Ptr)
    ensures Below(h, a, a)
  {
    assert Up(h, a, 0) == Some(a);
  }

  /** A node is inside a exactly when it is a or its parent is inside a. */
  lemma BelowParent(h: Heap, a: Ptr, n: Ptr)
    ensures Below(h, a, n) <==>
              n == a || (n in h && h[n].parent.Some? && Below(h, a, h[n].parent.value))
  {
    if Below(h, a, n) && n != a {
      var k: nat :| Up(h, n, k) == Some(a);
      assert Up(h, h[n].parent.value, k - 1) == Some(a);
    }
    if n == a {
      BelowSelf(h, a);
    } else if n in h && h[n].parent.Some? && Below(h, a, h[n].parent.value) {
      var k: nat :| Up(h, h[n].parent.value, k) == Some(a);
      assert Up(h, n, k + 1) == Some(a);
    }
  }

  lemma {:induction false} UpLevel(h: Heap, level: Ptr -> nat, n: Ptr, k: nat)
    requires Leveled(h, level) && Up(h, n, k).Some?
    ensures level(Up(h, n, k).value) <= level(n)
    ensures k > 0 ==> level(Up(h, n, k).value) < level(n)
    decreases k
  {
    if k > 0 {
      UpLevel(h, level, h[n].parent.value, k - 1);
    }
  }

  /** Nothing lies inside its own parent's reverse: levels only fall towards the root. */
  lemma BelowLevel(h: Heap, level: Ptr -> nat, a: Ptr, n: Ptr)
    requires Leveled(h, level) && Below(h, a, n)
    ensures level(a) <= level(n)
  {
    var k: nat :| Up(h, n, k) == Some(a);
    UpLevel(h, level, n, k);
  }

  lemma {:induction false} UpTrans(h: Heap, n: Ptr, k: nat, m: Ptr, j: nat)
    requires Up(h, n, k) == Some(m)
    ensures Up(h, n, k + j) == Up(h, m, j)
    decreases k
  {
    if k > 0 {
      UpTrans(h, h[n].parent.value, k - 1, m, j);
    }
  }

  lemma BelowTrans(h: Heap, a: Ptr, b: Ptr, n: Ptr)
    requires Below(h, a, b) && Below(h, b, n)
    ensures Below(h, a, n)
  {
    var j: nat :| Up(h, b, j) == Some(a);
    var k: nat :| Up(h, n, k) == Some(b);
    UpTrans(h, n, k, b, j);
  }

  /** A container is not inside any of its items. */
  lemma NotInsideKid(h: Heap, p: Ptr, c: Ptr)
    requires Forest(h) && p in h && c in KidsOf(h, p)
    ensures !Below(h, c, p)
  {
    var level :| Leveled(h, level);
    if Below(h, c, p) {
      BelowLevel(h, level, c, p);
    }
  }

  /** Subtrees shrink on the way down, which is what lets recursion end. */
  lemma SubtreeShrinks(h: Heap, p: Ptr, c: Ptr)
    requires Forest(h) && p in h && c in KidsOf(h, p)
    ensures Subtree(h, c) < Subtree(h, p)
  {
    NotInsideKid(h, p, c);
    BelowSelf(h, p);
    BelowParent(h, p, c);
    forall n | n in Subtree(h, c) ensures n in Subtree(h, p) {
      BelowTrans(h, p, c, n);
    }
    assert p in Subtree(h, p) && p !in Subtree(h, c);
  }

  /** The subtree of a container is the container and the subtrees of its items. */
  lemma SubtreeSplits(h: Heap, p: Ptr, n: Ptr)
    requires Forest(h) && p in h
    ensures n in Subtree(h, p) <==> n == p || exists c :: c in KidsOf(h, p) && n in Subtree(h, c)
  {
    if n in Subtree(h, p) && n != p {
      var k: nat :| Up(h, n, k) == Some(p);
      var c := KidOnPath(h, p, n, k);
    }
    if n == p {
      BelowSelf(h, p);
    } else if exists c :: c in KidsOf(h, p) && n in Subtree(h, c) {
      var c :| c in KidsOf(h, p) && n in Subtree(h, c);
      BelowSelf(h, p);
      BelowParent(h, p, c);
      BelowTrans(h, p, c, n);
    }
  }

  lemma {:induction false} KidOnPath(h: Heap, p: Ptr, n: Ptr, k: nat) returns (c: Ptr)
    requires Forest(h) && p in h && n in h && n != p && Up(h, n, k) == Some(p)
    ensures c in KidsOf(h, p) && n in Subtree(h, c)
    decreases k
  {
    var q := h[n].parent.value;
    if q == p {
      c := n;
      BelowSelf(h, n);
    } else {
      c := KidOnPath(h, p, q, k - 1);
      BelowParent(h, c, n);
    }
  }

  // ----- The two moves every operation is made of

  /** Free the item c of container p and give p the body that no longer holds it. */
  ghost function Detach(h: Heap, p: Ptr, c: Ptr, body: Body): Heap
    requires p in h
  {
    Freed(h, c)[p := Node(h[p].parent, body)]
  }

  /** Give v to container p, whose new body holds it; p may be v itself. */
  function Attach(h: Heap, p: Ptr, v: Ptr, body: Body): Heap
    requires p in h && v in h
  {
    h[p := Node(h[p].parent, body)][v := Node(Some(p), if v == p then body else h[v].body)]
  }

  /** A node survives the freeing of c when it is not c and its parent survives. */
  lemma FreedKeeps(h: Heap, c: Ptr, n: Ptr)
    requires Forest(h) && n in h
    ensures n in Freed(h, c) <==> n != c && (h[n].parent.Some? ==> h[n].parent.value in Freed(h, c))
    ensures n in Freed(h, c) ==> Freed(h, c)[n] == h[n]
  {
    BelowParent(h, c, n);
    if h[n].parent.Some? {
      assert h[n].parent.value in h;
    }
  }

  /** Freeing one item of a container leaves a forest. */
  lemma DetachKeepsForest(h: Heap, p: Ptr, c: Ptr, body: Body)
    requires Forest(h) && p in h && c in KidsOf(h, p)
    requires BodyOk(body)
    requires forall k :: k in Kids(body) <==> k in KidsOf(h, p) && k != c
    ensures Forest(Detach(h, p, c, body))
  {
    hide BodyOk;
    hide Kids;
    hide Below;
    NotInsideKid(h, p, c);
    var g, h' := Freed(h, c), Detach(h, p, c, body);
    assert forall q | q in h' && q != p :: KidsOf(h', q) == KidsOf(h, q);
    assert forall n | n in h' :: n in h && h'[n].parent == h[n].parent;
    forall q, k | q in h' && k in KidsOf(h', q) ensures k in h' && h'[k].parent == Some(q) {
      assert k in KidsOf(h, q);
      FreedKeeps(h, c, k);
    }
    forall k | k in h' && h'[k].parent.Some?
      ensures h'[k].parent.value in h' && k in KidsOf(h', h'[k].parent.value)
    {
      FreedKeeps(h, c, k);
    }
    var level :| Leveled(h, level);
    assert Leveled(h', level);
  }

  lemma AttachLevels(h: Heap, p: Ptr, v: Ptr, body: Body)
    requires Forest(h) && p in h && v in h && h[v].parent == None
    requires !Below(h, v, p)
    ensures exists level :: Leveled(Attach(h, p, v, body), level)
  {
    var h' := Attach(h, p, v, body);
    BelowSelf(h, v);
    var level :| Leveled(h, level);
    var raise := level(p) + 1;
    var level' := (n: Ptr) => if Below(h, v, n) then level(n) + raise else level(n);
    forall c | c in h' && h'[c].parent.Some? ensures level'(h'[c].parent.value) < level'(c) {
      BelowParent(h, v, c);
    }
    assert Leveled(h', level');
  }

  /** Giving a root to a container leaves a forest, provided that the container
      does not lie inside the root. */
  lemma AttachKeepsForest(h: Heap, p: Ptr, v: Ptr, body: Body)
    requires Forest(h) && p in h && v in h && h[v].parent == None
    requires !Below(h, v, p)
    requires BodyOk(body)
    requires forall k :: k in Kids(body) <==> k in KidsOf(h, p) || k == v
    ensures Forest(Attach(h, p, v, body))
  {
    hide Leveled;
    hide BodyOk;
    hide Kids;
    var h' := Attach(h, p, v, body);
    BelowSelf(h, v);
    AttachLevels(h, p, v, body);
    assert forall k :: k in KidsOf(h', p) <==> k in KidsOf(h, p) || k == v;
    assert forall q | q in h && q != p :: KidsOf(h', q) == KidsOf(h, q);
  }

  /** The condition is exact: a container that lies inside the root it is given
      makes the root contain itself, and nothing restores a forest. */
  lemma AttachExactly(h: Heap, p: Ptr, v: Ptr, body: Body)
    requires Forest(h) && p in h && v in h && h[v].parent == None
    requires BodyOk(body)
    requires forall k :: k in Kids(body) <==> k in KidsOf(h, p) || k == v
    ensures Forest(Attach(h, p, v, body)) <==> !Below(h, v, p)
  {
    if !Below(h, v, p) {
      AttachKeepsForest(h, p, v, body);
    } else {
      var h' := Attach(h, p, v, body);
      var k: nat :| Up(h, p, k) == Some(v);
      PathSurvives(h, h', p, v, k);
      if Forest(h') {
        var level :| Leveled(h', level);
        assert h'[v].parent == Some(p);
        UpLevel(h', level, p, k);
        assert false;
      }
    }
  }

  lemma {:induction false} PathSurvives(h: Heap, h': Heap, n: Ptr, v: Ptr, k: nat)
    requires Up(h, n, k) == Some(v) && v in h && h[v].parent == None
    requires forall m | m in h :: m in h' && (m == v || h'[m].parent == h[m].parent)
    ensures Up(h', n, k) == Some(v)
    decreases k
  {
    if k > 0 {
      PathSurvives(h, h', h[n].parent.value, v, k - 1);
    }
  }

  /** A new root, as `json_value_init_*` makes it. */
  lemma NewRootKeepsForest(h: Heap, r: Ptr, body: Body)
    requires Forest(h) && r !in h && BodyOk(body) && Kids(body) == []
    ensures Forest(h[r := Node(None, body)])
  {
    var h' := h[r := Node(None, body)];
    var level :| Leveled(h, level);
    assert Leveled(h', level);
  }

  /** In a forest every value with a parent sits in exactly one slot of exactly
      one container, and that container is its parent. */
  lemma ExactlyOneSlot(h: Heap, c: Ptr)
    requires Forest(h) && c in h && h[c].parent.Some?
    ensures var p := h[c].parent.value;
      && p in h
      && (exists i :: 0 <= i < |KidsOf(h, p)| && KidsOf(h, p)[i] == c)
      && (forall q, i, j | q in h && 0 <= i < |KidsOf(h, q)| && KidsOf(h, q)[i] == c
                              && 0 <= j < |KidsOf(h, p)| && KidsOf(h, p)[j] == c :: q == p && i == j)
  {
    var p := h[c].parent.value;
    assert c in KidsOf(h, p);
  }
}
