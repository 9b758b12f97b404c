/**
  The calls of parson that change the graph of values, as functions from heap to
  heap, and the theorem that every run of them keeps the graph a forest.
 */
module HeapCalls {
  import opened Bytes
  import opened ObjectStore
  import opened HeapForest

  /** The slot of a name, as the linear search finds it. */
  function IndexOf(slots: seq<Slot>, name: bytes): (r: Option<nat>)
    ensures r.Some? ==> r.value < |slots| && slots[r.value].name == name
    ensures r.None? ==> forall i | 0 <= i < |slots| :: slots[i].name != name
  {
    if |slots| == 0 then None
    else if slots[0].name == name then Some(0)
    else
      match IndexOf(slots[1..], name)
      case None =>
        assert forall i | 1 <= i < |slots| :: slots[i] == slots[1..][i - 1];
        None
      case Some(i) => Some(i + 1)
  }

  predicate IsArray(h: Heap, p: Ptr) {
    p in h && h[p].body.ArrayBody?
  }

  predicate IsObject(h: Heap, p: Ptr) {
    p in h && h[p].body.ObjectBody?
  }

  /** A value that may be inserted: live and without a parent. */
  predicate IsRoot(h: Heap, v: Ptr) {
    v in h && h[v].parent == None
  }

  /** v may be offered to container p: a value that has a parent is refused by the
      code, a root must not be put beneath itself by the caller. */
  ghost predicate NotBeneath(h: Heap, v: Ptr, p: Ptr) {
    IsRoot(h, v) ==> !Below(h, v, p)
  }

  // ----- The effect of each call; a refused call changes nothing

  /** `json_array_append_value`. */
  function Append(h: Heap, a: Ptr, v: Ptr): Heap {
    if IsArray(h, a) && IsRoot(h, v) then Attach(h, a, v, ArrayBody(h[a].body.items + [v])) else h
  }

  /** The old item of a slot is freed and the root v takes its place. */
  ghost function Exchange(h: Heap, p: Ptr, old': Ptr, v: Ptr, body: Body): Heap
    requires p in h && v in h
  {
    Freed(h, old')[p := Node(h[p].parent, body)][v := Node(Some(p), if v == p then body else h[v].body)]
  }

  /** `json_array_replace_value`. */
  ghost function Replace(h: Heap, a: Ptr, i: nat, v: Ptr): Heap {
    if IsArray(h, a) && IsRoot(h, v) && i < |h[a].body.items| then
      Exchange(h, a, h[a].body.items[i], v, ArrayBody(h[a].body.items[i := v]))
    else h
  }

  /** `json_array_remove`. */
  ghost function RemoveItem(h: Heap, a: Ptr, i: nat): Heap {
    if IsArray(h, a) && i < |h[a].body.items| then
      var items := h[a].body.items;
      Detach(h, a, items[i], ArrayBody(items[..i] + items[i + 1..]))
    else h
  }

  /** `json_object_set_value`. */
  ghost function Set(h: Heap, o: Ptr, name: bytes, v: Ptr): Heap {
    if IsObject(h, o) && IsRoot(h, v) then
      var slots := h[o].body.slots;
      match IndexOf(slots, name)
      case Some(i) => Exchange(h, o, slots[i].ptr, v, ObjectBody(slots[i := Slot(name, v)]))
      case None => Attach(h, o, v, ObjectBody(slots + [Slot(name, v)]))
    else h
  }

  /** `json_object_add`: no look at the parent of v, and a name present is refused. */
  function Add(h: Heap, o: Ptr, name: bytes, v: Ptr): Heap
    requires IsObject(h, o) && v in h
  {
    var slots := h[o].body.slots;
    if IndexOf(slots, name).Some? then h else Attach(h, o, v, ObjectBody(slots + [Slot(name, v)]))
  }

  /** `json_object_remove`. */
  ghost function RemoveMember(h: Heap, o: Ptr, name: bytes): Heap {
    if IsObject(h, o) then
      var slots := h[o].body.slots;
      match IndexOf(slots, name)
      case Some(i) => Detach(h, o, slots[i].ptr, ObjectBody(SwapRemove(slots, i)))
      case None => h
    else h
  }

  // ----- When each keeps the forest

  lemma RootIsNoKid(h: Heap, p: Ptr, v: Ptr)
    requires Forest(h) && p in h && IsRoot(h, v)
    ensures v !in KidsOf(h, p)
  {
  }

  /** An append keeps the forest exactly when it puts no root beneath itself. */
  lemma AppendExactly(h: Heap, a: Ptr, v: Ptr)
    requires Forest(h) && IsArray(h, a)
    ensures Forest(Append(h, a, v)) <==> NotBeneath(h, v, a)
  {
    if IsRoot(h, v) {
      RootIsNoKid(h, a, v);
      AttachExactly(h, a, v, ArrayBody(h[a].body.items + [v]));
    }
  }

  /** Freeing an item c leaves the ancestors of the other nodes as they were. */
  lemma {:induction false} DetachUp(h: Heap, p: Ptr, c: Ptr, body: Body, n: Ptr, k: nat)
    requires Forest(h) && p in h && n in h && !Below(h, c, n)
    ensures Up(Detach(h, p, c, body), n, k) == Up(h, n, k)
    decreases k
  {
    if k > 0 && h[n].parent.Some? {
      BelowParent(h, c, n);
      DetachUp(h, p, c, body, h[n].parent.value, k - 1);
    }
  }

  lemma DetachBelow(h: Heap, p: Ptr, c: Ptr, body: Body, v: Ptr)
    requires Forest(h) && p in h && !Below(h, c, p)
    ensures Below(Detach(h, p, c, body), v, p) <==> Below(h, v, p)
  {
    forall k: nat ensures Up(Detach(h, p, c, body), p, k) == Up(h, p, k) {
      DetachUp(h, p, c, body, p, k);
    }
  }

  /** Exchanging an item for a root is freeing the item, then giving the root: it
      keeps the forest exactly when the container is not inside the root. */
  lemma ExchangeExactly(h: Heap, p: Ptr, c: Ptr, v: Ptr, mid: Body, body: Body)
    requires Forest(h) && p in h && c in KidsOf(h, p) && IsRoot(h, v)
    requires BodyOk(mid) && BodyOk(body)
    requires forall k :: k in Kids(mid) <==> k in KidsOf(h, p) && k != c
    requires forall k :: k in Kids(body) <==> k in Kids(mid) || k == v
    ensures Forest(Exchange(h, p, c, v, body)) <==> !Below(h, v, p)
  {
    hide BodyOk;
    hide Kids;
    hide Below;
    assert h[c].parent == Some(p);
    var g := Detach(h, p, c, mid);
    DetachKeepsForest(h, p, c, mid);
    NotInsideKid(h, p, c);
    DetachBelow(h, p, c, mid, v);
    hide Forest;
    BelowParent(h, c, v);
    assert v in g && g[v].parent == None;
    AttachExactly(g, p, v, body);
    assert Exchange(h, p, c, v, body) == Attach(g, p, v, body);
  }

  lemma ReplaceExactly(h: Heap, a: Ptr, i: nat, v: Ptr)
    requires Forest(h) && IsArray(h, a)
    ensures Forest(Replace(h, a, i, v)) <==> i >= |h[a].body.items| || NotBeneath(h, v, a)
  {
    if IsRoot(h, v) && i < |h[a].body.items| {
      var items := h[a].body.items;
      RootIsNoKid(h, a, v);
      WithoutItem(items, i);
      NewItem(items, i, v);
      ExchangeExactly(h, a, items[i], v, ArrayBody(items[..i] + items[i + 1..]), ArrayBody(items[i := v]));
    }
  }

  lemma WithoutItem(items: seq<Ptr>, i: nat)
    requires NoDuplicates(items) && i < |items|
    ensures var rest := items[..i] + items[i + 1..];
      NoDuplicates(rest) && forall k :: k in rest <==> k in items && k != items[i]
  {
    var rest := items[..i] + items[i + 1..];
    forall k | k in items && k != items[i] ensures k in rest {
      var j :| 0 <= j < |items| && items[j] == k;
      assert rest[if j < i then j else j - 1] == k;
    }
  }

  lemma NewItem(items: seq<Ptr>, i: nat, v: Ptr)
    requires NoDuplicates(items) && i < |items| && v !in items
    ensures NoDuplicates(items[i := v])
    ensures forall k :: k in items[i := v] <==> (k in items && k != items[i]) || k == v
  {
    var t := items[i := v];
    forall k | (k in items && k != items[i]) || k == v ensures k in t {
      var j := if k == v then i else var j :| 0 <= j < |items| && items[j] == k; j;
      assert t[j] == k;
    }
  }

  lemma RemoveItemKeepsForest(h: Heap, a: Ptr, i: nat)
    requires Forest(h)
    ensures Forest(RemoveItem(h, a, i))
  {
    if IsArray(h, a) && i < |h[a].body.items| {
      var items := h[a].body.items;
      WithoutItem(items, i);
      DetachKeepsForest(h, a, items[i], ArrayBody(items[..i] + items[i + 1..]));
    }
  }

  lemma WithoutSlot(slots: seq<Slot>, i: nat)
    requires BodyOk(ObjectBody(slots)) && i < |slots|
    ensures BodyOk(ObjectBody(SwapRemove(slots, i)))
    ensures forall k :: k in Pointers(SwapRemove(slots, i)) <==> k in Pointers(slots) && k != slots[i].ptr
  {
    var t, last := SwapRemove(slots, i), |slots| - 1;
    SwapRemoveIsDelete(slots, i);
    assert forall j | 0 <= j < last :: t[j] == if j == i then slots[last] else slots[j];
    var ps, qs := Pointers(slots), Pointers(t);
    assert forall j | 0 <= j < last :: qs[j] == if j == i then ps[last] else ps[j];
    forall k | k in ps && k != slots[i].ptr ensures k in qs {
      var j :| 0 <= j < |ps| && ps[j] == k;
      assert qs[if j == last then i else j] == k;
    }
  }

  lemma SetExactly(h: Heap, o: Ptr, name: bytes, v: Ptr)
    requires Forest(h) && IsObject(h, o)
    ensures Forest(Set(h, o, name, v)) <==> NotBeneath(h, v, o)
  {
    if IsRoot(h, v) {
      var slots := h[o].body.slots;
      RootIsNoKid(h, o, v);
      match IndexOf(slots, name)
      case None =>
        NewSlot(slots, Slot(name, v));
        AttachExactly(h, o, v, ObjectBody(slots + [Slot(name, v)]));
      case Some(i) =>
        WithoutSlot(slots, i);
        NewPointer(slots, i, v);
        assert Pointers(slots)[i] == slots[i].ptr;
        ExchangeExactly(h, o, slots[i].ptr, v, ObjectBody(SwapRemove(slots, i)), ObjectBody(slots[i := Slot(name, v)]));
    }
  }

  /** An addition keeps the forest exactly when the name is refused, or the value is
      a root that the object is not inside. */
  lemma AddExactly(h: Heap, o: Ptr, name: bytes, v: Ptr)
    requires Forest(h) && IsObject(h, o) && v in h
    ensures Forest(Add(h, o, name, v)) <==> IndexOf(h[o].body.slots, name).Some? || (IsRoot(h, v) && !Below(h, v, o))
  {
    var slots := h[o].body.slots;
    if IndexOf(slots, name).None? {
      if IsRoot(h, v) {
        RootIsNoKid(h, o, v);
        NewSlot(slots, Slot(name, v));
        AttachExactly(h, o, v, ObjectBody(slots + [Slot(name, v)]));
      } else {
        SecondOwner(h, o, v, Slot(name, v));
      }
    }
  }

  /** A value that already sits in a slot cannot sit in a second one. */
  lemma SecondOwner(h: Heap, o: Ptr, v: Ptr, slot: Slot)
    requires Forest(h) && IsObject(h, o) && v in h && h[v].parent.Some? && slot.ptr == v
    ensures !Forest(Attach(h, o, v, ObjectBody(h[o].body.slots + [slot])))
  {
    hide Leveled;
    var slots, q := h[o].body.slots, h[v].parent.value;
    var body := ObjectBody(slots + [slot]);
    var h' := Attach(h, o, v, body);
    assert Pointers(slots + [slot]) == Pointers(slots) + [v];
    assert v in KidsOf(h, q);
    if q == o {
      var i :| 0 <= i < |Pointers(slots)| && Pointers(slots)[i] == v;
      assert Kids(body)[i] == Kids(body)[|slots|];
      assert !BodyOk(body) && h'[o].body == body;
    } else {
      assert KidsOf(h', q) == KidsOf(h, q) && h'[v].parent == Some(o);
    }
  }

  lemma NewSlot(slots: seq<Slot>, slot: Slot)
    requires BodyOk(ObjectBody(slots)) && slot.ptr !in Pointers(slots)
    requires forall i | 0 <= i < |slots| :: slots[i].name != slot.name
    ensures BodyOk(ObjectBody(slots + [slot]))
    ensures forall k :: k in Pointers(slots + [slot]) <==> k in Pointers(slots) || k == slot.ptr
  {
    assert Pointers(slots + [slot]) == Pointers(slots) + [slot.ptr];
  }

  lemma NewPointer(slots: seq<Slot>, i: nat, v: Ptr)
    requires BodyOk(ObjectBody(slots)) && i < |slots| && v !in Pointers(slots)
    ensures BodyOk(ObjectBody(slots[i := Slot(slots[i].name, v)]))
    ensures forall k :: k in Pointers(slots[i := Slot(slots[i].name, v)])
                   <==> (k in Pointers(slots) && k != slots[i].ptr) || k == v
  {
    var t := slots[i := Slot(slots[i].name, v)];
    var ps, qs := Pointers(slots), Pointers(t);
    assert qs == ps[i := v];
    OverwriteKeepsNames(slots, i, v);
    forall k | (k in ps && k != ps[i]) || k == v ensures k in qs {
      var j := if k == v then i else var j :| 0 <= j < |ps| && ps[j] == k; j;
      assert qs[j] == k;
    }
  }

  lemma RemoveMemberKeepsForest(h: Heap, o: Ptr, name: bytes)
    requires Forest(h)
    ensures Forest(RemoveMember(h, o, name))
  {
    if IsObject(h, o) {
      var slots := h[o].body.slots;
      match IndexOf(slots, name)
      case None =>
      case Some(i) =>
        WithoutSlot(slots, i);
        assert Pointers(slots)[i] == slots[i].ptr;
        DetachKeepsForest(h, o, slots[i].ptr, ObjectBody(SwapRemove(slots, i)));
    }
  }

  // ----- Runs

  datatype Call =
    | NewValue(r: Ptr, body: Body)
    | FreeRoot(v: Ptr)
    | AppendTo(a: Ptr, v: Ptr)
    | ReplaceIn(a: Ptr, i: nat, v: Ptr)
    | RemoveFrom(a: Ptr, i: nat)
    | SetIn(o: Ptr, name: bytes, v: Ptr)
    | RemoveName(o: Ptr, name: bytes)

  /** The call uses live containers and values of the right kind, a fresh pointer
      comes from the allocator, and only roots are freed by hand. */
  ghost predicate Live(h: Heap, call: Call) {
    match call
    case NewValue(r, body) => r !in h && BodyOk(body) && Kids(body) == []
    case FreeRoot(v) => IsRoot(h, v)
    case AppendTo(a, v) => IsArray(h, a) && v in h
    case ReplaceIn(a, _, v) => IsArray(h, a) && v in h
    case RemoveFrom(a, _) => IsArray(h, a)
    case SetIn(o, _, v) => IsObject(h, o) && v in h
    case RemoveName(o, _) => IsObject(h, o)
  }

  /** The call inserts no value beneath itself. */
  ghost predicate Acyclic(h: Heap, call: Call)
    requires Live(h, call)
  {
    match call
    case AppendTo(a, v) => NotBeneath(h, v, a)
    case ReplaceIn(a, i, v) => i >= |h[a].body.items| || NotBeneath(h, v, a)
    case SetIn(o, _, v) => NotBeneath(h, v, o)
    case _ => true
  }

  ghost function Effect(h: Heap, call: Call): Heap {
    match call
    case NewValue(r, body) => h[r := Node(None, body)]
    case FreeRoot(v) => Freed(h, v)
    case AppendTo(a, v) => Append(h, a, v)
    case ReplaceIn(a, i, v) => Replace(h, a, i, v)
    case RemoveFrom(a, i) => RemoveItem(h, a, i)
    case SetIn(o, name, v) => Set(h, o, name, v)
    case RemoveName(o, name) => RemoveMember(h, o, name)
  }

  ghost predicate LegalRun(h: Heap, calls: seq<Call>)
    decreases |calls|
  {
    |calls| == 0 || (Live(h, calls[0]) && Acyclic(h, calls[0]) && LegalRun(Effect(h, calls[0]), calls[1..]))
  }

  ghost function Run(h: Heap, calls: seq<Call>): Heap
    decreases |calls|
  {
    if |calls| == 0 then h else Run(Effect(h, calls[0]), calls[1..])
  }

  lemma FreeRootKeepsForest(h: Heap, v: Ptr)
    requires Forest(h) && IsRoot(h, v)
    ensures Forest(Freed(h, v))
  {
    var h' := Freed(h, v);
    forall p, c | p in h' && c in KidsOf(h', p) ensures c in h' && h'[c].parent == Some(p) {
      FreedKeeps(h, v, c);
    }
    forall c | c in h' && h'[c].parent.Some?
      ensures h'[c].parent.value in h' && c in KidsOf(h', h'[c].parent.value)
    {
      FreedKeeps(h, v, c);
    }
    var level :| Leveled(h, level);
    assert Leveled(h', level);
  }

  /** A call on live values keeps the forest exactly when it inserts no value
      beneath itself. */
  lemma CallExactly(h: Heap, call: Call)
    requires Forest(h) && Live(h, call)
    ensures Forest(Effect(h, call)) <==> Acyclic(h, call)
  {
    hide Forest;
    hide BodyOk;
    hide Below;
    match call
    case NewValue(r, body) => NewRootKeepsForest(h, r, body);
    case FreeRoot(v) => FreeRootKeepsForest(h, v);
    case AppendTo(a, v) => AppendExactly(h, a, v);
    case ReplaceIn(a, i, v) => ReplaceExactly(h, a, i, v);
    case RemoveFrom(a, i) => RemoveItemKeepsForest(h, a, i);
    case SetIn(o, name, v) => SetExactly(h, o, name, v);
    case RemoveName(o, name) => RemoveMemberKeepsForest(h, o, name);
  }

  /** Over any run of calls in which no value is inserted beneath itself, the
      values stay a forest. */
  lemma {:induction false} RunKeepsForest(h: Heap, calls: seq<Call>)
    requires Forest(h) && LegalRun(h, calls)
    ensures Forest(Run(h, calls))
    decreases |calls|
  {
    if |calls| > 0 {
      CallExactly(h, calls[0]);
      RunKeepsForest(Effect(h, calls[0]), calls[1..]);
    }
  }

  /** A root array given to itself: the code accepts it, and there is no forest. */
  lemma ArrayInItself()
    ensures var h: Heap := map[0 := Node(None, ArrayBody([]))];
      Forest(h) && Append(h, 0, 0) == map[0 := Node(Some(0), ArrayBody([0]))] && !Forest(Append(h, 0, 0))
  {
    var h: Heap := map[0 := Node(None, ArrayBody([]))];
    assert Leveled(h, _ => 0);
    BelowSelf(h, 0);
    AppendExactly(h, 0, 0);
    assert [] + [0] == [0];
  }
}
