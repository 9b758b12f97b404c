/**
  The object store of parson: parallel `names` and `values` arrays that double
  when full, are trimmed after parsing and lose a slot by moving the last one into
  it. The store is shown to be a finite map from names to values, with the order
  of the slots as the only extra observation.
 */
module ObjectStore {
  import opened Bytes

  /** A `JSON_Value *`. */
  type Ptr = nat

  datatype Slot = Slot(name: bytes, ptr: Ptr)

  const STARTING_CAPACITY: nat := 16

  // ----- Slots as values

  predicate Distinct(s: seq<Slot>) {
    forall i, j | 0 <= i < j < |s| :: s[i].name != s[j].name
  }

  /** The finite map a row of slots stands for. */
  function AsMap(s: seq<Slot>): map<bytes, Ptr>
    requires Distinct(s)
  {
    map i | 0 <= i < |s| :: s[i].name := s[i].ptr
  }

  function Names(s: seq<Slot>): (ns: seq<bytes>)
    ensures |ns| == |s| && forall i | 0 <= i < |s| :: ns[i] == s[i].name
  {
    seq(|s|, i requires 0 <= i < |s| => s[i].name)
  }

  /** The row without slot i: the last slot takes its place. */
  function SwapRemove(s: seq<Slot>, i: nat): seq<Slot>
    requires i < |s|
  {
    s[i := s[|s| - 1]][..|s| - 1]
  }

  lemma AppendIsInsert(s: seq<Slot>, slot: Slot)
    requires Distinct(s) && slot.name !in AsMap(s)
    ensures Distinct(s + [slot]) && AsMap(s + [slot]) == AsMap(s)[slot.name := slot.ptr]
  {
    var t := s + [slot];
    forall i | 0 <= i < |s| ensures t[i].name != slot.name {
      assert t[i] == s[i] && s[i].name in AsMap(s);
    }
    forall name | name in AsMap(s) ensures name in AsMap(t) {
      var i :| 0 <= i < |s| && s[i].name == name;
      assert t[i] == s[i];
    }
    assert t[|s|] == slot;
  }

  lemma MapHas(s: seq<Slot>)
    requires Distinct(s)
    ensures forall i | 0 <= i < |s| :: s[i].name in AsMap(s) && AsMap(s)[s[i].name] == s[i].ptr
    ensures forall name | name in AsMap(s) :: exists i :: 0 <= i < |s| && s[i].name == name
  {
  }

  /** Two rows of slots stand for the maps m exactly when they hold its pairs. */
  lemma MapOf(s: seq<Slot>, m: map<bytes, Ptr>)
    requires Distinct(s)
    requires forall i | 0 <= i < |s| :: s[i].name in m && m[s[i].name] == s[i].ptr
    requires forall name | name in m :: exists i :: 0 <= i < |s| && s[i].name == name
    ensures AsMap(s) == m
  {
    forall name | name in m ensures name in AsMap(s) && AsMap(s)[name] == m[name] {
      var i :| 0 <= i < |s| && s[i].name == name;
    }
  }

  lemma OverwriteKeepsNames(s: seq<Slot>, i: nat, ptr: Ptr)
    requires Distinct(s) && i < |s|
    ensures var t := s[i := Slot(s[i].name, ptr)];
      Distinct(t) && Names(t) == Names(s) && forall k | 0 <= k < |s| :: t[k].name == s[k].name
  {
  }

  lemma OverwriteIsUpdate(s: seq<Slot>, i: nat, ptr: Ptr)
    requires Distinct(s) && i < |s|
    ensures var t := s[i := Slot(s[i].name, ptr)];
      Distinct(t) && AsMap(t) == AsMap(s)[s[i].name := ptr] && Names(t) == Names(s)
  {
    hide AsMap;
    hide Names;
    MapHas(s);
    OverwriteKeepsNames(s, i, ptr);
    var t := s[i := Slot(s[i].name, ptr)];
    var m := AsMap(s)[s[i].name := ptr];
    forall name | name in m ensures exists k :: 0 <= k < |t| && t[k].name == name {
      var k :| 0 <= k < |s| && s[k].name == name;
      assert t[k].name == name;
    }
    MapOf(t, m);
  }

  lemma SwapRemoveIsDelete(s: seq<Slot>, i: nat)
    requires Distinct(s) && i < |s|
    ensures Distinct(SwapRemove(s, i)) && AsMap(SwapRemove(s, i)) == AsMap(s) - {s[i].name}
  {
    hide AsMap;
    MapHas(s);
    var t, last := SwapRemove(s, i), |s| - 1;
    assert forall k | 0 <= k < last :: t[k] == if k == i then s[last] else s[k];
    var m := AsMap(s) - {s[i].name};
    forall name | name in m ensures exists k :: 0 <= k < |t| && t[k].name == name {
      var k :| 0 <= k < |s| && s[k].name == name;
      assert t[if k == last then i else k] == s[k];
    }
    MapOf(t, m);
  }

  // ----- The store

  class JsonObject {
    var names: array<bytes>
    var values: array<Ptr>
    var count: nat
    var capacity: nat

    ghost predicate Valid()
      reads this, names, values
    {
      && names.Length == values.Length == capacity
      && count <= capacity
      && Distinct(Slots())
    }

    ghost function Slots(): (s: seq<Slot>)
      reads this, names, values
      requires count <= names.Length && count <= values.Length
    {
      seq(count, i requires 0 <= i < count && count <= names.Length && count <= values.Length
                   reads this, names, values => Slot(names[i], values[i]))
    }

    ghost function Contents(): map<bytes, Ptr>
      reads this, names, values
      requires Valid()
    {
      AsMap(Slots())
    }

    /** `json_object_init`: no arrays yet. */
    constructor ()
      ensures Valid() && Slots() == [] && capacity == 0
      ensures fresh(names) && fresh(values)
    {
      names := new bytes[0];
      values := new Ptr[0];
      count, capacity := 0, 0;
    }

    /** `json_object_getn_value`, with the index it stops at. */
    method Find(name: bytes) returns (found: bool, index: nat)
      requires Valid()
      ensures found <==> name in Contents()
      ensures found ==> index < count && Slots()[index] == Slot(name, Contents()[name])
    {
      for i := 0 to count
        invariant forall k | 0 <= k < i :: Slots()[k].name != name
      {
        if |names[i]| == |name| && names[i] == name {
          assert Slots()[i].name == name;
          return true, i;
        }
      }
      return false, 0;
    }

    method Get(name: bytes) returns (value: Option<Ptr>)
      requires Valid()
      ensures value == if name in Contents() then Some(Contents()[name]) else None
    {
      var found, i := Find(name);
      value := if found then Some(values[i]) else None;
    }

    /** `json_object_resize`: growth and the trim after parsing keep every slot. */
    method Resize(newCapacity: nat) returns (ok: bool)
      requires Valid() && count <= newCapacity
      modifies this
      ensures Valid() && Slots() == old(Slots())
      ensures ok <==> newCapacity != 0
      ensures ok ==> capacity == newCapacity && fresh(names) && fresh(values)
      ensures !ok ==> names == old(names) && values == old(values)
    {
      if newCapacity == 0 {
        return false;
      }
      var tempNames := new bytes[newCapacity](_ => []);
      var tempValues := new Ptr[newCapacity](_ => 0);
      for i := 0 to count
        invariant names == old(names) && values == old(values) && count == old(count)
        invariant forall k | 0 <= k < i :: tempNames[k] == names[k] && tempValues[k] == values[k]
        invariant Slots() == old(Slots())
      {
        tempNames[i] := names[i];
        tempValues[i] := values[i];
      }
      names, values, capacity := tempNames, tempValues, newCapacity;
      assert forall k | 0 <= k < count :: Slots()[k] == old(Slots())[k];
      ok := true;
    }

    /** `json_object_addn`: refuses a name already present, else appends a slot,
        doubling the arrays when they are full. */
    method Add(name: bytes, value: Ptr) returns (ok: bool)
      requires Valid()
      modifies this, names, values
      ensures Valid()
      ensures ok <==> name !in old(Contents())
      ensures ok ==> Slots() == old(Slots()) + [Slot(name, value)]
      ensures ok ==> Contents() == old(Contents())[name := value]
      ensures !ok ==> Slots() == old(Slots())
      ensures capacity == if !ok || old(count) < old(capacity) then old(capacity)
                          else if old(capacity) <= 8 then 16 else 2 * old(capacity)
    {
      var found, _ := Find(name);
      if found {
        return false;
      }
      if count >= capacity {
        var doubled := if capacity * 2 > STARTING_CAPACITY then capacity * 2 else STARTING_CAPACITY;
        var grown := Resize(doubled);
      }
      ghost var before := Slots();
      names[count] := name;
      values[count] := value;
      count := count + 1;
      assert Slots() == before + [Slot(name, value)];
      AppendIsInsert(before, Slot(name, value));
      ok := true;
    }

    /** `json_object_set_value`: an existing name is overwritten in place, so the
        order of names is kept; a new one is added. */
    method Set(name: bytes, value: Ptr) returns (freed: Option<Ptr>)
      requires Valid()
      modifies this, names, values
      ensures Valid()
      ensures Contents() == old(Contents())[name := value]
      ensures freed == if name in old(Contents()) then Some(old(Contents())[name]) else None
      ensures freed.Some? ==> Names(Slots()) == old(Names(Slots()))
      ensures freed.None? ==> Slots() == old(Slots()) + [Slot(name, value)]
    {
      var found, i := Find(name);
      if found {
        freed := Some(values[i]);
        ghost var before := Slots();
        values[i] := value;
        assert Slots() == before[i := Slot(name, value)];
        OverwriteIsUpdate(before, i, value);
      } else {
        freed := None;
        var ok := Add(name, value);
      }
    }

    /** `json_object_remove_internal`: the last slot moves into the gap. */
    method Remove(name: bytes) returns (freed: Option<Ptr>)
      requires Valid()
      modifies this, names, values
      ensures Valid() && capacity == old(capacity)
      ensures freed == if name in old(Contents()) then Some(old(Contents())[name]) else None
      ensures Contents() == old(Contents()) - {name}
      ensures freed.None? ==> Slots() == old(Slots())
      ensures freed.Some? ==> exists i :: 0 <= i < |old(Slots())| && old(Slots())[i].name == name
                                       && Slots() == SwapRemove(old(Slots()), i)
    {
      hide AsMap;
      var found, i := Find(name);
      if !found {
        return None;
      }
      freed := Some(values[i]);
      ghost var before := Slots();
      var last := count - 1;
      if i != last {
        names[i] := names[last];
        values[i] := values[last];
      }
      count := count - 1;
      assert Slots() == SwapRemove(before, i);
      SwapRemoveIsDelete(before, i);
    }
  }
}
