/**
 The library's two containers as they are kept in memory: parallel blocks of
 names and values, with a count and a capacity, updated in place.
 */
module JsonObjects {
  import opened Basics
  import opened JsonValues

  class JsonObject {
    var names: array<string>
    var values: array<Value>
    var count: nat
    var capacity: nat

    /** The invariant of one object: distinct names, no NULL values, count <= capacity <= limit. */
    ghost predicate Valid()
      reads this, names, values
    {
      && names.Length == values.Length == capacity
      && count <= capacity <= OBJECT_MAX_CAPACITY
      && DistinctNames(Contents())
      && forall i | 0 <= i < count :: values[i] != Error
    }

    /** The members in insertion order. */
    function Contents(): (ms: seq<Member>)
      requires names.Length == values.Length == capacity && count <= capacity
      reads this, names, values
      ensures |ms| == count
    {
      seq(count, i requires 0 <= i < count
          reads this, names, values
          requires names.Length == values.Length == capacity && count <= capacity
          => Member(names[i], values[i]))
    }

    constructor ()
      ensures Valid() && fresh(names) && fresh(values)
      ensures Contents() == [] && capacity == 0
    {
      names := new string[0];
      values := new Value[0];
      count := 0;
      capacity := 0;
    }

    /** json_object_resize: the members move to blocks of the new capacity. */
    method Resize(newCapacity: nat) returns (ok: bool)
      requires Valid() && count <= newCapacity <= OBJECT_MAX_CAPACITY
      modifies this
      ensures Valid() && Contents() == old(Contents())
      ensures ok <==> newCapacity > 0
      ensures ok ==> capacity == newCapacity && fresh(names) && fresh(values)
      ensures !ok ==> unchanged(this)
    {
      if newCapacity == 0 {
        return false;
      }
      var newNames := new string[newCapacity](i requires 0 <= i < newCapacity reads this, names => if i < names.Length then names[i] else "");
      var newValues := new Value[newCapacity](i requires 0 <= i < newCapacity reads this, values => if i < values.Length then values[i] else Error);
      names, values, capacity := newNames, newValues, newCapacity;
      assert Contents() == old(Contents());
      ok := true;
    }

    /** json_object_nget_value. */
    method GetValue(name: string) returns (v: Value)
      requires Valid()
      ensures v == Lookup(Contents(), name)
    {
      var i := 0;
      while i < count
        invariant 0 <= i <= count
        invariant forall j | 0 <= j < i :: names[j] != name
      {
        if |names[i]| == |name| && names[i] == name {
          assert Contents()[i].name == name;
          assert Find(Contents(), name) == i;
          return values[i];
        }
        i := i + 1;
      }
      assert Find(Contents(), name) == count by {
        assert forall j | 0 <= j < count :: Contents()[j].name != name;
      }
      v := Error;
    }

    /** The loops of json_object_set_value and json_object_remove that look for the name. */
    method IndexOf(name: string) returns (i: nat)
      requires Valid()
      ensures i == Find(Contents(), name)
    {
      i := 0;
      while i < count && names[i] != name
        invariant 0 <= i <= count
        invariant forall j | 0 <= j < i :: names[j] != name
      {
        i := i + 1;
      }
      assert forall j | 0 <= j < i :: Contents()[j].name != name;
      assert i < count ==> Contents()[i].name == name;
    }

    /** json_object_add. */
    method Add(name: string, value: Value) returns (ok: bool)
      requires Valid()
      modifies this, names, values
      ensures Valid()
      ensures AddResult(ok, Contents(), capacity) == AddMember(old(Contents()), old(capacity), name, value)
      ensures names == old(names) || fresh(names)
      ensures values == old(values) || fresh(values)
    {
      if value == Error {
        return false;
      }
      hide Find, DistinctNames, GrownCapacity;
      ok := Grow();
      if !ok {
        return;
      }
      var present := GetValue(name);
      if present != Error {
        return false;
      }
      FindAbsent(Contents(), name);
      Append(name, value);
    }

    /** The growth of the blocks when they are full. */
    method Grow() returns (ok: bool)
      requires Valid()
      modifies this
      ensures Valid() && Contents() == old(Contents())
      ensures ok <==> GrownCapacity(old(count), old(capacity)) <= OBJECT_MAX_CAPACITY
      ensures ok ==> capacity == GrownCapacity(old(count), old(capacity)) && count < capacity
      ensures !ok ==> unchanged(this)
      ensures names == old(names) || fresh(names)
      ensures values == old(values) || fresh(values)
    {
      if count >= capacity {
        var newCapacity := if capacity * 2 > STARTING_CAPACITY then capacity * 2 else STARTING_CAPACITY;
        if newCapacity > OBJECT_MAX_CAPACITY {
          return false;
        }
        ok := Resize(newCapacity);
      }
      ok := true;
    }

    /** A new pair at the end of blocks that are not full. */
    method Append(name: string, value: Value)
      requires Valid() && count < capacity && value != Error && !HasName(Contents(), name)
      modifies this, names, values
      ensures Valid() && capacity == old(capacity) && names == old(names) && values == old(values)
      ensures Contents() == old(Contents()) + [Member(name, value)]
    {
      ghost var before := Contents();
      names[count] := name;
      values[count] := value;
      count := count + 1;
      assert Contents() == before + [Member(name, value)];
    }

    /** json_object_set_value. */
    method SetValue(name: string, value: Value) returns (ok: bool)
      requires Valid()
      modifies this, names, values
      ensures Valid()
      ensures AddResult(ok, Contents(), capacity) == SetMember(old(Contents()), old(capacity), name, value)
      ensures names == old(names) || fresh(names)
      ensures values == old(values) || fresh(values)
    {
      hide DistinctNames, Find, AddMember;
      if value == Error {
        return false;
      }
      var present := GetValue(name);
      if present != Error {
        var i := IndexOf(name);
        Overwrite(i, name, value);
        return true;
      }
      ok := Add(name, value);
    }

    /** The value of the `i`-th pair, whose name this is, is replaced. */
    method Overwrite(i: nat, name: string, value: Value)
      requires Valid() && i < count && names[i] == name && value != Error
      modifies values
      ensures Valid() && Contents() == old(Contents())[i := Member(name, value)]
    {
      hide DistinctNames;
      ghost var ms := Contents();
      values[i] := value;
      assert Contents() == ms[i := Member(name, value)];
      SameNamesDistinct(ms, Contents());
    }

    /** json_object_remove: the last pair is moved into the gap. */
    method Remove(name: string) returns (ok: bool)
      requires Valid()
      modifies this, names, values
      ensures Valid()
      ensures ok == RemoveMember(old(Contents()), name).Some?
      ensures ok ==> Some(Contents()) == RemoveMember(old(Contents()), name)
      ensures !ok ==> Contents() == old(Contents())
      ensures capacity == old(capacity) && names == old(names) && values == old(values)
    {
      var present := GetValue(name);
      if present == Error {
        return false;
      }
      hide DistinctNames, Find, GapFilled;
      var i := IndexOf(name);
      ghost var ms := Contents();
      GapFilledDistinct(ms, i);
      assert forall m | m in ms :: m.value != Error;
      FillGap(i);
      assert forall k | 0 <= k < count :: Contents()[k].value == values[k];
      ok := true;
    }

    /** The last pair moves into the place of the `i`-th. */
    method FillGap(i: nat)
      requires names.Length == values.Length == capacity && i < count <= capacity
      modifies this`count, names, values
      ensures count == old(count) - 1 && Contents() == GapFilled(old(Contents()), i)
    {
      var last := count - 1;
      if i != last {
        names[i] := names[last];
        values[i] := values[last];
      }
      count := count - 1;
    }
  }

  lemma SameNamesDistinct(ms: seq<Member>, ns: seq<Member>)
    requires DistinctNames(ms) && |ns| == |ms| && forall k | 0 <= k < |ms| :: ns[k].name == ms[k].name
    ensures DistinctNames(ns)
  {
  }

  class JsonArray {
    var items: array<Value>
    var count: nat
    var capacity: nat

    ghost predicate Valid()
      reads this, items
    {
      && items.Length == capacity
      && count <= capacity <= ARRAY_MAX_CAPACITY
    }

    function Contents(): (vs: seq<Value>)
      requires count <= items.Length
      reads this, items
    {
      items[..count]
    }

    constructor ()
      ensures Valid() && fresh(items)
      ensures Contents() == [] && capacity == 0
    {
      items := new Value[0];
      count := 0;
      capacity := 0;
    }

    /** json_array_resize. */
    method Resize(newCapacity: nat) returns (ok: bool)
      requires Valid() && count <= newCapacity <= ARRAY_MAX_CAPACITY
      modifies this
      ensures Valid() && Contents() == old(Contents())
      ensures ok <==> newCapacity > 0
      ensures ok ==> capacity == newCapacity && fresh(items)
      ensures !ok ==> unchanged(this)
    {
      if newCapacity == 0 {
        return false;
      }
      var newItems := new Value[newCapacity](i requires 0 <= i < newCapacity reads this, items => if i < items.Length then items[i] else Error);
      items, capacity := newItems, newCapacity;
      assert Contents() == old(Contents());
      ok := true;
    }

    /** json_array_add. */
    method Add(value: Value) returns (ok: bool)
      requires Valid()
      modifies this, items
      ensures Valid()
      ensures ItemsResult(ok, Contents(), capacity) == AddItem(old(Contents()), old(capacity), value)
      ensures ok <==> (old(count) == old(capacity) ==> old(capacity) <= 61440)
      ensures Contents() == if ok then old(Contents()) + [value] else old(Contents())
      ensures items == old(items) || fresh(items)
    {
      if count >= capacity {
        var newCapacity := if capacity * 2 > STARTING_CAPACITY then capacity * 2 else STARTING_CAPACITY;
        if newCapacity > ARRAY_MAX_CAPACITY {
          return false;
        }
        ok := Resize(newCapacity);
      }
      items[count] := value;
      count := count + 1;
      ok := true;
    }

    /** json_array_get_value. */
    function GetValue(index: nat): (v: Value)
      requires Valid()
      reads this, items
    {
      if index >= count then Error else items[index]
    }

    /** json_array_remove. */
    method Remove(ix: nat) returns (ok: bool)
      requires Valid()
      modifies this, items
      ensures Valid()
      ensures ok == RemoveItem(old(Contents()), ix).Some?
      ensures ok ==> Some(Contents()) == RemoveItem(old(Contents()), ix)
      ensures ok <==> ix < |old(Contents())|
      ensures ok ==> |Contents()| == |old(Contents())| - 1
      ensures ok ==> forall k | 0 <= k < |Contents()| :: Contents()[k] == if k == ix then Error else old(Contents())[k]
      ensures !ok ==> Contents() == old(Contents())
      ensures capacity == old(capacity) && items == old(items)
    {
      if ix >= count {
        return false;
      }
      var last := count - 1;
      count := count - 1;
      if ix != last {
        items[ix] := GetValue(last);
        assert Contents() == old(Contents())[..last][ix := Error];
      } else {
        assert Contents() == old(Contents())[..last];
      }
      ok := true;
    }
  }

  // --------------------------------------------------------- place by place

  /** No stored pointer is NULL. */
  ghost predicate NoNull(ms: seq<Member>) {
    forall k | 0 <= k < |ms| :: ms[k].value != Error
  }

  /** A block of a count that fills it doubles, from 15 on, whether or not the name is refused then. */
  lemma AddExactly(ms: seq<Member>, cap: nat, name: string, v: Value)
    requires |ms| <= cap <= 960 && NoNull(ms)
    ensures var r := AddMember(ms, cap, name, v);
            var full := |ms| == cap;
            && (r.ok <==> v != Error && !HasName(ms, name) && (full ==> cap <= 480))
            && r.members == (if r.ok then ms + [Member(name, v)] else ms)
            && r.cap == if full && v != Error && cap <= 480 then (if cap < 8 then 15 else 2 * cap) else cap
  {
    hide Find;
    FindAbsent(ms, name);
  }

  /** A present name keeps its place, and no other pair changes. */
  lemma SetExactly(ms: seq<Member>, cap: nat, name: string, v: Value, k: nat)
    requires k < |ms| && DistinctNames(ms) && NoNull(ms) && v != Error && HasName(ms, name)
    ensures var r := SetMember(ms, cap, name, v);
            && r.ok && |r.members| == |ms| && r.cap == cap
            && r.members[k] == if ms[k].name == name then Member(name, v) else ms[k]
  {
    hide Find;
    FindAbsent(ms, name);
  }

  /** The last pair takes the place of the removed one, and no other pair moves. */
  lemma RemoveExactly(ms: seq<Member>, i: nat, k: nat)
    requires i < |ms| && k < |ms| - 1 && DistinctNames(ms) && NoNull(ms)
    ensures var r := RemoveMember(ms, ms[i].name);
            r.Some? && |r.value| == |ms| - 1 && r.value[k] == if k == i then ms[|ms| - 1] else ms[k]
  {
    hide Find;
    FindByIndex(ms, i);
  }

  /**
   Removing an item keeps all the others exactly when it is the last one:
   otherwise the last item is lost and a NULL pointer stands in the gap.
   */
  lemma RemoveItemKeepsOthers(items: seq<Value>, ix: nat)
    requires ix < |items| && Error !in items
    ensures multiset(RemoveItem(items, ix).value) == multiset(items) - multiset{items[ix]} <==> ix == |items| - 1
    ensures Error in RemoveItem(items, ix).value <==> ix != |items| - 1
  {
    hide RemoveItem;
    if ix == |items| - 1 {
      RemoveLastItem(items);
    } else {
      RemoveInnerItem(items, ix);
      NotInWithout(items, items[ix], Error);
    }
  }

  lemma RemoveLastItem(items: seq<Value>)
    requires items != [] && Error !in items
    ensures var r := RemoveItem(items, |items| - 1).value;
            multiset(r) == multiset(items) - multiset{items[|items| - 1]} && Error !in r
  {
    assert items == items[..|items| - 1] + [items[|items| - 1]];
  }

  lemma RemoveInnerItem(items: seq<Value>, ix: nat)
    requires ix < |items| - 1
    ensures Error in RemoveItem(items, ix).value && Error in multiset(RemoveItem(items, ix).value)
  {
    assert RemoveItem(items, ix).value[ix] == Error;
  }

  lemma NotInWithout(items: seq<Value>, x: Value, y: Value)
    requires y !in items
    ensures y !in multiset(items) - multiset{x}
  {
    assert y !in multiset(items);
  }
}
