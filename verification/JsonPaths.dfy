/**
 Dotted paths: reading, setting and removing an entry of nested objects.
 The objects along a path are values here; setting rebuilds them.
 */
module JsonPaths {
  import opened CStrings
  import opened JsonValues

  /** `strchr(path, '.')`, or the length when there is no dot. */
  function Dot(path: string): (i: nat)
    ensures i <= |path| && (i < |path| ==> path[i] == '.')
    ensures forall j | 0 <= j < i :: path[j] != '.'
  {
    if path == "" || path[0] == '.' then 0 else 1 + Dot(path[1..])
  }

  /** json_value_get_object: anything but an object gives NULL. */
  function AsObject(v: Value): (o: Value)
    ensures o.Object? || o == Error
  {
    if v.Object? then v else Error
  }

  /** json_object_get_value, also on the NULL object. */
  function GetValue(o: Value, name: string): Value {
    if o.Object? then Lookup(o.members, name) else Error
  }

  /** json_object_dotget_value. */
  function DotGet(o: Value, path: string): Value
    decreases |path|
  {
    var i := Dot(path);
    if i == |path| then GetValue(o, path)
    else DotGet(AsObject(GetValue(o, path[..i])), path[i + 1..])
  }

  /** The object with `child` in the place of the member called `name`. */
  function Rebuild(ms: seq<Member>, cap: nat, name: string, child: Value): Value
    requires Find(ms, name) < |ms|
  {
    Object(ms[Find(ms, name) := Member(name, child)], cap)
  }

  /** json_object_dotset_value: whether it succeeded, and the object afterwards. */
  function DotSet(o: Value, path: string, v: Value): (r: (bool, Value))
    requires o.Object?
    ensures r.1.Object?
    decreases |path|
  {
    var Object(ms, cap) := o;
    var i := Dot(path);
    if v == Error then (false, o)
    else if i == |path| then
      var set_ := SetMember(ms, cap, path, v);
      (set_.ok, Object(set_.members, set_.cap))
    else
      var name := path[..i];
      if Lookup(ms, name).Object? then
        var (ok, child) := DotSet(Lookup(ms, name), path[i + 1..], v);
        (ok, Rebuild(ms, cap, name, child))
      else
        var added := AddMember(ms, cap, name, Object([], 0));
        if !added.ok then (false, Object(added.members, added.cap))
        else
          var (ok, child) := DotSet(Object([], 0), path[i + 1..], v);
          (ok, Object(ms + [Member(name, child)], added.cap))
  }

  /** json_object_dotremove. */
  function DotRemove(o: Value, path: string): (r: (bool, Value))
    requires o.Object?
    ensures r.1.Object?
    decreases |path|
  {
    var Object(ms, cap) := o;
    var i := Dot(path);
    if i == |path| then
      match RemoveMember(ms, path)
      case None => (false, o)
      case Some(ms') => (true, Object(ms', cap))
    else
      var name := path[..i];
      if !Lookup(ms, name).Object? then (false, o)
      else
        var (ok, child) := DotRemove(Lookup(ms, name), path[i + 1..]);
        (ok, Rebuild(ms, cap, name, child))
  }

  // ----------------------------------------------------------- path components

  /** The names between the dots. */
  function Components(path: string): (cs: seq<string>)
    ensures cs != []
    decreases |path|
  {
    var i := Dot(path);
    if i == |path| then [path] else [path[..i]] + Components(path[i + 1..])
  }

  lemma ComponentsStep(path: string)
    ensures var i, cs := Dot(path), Components(path);
            if i == |path| then cs == [path]
            else |cs| > 1 && cs[0] == path[..i] && cs[1..] == Components(path[i + 1..])
  {
    hide Dot;
    var i := Dot(path);
    if i < |path| {
      assert Components(path) == [path[..i]] + Components(path[i + 1..]);
    }
  }

  /** Names with dots between them. */
  function Joined(cs: seq<string>): string
    requires cs != []
  {
    if |cs| == 1 then cs[0] else cs[0] + "." + Joined(cs[1..])
  }

  /** Joined again the names are the path, and no name holds a dot. */
  lemma {:induction false} ComponentsJoined(path: string)
    ensures Joined(Components(path)) == path
    ensures forall c | c in Components(path) :: '.' !in c
    decreases |path|
  {
    hide Dot, Components, Joined;
    ComponentsStep(path);
    var i, cs := Dot(path), Components(path);
    NoDotBefore(path);
    if i < |path| {
      var rest := cs[1..];
      ComponentsJoined(path[i + 1..]);
      JoinedStep(cs);
      assert path == path[..i] + "." + path[i + 1..];
      forall c | c in cs ensures '.' !in c {
        assert cs == [path[..i]] + rest;
        assert c == path[..i] || c in rest;
      }
    } else {
      JoinedStep(cs);
      assert path[..i] == path;
    }
  }

  lemma NoDotBefore(path: string)
    ensures '.' !in path[..Dot(path)]
  {
  }

  lemma JoinedStep(cs: seq<string>)
    requires cs != []
    ensures Joined(cs) == if |cs| == 1 then cs[0] else cs[0] + "." + Joined(cs[1..])
  {
  }

  /** And names without dots are what their path is taken apart to. */
  lemma {:induction false} JoinedComponents(cs: seq<string>)
    requires cs != [] && forall c | c in cs :: '.' !in c
    ensures Components(Joined(cs)) == cs
    decreases |cs|
  {
    hide Dot, Components;
    var path := Joined(cs);
    assert cs[0] in cs;
    ComponentsStep(path);
    if |cs| == 1 {
      DotIs(path, |path|);
    } else {
      var i, rest := |cs[0]|, cs[1..];
      assert path[..i] == cs[0] && path[i + 1..] == Joined(rest) && path[i] == '.';
      DotIs(path, i);
      JoinedComponents(rest);
      assert cs == [cs[0]] + rest && Components(path) == [Components(path)[0]] + Components(path)[1..];
    }
  }

  lemma DotIs(path: string, i: nat)
    requires i <= |path| && (i < |path| ==> path[i] == '.') && '.' !in path[..i]
    ensures Dot(path) == i
  {
    assert forall j | 0 <= j < i :: path[j] == path[..i][j];
  }

  /** What a list of names leads to; the empty list leads to the value itself. */
  function Follow(v: Value, cs: seq<string>): Value
    decreases |cs|
  {
    if cs == [] then v else Follow(GetValue(v, cs[0]), cs[1..])
  }

  /** Reading a dotted path is following its names. */
  lemma {:induction false} DotGetFollows(o: Value, path: string)
    ensures DotGet(o, path) == Follow(o, Components(path))
    decreases |path|
  {
    var i := Dot(path);
    if i < |path| {
      var next := GetValue(o, path[..i]);
      DotGetFollows(AsObject(next), path[i + 1..]);
      assert Components(path)[1..] == Components(path[i + 1..]);
      var cs := Components(path[i + 1..]);
      assert Follow(AsObject(next), cs) == Follow(next, cs);
    } else {
      assert Components(path)[1..] == [];
    }
  }

  // ------------------------------------------------------------ member updates

  /** The entries of an object after a member is overwritten or added. */
  lemma SetMemberLookup(ms: seq<Member>, cap: nat, name: string, v: Value, other: string)
    requires SetMember(ms, cap, name, v).ok && DistinctNames(ms)
    requires forall k | 0 <= k < |ms| :: ms[k].value != Error
    ensures var ms' := SetMember(ms, cap, name, v).members;
            && DistinctNames(ms')
            && Lookup(ms', name) == v
            && (other != name ==> Lookup(ms', other) == Lookup(ms, other))
  {
    var ms' := SetMember(ms, cap, name, v).members;
    FindAbsent(ms, name);
    if Lookup(ms, name) != Error {
      ReplaceLookup(ms, name, v, other);
    } else {
      AppendLookup(ms, name, v, other);
    }
  }

  lemma ReplaceLookup(ms: seq<Member>, name: string, v: Value, other: string)
    requires DistinctNames(ms) && Find(ms, name) < |ms|
    ensures var ms' := ms[Find(ms, name) := Member(name, v)];
            && DistinctNames(ms')
            && Lookup(ms', name) == v
            && (other != name ==> Lookup(ms', other) == Lookup(ms, other))
  {
    var i := Find(ms, name);
    var ms' := ms[i := Member(name, v)];
    assert forall k | 0 <= k < |ms| :: ms'[k].name == ms[k].name;
    SameNamesSameFind(ms, ms', other);
    SameNamesSameFind(ms, ms', name);
  }

  lemma SameNamesSameFind(ms: seq<Member>, ns: seq<Member>, name: string)
    requires |ms| == |ns| && forall k | 0 <= k < |ms| :: ms[k].name == ns[k].name
    ensures Find(ms, name) == Find(ns, name)
  {
    var i, j := Find(ms, name), Find(ns, name);
    assert i < |ms| ==> ns[i].name == name;
    assert j < |ns| ==> ms[j].name == name;
  }

  lemma AppendLookup(ms: seq<Member>, name: string, v: Value, other: string)
    requires DistinctNames(ms) && Find(ms, name) == |ms|
    ensures var ms' := ms + [Member(name, v)];
            && DistinctNames(ms')
            && Lookup(ms', name) == v
            && (other != name ==> Lookup(ms', other) == Lookup(ms, other))
  {
    var ms' := ms + [Member(name, v)];
    assert ms'[|ms|].name == name;
    var i, j := Find(ms, other), Find(ms', other);
    assert i < |ms| ==> ms'[i].name == other;
    assert j < |ms| ==> ms[j].name == other;
  }

  /** The entries of an object after a removal: one is gone, the others stay. */
  lemma RemoveMemberLookup(ms: seq<Member>, name: string, other: string)
    requires DistinctNames(ms) && RemoveMember(ms, name).Some?
    ensures var ms' := RemoveMember(ms, name).value;
            && |ms'| + 1 == |ms|
            && DistinctNames(ms')
            && Lookup(ms', name) == Error
            && (other != name ==> Lookup(ms', other) == Lookup(ms, other))
            && forall k | 0 <= k < |ms'| :: ms'[k] in ms
  {
    hide DistinctNames, Find;
    var i := Find(ms, name);
    var ms' := GapFilled(ms, i);
    GapFilledDistinct(ms, i);
    if other != name {
      if Find(ms, other) < |ms| {
        var k := GapFilledKeeps(ms, i, Find(ms, other));
        FindByIndex(ms', k);
      } else {
        FindAbsent(ms, other);
        GapFilledAddsNone(ms, i, other);
        FindAbsent(ms', other);
      }
    }
    GapFilledRemoves(ms, i);
    FindAbsent(ms', name);
  }

  lemma GapFilledKeeps(ms: seq<Member>, i: nat, j: nat) returns (k: nat)
    requires i < |ms| && j < |ms| && j != i
    ensures k < |ms| - 1 && GapFilled(ms, i)[k] == ms[j]
  {
    k := if j == |ms| - 1 then i else j;
  }

  lemma GapFilledAddsNone(ms: seq<Member>, i: nat, name: string)
    requires i < |ms| && !HasName(ms, name)
    ensures !HasName(GapFilled(ms, i), name)
  {
  }

  lemma GapFilledRemoves(ms: seq<Member>, i: nat)
    requires i < |ms| && DistinctNames(ms)
    ensures !HasName(GapFilled(ms, i), ms[i].name)
  {
  }

  // ----------------------------------------------------------- along the path

  /** Setting along a list of names, as DotSet does along a path. */
  function SetPath(o: Value, cs: seq<string>, v: Value): (r: (bool, Value))
    requires o.Object? && cs != []
    ensures r.1.Object?
    decreases |cs|
  {
    var Object(ms, cap) := o;
    if v == Error then (false, o)
    else if |cs| == 1 then
      var set_ := SetMember(ms, cap, cs[0], v);
      (set_.ok, Object(set_.members, set_.cap))
    else if Lookup(ms, cs[0]).Object? then
      var (ok, child) := SetPath(Lookup(ms, cs[0]), cs[1..], v);
      (ok, Rebuild(ms, cap, cs[0], child))
    else
      var added := AddMember(ms, cap, cs[0], Object([], 0));
      if !added.ok then (false, Object(added.members, added.cap))
      else
        var (ok, child) := SetPath(Object([], 0), cs[1..], v);
        (ok, Object(ms + [Member(cs[0], child)], added.cap))
  }

  lemma {:induction false} DotSetIsSetPath(o: Value, path: string, v: Value)
    requires o.Object?
    ensures DotSet(o, path, v) == SetPath(o, Components(path), v)
    decreases |path|
  {
    hide Dot, Components, Lookup, Rebuild, SetMember, AddMember;
    ComponentsStep(path);
    var i := Dot(path);
    if i < |path| {
      if Lookup(o.members, path[..i]).Object? {
        DotSetIsSetPath(Lookup(o.members, path[..i]), path[i + 1..], v);
      } else {
        DotSetIsSetPath(Object([], 0), path[i + 1..], v);
      }
    }
  }

  function RemovePath(o: Value, cs: seq<string>): (r: (bool, Value))
    requires o.Object? && cs != []
    ensures r.1.Object?
    decreases |cs|
  {
    var Object(ms, cap) := o;
    if |cs| == 1 then
      match RemoveMember(ms, cs[0])
      case None => (false, o)
      case Some(ms') => (true, Object(ms', cap))
    else if !Lookup(ms, cs[0]).Object? then (false, o)
    else
      var (ok, child) := RemovePath(Lookup(ms, cs[0]), cs[1..]);
      (ok, Rebuild(ms, cap, cs[0], child))
  }

  lemma {:induction false} DotRemoveIsRemovePath(o: Value, path: string)
    requires o.Object?
    ensures DotRemove(o, path) == RemovePath(o, Components(path))
    decreases |path|
  {
    hide Dot, Components, Lookup, Rebuild, RemoveMember;
    ComponentsStep(path);
    var i := Dot(path);
    if i < |path| {
      if Lookup(o.members, path[..i]).Object? {
        DotRemoveIsRemovePath(Lookup(o.members, path[..i]), path[i + 1..]);
      }
    }
  }

  lemma {:induction false} FollowNothing(cs: seq<string>)
    ensures Follow(Error, cs) == Error
    ensures cs != [] ==> Follow(Object([], 0), cs) == Error
    decreases |cs|
  {
    if cs != [] {
      FollowNothing(cs[1..]);
    }
  }

  /** Making a chain of new objects never fails. */
  lemma {:induction false} FreshPathSucceeds(cs: seq<string>, v: Value)
    requires cs != [] && v != Error
    ensures SetPath(Object([], 0), cs, v).0
    decreases |cs|
  {
    if |cs| > 1 {
      FreshPathSucceeds(cs[1..], v);
    }
  }

  lemma RebuildWellFormed(ms: seq<Member>, cap: nat, name: string, child: Value)
    requires WellFormed(Object(ms, cap)) && Find(ms, name) < |ms| && NulFree(name) && WellFormed(child)
    ensures WellFormed(Rebuild(ms, cap, name, child))
  {
    hide Find;
    ReplaceLookup(ms, name, child, name);
  }

  lemma AppendWellFormed(ms: seq<Member>, cap: nat, cap': nat, name: string, child: Value)
    requires WellFormed(Object(ms, cap)) && Find(ms, name) == |ms| && NulFree(name) && WellFormed(child)
    requires |ms| < cap' <= OBJECT_MAX_CAPACITY
    ensures WellFormed(Object(ms + [Member(name, child)], cap'))
  {
    hide Find;
    AppendLookup(ms, name, child, name);
  }

  /** Setting keeps the tree well-formed. */
  lemma {:induction false} SetPathWellFormed(o: Value, cs: seq<string>, v: Value)
    requires WellFormed(o) && o.Object? && WellFormed(v) && cs != []
    requires forall c | c in cs :: NulFree(c)
    ensures WellFormed(SetPath(o, cs, v).1)
    decreases |cs|
  {
    var Object(ms, cap) := o;
    var name := cs[0];
    var bound := Find(ms, name) < |ms|;
    var child := if |cs| == 1 then v
                 else if Lookup(ms, name).Object? then SetPath(Lookup(ms, name), cs[1..], v).1
                 else SetPath(Object([], 0), cs[1..], v).1;
    if |cs| > 1 {
      if Lookup(ms, name).Object? {
        SetPathWellFormed(Lookup(ms, name), cs[1..], v);
      } else {
        SetPathWellFormed(Object([], 0), cs[1..], v);
      }
    }
    if bound {
      RebuildWellFormed(ms, cap, name, child);
    } else if GrownCapacity(|ms|, cap) <= OBJECT_MAX_CAPACITY {
      AppendWellFormed(ms, cap, GrownCapacity(|ms|, cap), name, child);
    }
  }

  lemma TrimReplaced(ms: seq<Member>, i: nat, child: Value)
    requires i < |ms| && Trim(child) == Trim(ms[i].value)
    ensures TrimMembers(ms[i := Member(ms[i].name, child)]) == TrimMembers(ms)
  {
    hide Trim;
  }

  /** A failed set changes at most the capacity of one object. */
  lemma {:induction false} FailedSetChangesNothing(o: Value, cs: seq<string>, v: Value)
    requires WellFormed(o) && o.Object? && cs != []
    requires !SetPath(o, cs, v).0
    ensures Trim(SetPath(o, cs, v).1) == Trim(o)
    decreases |cs|
  {
    hide DistinctNames, TrimMembers;
    var Object(ms, cap) := o;
    if v != Error && |cs| > 1 {
      if Lookup(ms, cs[0]).Object? {
        var i := Find(ms, cs[0]);
        FailedSetChangesNothing(ms[i].value, cs[1..], v);
        var child := SetPath(ms[i].value, cs[1..], v).1;
        TrimReplaced(ms, i, child);
      } else if AddMember(ms, cap, cs[0], Object([], 0)).ok {
        FreshPathSucceeds(cs[1..], v);
      }
    }
  }

  /** The object a set goes on in: the one bound to the name, or a new one. */
  function Child(o: Value, name: string): (c: Value)
    ensures c.Object?
  {
    if GetValue(o, name).Object? then GetValue(o, name) else Object([], 0)
  }

  /** A set along several names sets the rest of them in the child, and touches no other member. */
  lemma SetPathStep(o: Value, p: seq<string>, v: Value, name: string)
    requires WellFormed(o) && o.Object? && |p| > 1 && SetPath(o, p, v).0
    ensures var o' := SetPath(o, p, v).1;
            var c := Child(o, p[0]);
            && WellFormed(c)
            && (c == GetValue(o, p[0]) || (c == Object([], 0) && GetValue(o, p[0]) == Error))
            && SetPath(c, p[1..], v).0
            && GetValue(o', p[0]) == SetPath(c, p[1..], v).1
            && (name != p[0] ==> GetValue(o', name) == GetValue(o, name))
  {
    var Object(ms, cap) := o;
    var child := SetPath(Child(o, p[0]), p[1..], v).1;
    if Lookup(ms, p[0]).Object? {
      ReplaceLookup(ms, p[0], child, name);
    } else {
      FindAbsent(ms, p[0]);
      AppendLookup(ms, p[0], child, name);
    }
  }

  /** What following `q` gives after a successful set along `p`. */
  lemma {:induction false} SetPathFollow(o: Value, p: seq<string>, v: Value, q: seq<string>)
    requires WellFormed(o) && o.Object? && p != [] && SetPath(o, p, v).0
    ensures var o' := SetPath(o, p, v).1;
            if p <= q then Follow(o', q) == Follow(v, q[|p|..])
            else if q <= p then Follow(o', q).Object?
            else Follow(o', q) == Follow(o, q)
    decreases |p|
  {
    hide WellFormed, SetPath, GetValue, Child;
    if q == [] {
    } else if |p| == 1 {
      SetLastName(o, p, v, q[0]);
      assert q[1..] == q[|p|..];
      assert p <= q <==> p[0] == q[0];
    } else {
      SetPathStep(o, p, v, q[0]);
      PrefixTail(p, q);
      if p[0] == q[0] {
        SetPathFollow(Child(o, p[0]), p[1..], v, q[1..]);
        FollowNothing(q[1..]);
      }
    }
  }

  lemma SetLastName(o: Value, p: seq<string>, v: Value, name: string)
    requires WellFormed(o) && o.Object? && |p| == 1 && SetPath(o, p, v).0
    ensures var o' := SetPath(o, p, v).1;
            && GetValue(o', p[0]) == v
            && (name != p[0] ==> GetValue(o', name) == GetValue(o, name))
  {
    SetMemberLookup(o.members, o.cap, p[0], v, name);
  }

  /** Being a prefix, name by name. */
  lemma PrefixTail(p: seq<string>, q: seq<string>)
    requires p != [] && q != []
    ensures p <= q <==> p[0] == q[0] && p[1..] <= q[1..]
    ensures q <= p <==> p[0] == q[0] && q[1..] <= p[1..]
    ensures p <= q ==> q[|p|..] == q[1..][|p| - 1..]
  {
    assert p == [p[0]] + p[1..] && q == [q[0]] + q[1..];
  }

  /** Removing along `p` succeeds exactly when `p` leads somewhere; what `q` leads to afterwards. */
  lemma {:induction false} RemovePathFollow(o: Value, p: seq<string>, q: seq<string>)
    requires WellFormed(o) && o.Object? && p != []
    ensures RemovePath(o, p).0 <==> Follow(o, p) != Error
    ensures !RemovePath(o, p).0 ==> RemovePath(o, p).1 == o
    ensures WellFormed(RemovePath(o, p).1)
    ensures RemovePath(o, p).0 ==>
            var o' := RemovePath(o, p).1;
            if p <= q then Follow(o', q) == Error
            else if q <= p then Follow(o', q).Object?
            else Follow(o', q) == Follow(o, q)
    decreases |p|
  {
    hide DistinctNames, GapFilled;
    var Object(ms, cap) := o;
    FollowNothing(p[1..]);
    if q != [] {
      PrefixTail(p, q);
      FollowNothing(q[1..]);
    }
    if |p| == 1 {
      RemoveLastName(o, p, q);
    } else if Lookup(ms, p[0]).Object? {
      var i := Find(ms, p[0]);
      var child := RemovePath(ms[i].value, p[1..]).1;
      RemovePathFollow(ms[i].value, p[1..], if q != [] then q[1..] else []);
      RebuildWellFormed(ms, cap, p[0], child);
      ReplaceLookup(ms, p[0], child, if q != [] then q[0] else p[0]);
    } else {
      NotAnObject(Lookup(ms, p[0]), p[1..]);
    }
  }

  lemma RemoveLastName(o: Value, p: seq<string>, q: seq<string>)
    requires WellFormed(o) && o.Object? && |p| == 1
    ensures RemovePath(o, p).0 <==> Follow(o, p) != Error
    ensures !RemovePath(o, p).0 ==> RemovePath(o, p).1 == o
    ensures WellFormed(RemovePath(o, p).1)
    ensures RemovePath(o, p).0 ==>
            var o' := RemovePath(o, p).1;
            if p <= q then Follow(o', q) == Error
            else if q <= p then Follow(o', q).Object?
            else Follow(o', q) == Follow(o, q)
  {
    hide DistinctNames, GapFilled;
    var ms := o.members;
    assert p[1..] == [];
    if q != [] {
      PrefixTail(p, q);
      FollowNothing(q[1..]);
    }
    if RemoveMember(ms, p[0]).Some? {
      RemoveMemberLookup(ms, p[0], if q != [] then q[0] else p[0]);
    }
  }

  lemma NotAnObject(v: Value, cs: seq<string>)
    requires !v.Object? && cs != []
    ensures Follow(v, cs) == Error
  {
    FollowNothing(cs[1..]);
  }

  // --------------------------------------------------------------- the theorems

  /** Neither path runs through the other. */
  ghost predicate Unrelated(p: string, q: string) {
    !(Components(p) <= Components(q)) && !(Components(q) <= Components(p))
  }

  /**
   After a successful set of `v` at `path`, reading `path` gives `v`, every
   unrelated path reads as before, and longer paths read inside `v`.  A failed
   set changes no entry anywhere.
   */
  lemma DotSetThenGet(o: Value, path: string, v: Value, other: string)
    requires WellFormed(o) && o.Object?
    ensures var (ok, o') := DotSet(o, path, v);
            && (ok ==> DotGet(o', path) == v)
            && (ok && Unrelated(path, other) ==> DotGet(o', other) == DotGet(o, other))
            && (ok && Components(path) <= Components(other) ==>
                  DotGet(o', other) == Follow(v, Components(other)[|Components(path)|..]))
            && (!ok ==> Trim(o') == Trim(o))
  {
    var p, q := Components(path), Components(other);
    DotSetIsSetPath(o, path, v);
    DotGetFollows(DotSet(o, path, v).1, path);
    DotGetFollows(DotSet(o, path, v).1, other);
    DotGetFollows(o, other);
    if SetPath(o, p, v).0 {
      SetPathFollow(o, p, v, p);
      assert p[|p|..] == [];
      SetPathFollow(o, p, v, q);
    } else {
      FailedSetChangesNothing(o, p, v);
    }
  }

  /**
   Removing succeeds exactly when the path is bound, deletes that entry and
   all below it, and leaves every unrelated path as it was, although the last
   member of the object changes place.
   */
  lemma DotRemoveThenGet(o: Value, path: string, other: string)
    requires WellFormed(o) && o.Object?
    ensures var (ok, o') := DotRemove(o, path);
            && (ok <==> DotGet(o, path) != Error)
            && WellFormed(o')
            && (ok && Components(path) <= Components(other) ==> DotGet(o', other) == Error)
            && (ok && Unrelated(path, other) ==> DotGet(o', other) == DotGet(o, other))
            && (!ok ==> o' == o)
  {
    var p, q := Components(path), Components(other);
    DotRemoveIsRemovePath(o, path);
    DotGetFollows(o, path);
    DotGetFollows(o, other);
    DotGetFollows(DotRemove(o, path).1, other);
    RemovePathFollow(o, p, q);
  }

  /** Every name on a C-string path is a C string. */
  lemma {:induction false} ComponentsNulFree(path: string)
    requires NulFree(path)
    ensures forall c | c in Components(path) :: NulFree(c)
    decreases |path|
  {
    var i := Dot(path);
    if i < |path| {
      ComponentsNulFree(path[i + 1..]);
      assert Components(path) == [path[..i]] + Components(path[i + 1..]);
    }
  }

  /** Names stay distinct, and counts below capacities below limits, whatever is set. */
  lemma DotSetKeepsInvariant(o: Value, path: string, v: Value)
    requires WellFormed(o) && o.Object? && WellFormed(v) && NulFree(path)
    ensures WellFormed(DotSet(o, path, v).1)
  {
    DotSetIsSetPath(o, path, v);
    ComponentsNulFree(path);
    SetPathWellFormed(o, Components(path), v);
  }

  // ------------------------------------------------------- when a set succeeds

  /** One more member fits. */
  predicate HasRoom(o: Value)
    requires o.Object?
  {
    GrownCapacity(|o.members|, o.cap) <= OBJECT_MAX_CAPACITY
  }

  /**
   What a caller can look at before a set: following the path, the first name
   that is not an object is either missing, where there is room for it, or the
   last one of the path.
   */
  predicate Settable(o: Value, cs: seq<string>)
    requires o.Object? && cs != []
    decreases |cs|
  {
    var next := GetValue(o, cs[0]);
    if next == Error then HasRoom(o)
    else |cs| == 1 || (next.Object? && Settable(next, cs[1..]))
  }

  lemma {:induction false} SetPathSucceeds(o: Value, cs: seq<string>, v: Value)
    requires WellFormed(o) && o.Object? && cs != [] && v != Error
    ensures SetPath(o, cs, v).0 <==> Settable(o, cs)
    decreases |cs|
  {
    if |cs| > 1 {
      if GetValue(o, cs[0]).Object? {
        SetPathSucceeds(GetValue(o, cs[0]), cs[1..], v);
      } else {
        FreshPathSucceeds(cs[1..], v);
      }
    }
  }

  /** A set succeeds exactly when its path is settable; a bound entry always is. */
  lemma DotSetSucceeds(o: Value, path: string, v: Value)
    requires WellFormed(o) && o.Object? && v != Error
    ensures DotSet(o, path, v).0 <==> Settable(o, Components(path))
    ensures DotGet(o, path) != Error ==> DotSet(o, path, v).0
  {
    DotSetIsSetPath(o, path, v);
    SetPathSucceeds(o, Components(path), v);
    DotGetFollows(o, path);
    if Follow(o, Components(path)) != Error {
      BoundIsSettable(o, Components(path));
    }
  }

  lemma {:induction false} BoundIsSettable(o: Value, cs: seq<string>)
    requires o.Object? && cs != [] && Follow(o, cs) != Error
    ensures Settable(o, cs)
    decreases |cs|
  {
    FollowNothing(cs[1..]);
    if |cs| > 1 {
      if GetValue(o, cs[0]).Object? {
        BoundIsSettable(GetValue(o, cs[0]), cs[1..]);
      }
    }
  }
}
