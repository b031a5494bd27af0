/**
 Structural equality and deep copies, against a reference meaning in which an
 object is a finite map and order and capacity do not exist.
 */
module JsonEquality {
  import opened CStrings
  import opened JsonValues
  import opened JsonObjects

  /** What a tree denotes. */
  datatype Tree =
    | NoTree
    | NullTree
    | BooleanTree(b: bool)
    | NumberTree(x: real)
    | StringTree(s: string)
    | ArrayTree(items: seq<Tree>)
    | ObjectTree(fields: map<string, Tree>)

  function Meaning(v: Value): Tree
    decreases v, 0
  {
    match v
    case Error => NoTree
    case Null => NullTree
    case Boolean(b) => BooleanTree(b)
    case Number(n) => NumberTree(n as real)
    case Fraction(x) => NumberTree(x)
    case String(s) => StringTree(CStr(s))
    case Array(items, _) => ArrayTree(seq(|items|, i requires 0 <= i < |items| => Meaning(items[i])))
    case Object(ms, _) => ObjectTree(Fields(ms))
  }

  /** The first member of a name counts, as in a lookup. */
  function Fields(ms: seq<Member>): map<string, Tree>
    decreases ms, 1
  {
    if ms == [] then map[] else Fields(ms[1..])[ms[0].name := Meaning(ms[0].value)]
  }

  /** fabs(x - y) < 0.000001 */
  predicate Close(x: real, y: real) {
    -0.000001 < x - y < 0.000001
  }

  /** On whole numbers the tolerance is plain equality. */
  lemma CloseIntegers(m: int, n: int)
    ensures Close(m as real, n as real) <==> m == n
  {
    assert m as real - n as real == (m - n) as real;
  }

  predicate IsNumber(v: Value) {
    v.Number? || v.Fraction?
  }

  function NumberOf(v: Value): real
    requires IsNumber(v)
  {
    if v.Number? then v.n as real else v.x
  }

  /** json_value_equals: the members of the first object are looked up in both. */
  predicate JsonEquals(a: Value, b: Value)
    decreases a, 0
  {
    if IsNumber(a) && IsNumber(b) then Close(NumberOf(a), NumberOf(b))
    else
    match (a, b)
    case (Error, Error) => true
    case (Null, Null) => true
    case (Boolean(x), Boolean(y)) => x == y
    case (String(s), String(t)) => CStr(s) == CStr(t)
    case (Array(xs, _), Array(ys, _)) =>
      |xs| == |ys| && forall i | 0 <= i < |xs| :: JsonEquals(xs[i], ys[i])
    case (Object(ms, _), Object(ns, _)) =>
      |ms| == |ns| && MembersEqual(ms, ns, 0)
    case _ => false
  }

  /** The loop over the first object's names, from the `i`-th on. */
  predicate MembersEqual(ms: seq<Member>, ns: seq<Member>, i: nat)
    requires i <= |ms|
    decreases ms, |ms| - i + 1
  {
    i < |ms| ==>
      var j := Find(ms, ms[i].name);
      (if j < |ms| then JsonEquals(ms[j].value, Lookup(ns, ms[i].name)) else Lookup(ns, ms[i].name) == Error)
      && MembersEqual(ms, ns, i + 1)
  }

  ghost function Names(ms: seq<Member>): set<string> {
    set i | 0 <= i < |ms| :: ms[i].name
  }

  /** Distinct names are as many as the members. */
  lemma {:induction false} CountNames(ms: seq<Member>)
    requires DistinctNames(ms)
    ensures |Names(ms)| == |ms|
  {
    if ms != [] {
      var rest := ms[1..];
      CountNames(rest);
      assert Names(ms) == {ms[0].name} + Names(rest) by {
        forall n | n in Names(ms) ensures n in {ms[0].name} + Names(rest) {
          var i :| 0 <= i < |ms| && ms[i].name == n;
          assert i > 0 ==> rest[i - 1] == ms[i];
        }
        forall n | n in Names(rest) ensures n in Names(ms) {
          var i :| 0 <= i < |rest| && rest[i].name == n;
          assert ms[i + 1] == rest[i];
        }
      }
      assert ms[0].name !in Names(rest);
    }
  }

  /** The field map of an object is its lookup. */
  lemma {:induction false} FieldsAreLookups(ms: seq<Member>)
    ensures Fields(ms).Keys == Names(ms)
    ensures forall k | k in Fields(ms) :: Find(ms, k) < |ms| && Fields(ms)[k] == Meaning(ms[Find(ms, k)].value)
  {
    if ms != [] {
      FieldsAreLookups(ms[1..]);
      NamesOfFirst(ms);
      forall k | k in Fields(ms)
        ensures Find(ms, k) < |ms| && Fields(ms)[k] == Meaning(ms[Find(ms, k)].value)
      {
        if k != ms[0].name {
          assert k in Fields(ms[1..]) && Find(ms, k) == 1 + Find(ms[1..], k);
        }
      }
    }
  }

  lemma NamesOfFirst(ms: seq<Member>)
    requires ms != []
    ensures Names(ms) == {ms[0].name} + Names(ms[1..])
  {
    assert forall i | 0 < i < |ms| :: ms[i] == ms[1..][i - 1];
    assert forall i | 0 <= i < |ms| - 1 :: ms[1..][i] == ms[i + 1];
  }

  /** A set inside another of the same size is that set. */
  lemma {:induction false} Pigeonhole(a: set<string>, b: set<string>)
    requires a <= b && |a| == |b|
    ensures a == b
  {
    if exists x :: x in b && x !in a {
      var x :| x in b && x !in a;
      assert a <= b - {x};
      SubsetSize(a, b - {x});
    }
  }

  lemma {:induction false} SubsetSize(a: set<string>, b: set<string>)
    requires a <= b
    ensures |a| <= |b|
  {
    if a != {} {
      var x :| x in a;
      SubsetSize(a - {x}, b - {x});
    }
  }

  /**
   Trees that can be compared: names are distinct and bound to values.  An array
   may hold NULL pointers, as removals leave them behind.
   */
  ghost predicate Comparable(v: Value) {
    match v
    case Array(items, _) => forall i | 0 <= i < |items| :: Comparable(items[i])
    case Object(ms, _) =>
      && DistinctNames(ms)
      && forall i | 0 <= i < |ms| :: ms[i].value != Error && Comparable(ms[i].value)
    case _ => true
  }

  lemma {:induction false} WellFormedComparable(v: Value)
    requires WellFormed(v)
    ensures Comparable(v)
    decreases v
  {
    match v
    case Array(items, _) =>
      forall i | 0 <= i < |items| ensures Comparable(items[i]) { WellFormedComparable(items[i]); }
    case Object(ms, _) =>
      forall i | 0 <= i < |ms| ensures Comparable(ms[i].value) { WellFormedComparable(ms[i].value); }
    case _ =>
  }

  // ------------------------------------------------------- sameness of meaning

  /** A missing name is looked up as NULL. */
  function FieldOf(fields: map<string, Tree>, name: string): Tree {
    if name in fields then fields[name] else NoTree
  }

  /** The reference: sameness up to the tolerance on numbers, blind to order and capacity. */
  ghost predicate Same(a: Tree, b: Tree)
    decreases a
  {
    match (a, b)
    case (NoTree, NoTree) => true
    case (NullTree, NullTree) => true
    case (BooleanTree(x), BooleanTree(y)) => x == y
    case (NumberTree(x), NumberTree(y)) => Close(x, y)
    case (StringTree(s), StringTree(t)) => s == t
    case (ArrayTree(xs), ArrayTree(ys)) => |xs| == |ys| && forall i | 0 <= i < |xs| :: Same(xs[i], ys[i])
    case (ObjectTree(xs), ObjectTree(ys)) => |xs| == |ys| && forall k | k in xs :: Same(xs[k], FieldOf(ys, k))
    case _ => false
  }

  /** On all trees that can be compared, json_value_equals decides sameness of meaning. */
  lemma {:induction false} EqualsSame(a: Value, b: Value)
    requires Comparable(a) && Comparable(b)
    ensures JsonEquals(a, b) <==> Same(Meaning(a), Meaning(b))
    decreases a, 0
  {
    hide JsonEquals, MembersEqual, Fields, Same, Meaning;
    if a.Array? && b.Array? {
      var xs, ys := a.items, b.items;
      forall i | 0 <= i < |xs| && i < |ys|
        ensures JsonEquals(xs[i], ys[i]) <==> Same(Meaning(xs[i]), Meaning(ys[i]))
      {
        EqualsSame(xs[i], ys[i]);
      }
      ArraysEqualMeaning(xs, a.cap, ys, b.cap);
    } else if a.Object? && b.Object? {
      ObjectsEqualMeaning(a.members, b.members);
      ObjectsByMembers(a.members, a.cap, b.members, b.cap);
    } else {
      OthersEqualSame(a, b);
    }
  }

  lemma ObjectsByMembers(ms: seq<Member>, c: nat, ns: seq<Member>, d: nat)
    ensures JsonEquals(Object(ms, c), Object(ns, d)) <==> |ms| == |ns| && MembersEqual(ms, ns, 0)
    ensures Meaning(Object(ms, c)) == ObjectTree(Fields(ms)) && Meaning(Object(ns, d)) == ObjectTree(Fields(ns))
  {
    hide MembersEqual, Fields;
  }

  lemma OthersEqualSame(a: Value, b: Value)
    requires !(a.Array? && b.Array?) && !(a.Object? && b.Object?)
    ensures JsonEquals(a, b) <==> Same(Meaning(a), Meaning(b))
  {
    hide MembersEqual, Fields, Close;
  }

  lemma ArraysEqualMeaning(xs: seq<Value>, c: nat, ys: seq<Value>, d: nat)
    requires forall i | 0 <= i < |xs| && i < |ys| ::
               JsonEquals(xs[i], ys[i]) <==> Same(Meaning(xs[i]), Meaning(ys[i]))
    ensures JsonEquals(Array(xs, c), Array(ys, d)) <==> Same(Meaning(Array(xs, c)), Meaning(Array(ys, d)))
  {
    var ts, us := Meaning(Array(xs, c)).items, Meaning(Array(ys, d)).items;
    assert forall i | 0 <= i < |xs| :: ts[i] == Meaning(xs[i]);
    assert forall i | 0 <= i < |ys| :: us[i] == Meaning(ys[i]);
    assert |ts| == |xs| && |us| == |ys|;
    hide Meaning;
    if JsonEquals(Array(xs, c), Array(ys, d)) {
      assert forall i | 0 <= i < |ts| :: Same(ts[i], us[i]);
    }
  }

  /** The loop finds every name of `ms` in `ns` with the same meaning. */
  ghost predicate FieldsAgree(ms: seq<Member>, ns: seq<Member>, i: nat) {
    forall k | i <= k < |ms| :: Same(Meaning(ms[k].value), FieldOf(Fields(ns), ms[k].name))
  }

  lemma FieldsAgreeStep(ms: seq<Member>, ns: seq<Member>, i: nat)
    requires i < |ms|
    ensures FieldsAgree(ms, ns, i) <==>
            Same(Meaning(ms[i].value), FieldOf(Fields(ns), ms[i].name)) && FieldsAgree(ms, ns, i + 1)
  {
    hide Fields, Meaning, Same, FieldOf;
  }

  lemma NothingToAgree(ms: seq<Member>, ns: seq<Member>)
    ensures FieldsAgree(ms, ns, |ms|)
  {
  }

  lemma NamesOf(ms: seq<Member>, name: string)
    ensures name in Names(ms) <==> HasName(ms, name)
  {
  }

  /** Looking a name up gives what the map binds to it. */
  lemma LookupMeaning(ms: seq<Member>, name: string)
    ensures Meaning(Lookup(ms, name)) == FieldOf(Fields(ms), name)
  {
    hide Fields, Names;
    FieldsAreLookups(ms);
    NamesOf(ms, name);
    FindAbsent(ms, name);
  }

  lemma {:induction false} MembersEqualMeaning(ms: seq<Member>, ns: seq<Member>, i: nat)
    requires i <= |ms| && DistinctNames(ms)
    requires forall k | 0 <= k < |ms| :: Comparable(ms[k].value)
    requires forall k | 0 <= k < |ns| :: Comparable(ns[k].value)
    ensures MembersEqual(ms, ns, i) <==> FieldsAgree(ms, ns, i)
    decreases ms, |ms| - i
  {
    hide Meaning, JsonEquals, Fields, Comparable, FieldsAgree, Same, FieldOf;
    if i < |ms| {
      FindByIndex(ms, i);
      var name := ms[i].name;
      LookupMeaning(ns, name);
      NullIsComparable();
      EqualsSame(ms[i].value, Lookup(ns, name));
      MembersEqualMeaning(ms, ns, i + 1);
      FieldsAgreeStep(ms, ns, i);
    } else {
      NothingToAgree(ms, ns);
    }
  }

  lemma NullIsComparable()
    ensures Comparable(Error)
  {
  }

  /** Comparing counts and looking up the names of one side decides sameness of the two maps. */
  lemma {:induction false} ObjectsEqualMeaning(ms: seq<Member>, ns: seq<Member>)
    requires DistinctNames(ms) && DistinctNames(ns)
    requires forall k | 0 <= k < |ms| :: ms[k].value != Error && Comparable(ms[k].value)
    requires forall k | 0 <= k < |ns| :: ns[k].value != Error && Comparable(ns[k].value)
    ensures |ms| == |ns| && MembersEqual(ms, ns, 0) <==> Same(ObjectTree(Fields(ms)), ObjectTree(Fields(ns)))
    decreases ms, |ms| + 1
  {
    hide Comparable, MembersEqual, Fields, FieldsAgree, Meaning, DistinctNames;
    MembersEqualMeaning(ms, ns, 0);
    CountFields(ms);
    CountFields(ns);
    AgreementIsSameness(ms, ns);
  }

  lemma CountFields(ms: seq<Member>)
    requires DistinctNames(ms)
    ensures |Fields(ms)| == |ms|
  {
    hide Fields, Names;
    FieldsAreLookups(ms);
    CountNames(ms);
    assert |Fields(ms).Keys| == |Fields(ms)|;
  }

  /** Agreement member by member is agreement name by name. */
  lemma AgreementIsSameness(ms: seq<Member>, ns: seq<Member>)
    requires DistinctNames(ms)
    ensures FieldsAgree(ms, ns, 0) <==> forall k | k in Fields(ms) :: Same(Fields(ms)[k], FieldOf(Fields(ns), k))
  {
    hide Fields, Meaning, Same, FieldOf;
    FieldsAreLookups(ms);
    if FieldsAgree(ms, ns, 0) {
      forall k | k in Fields(ms) ensures Same(Fields(ms)[k], FieldOf(Fields(ns), k)) {
        assert ms[Find(ms, k)].name == k;
      }
    }
    if forall k | k in Fields(ms) :: Same(Fields(ms)[k], FieldOf(Fields(ns), k)) {
      forall k | 0 <= k < |ms| ensures Same(Meaning(ms[k].value), FieldOf(Fields(ns), ms[k].name)) {
        FindByIndex(ms, k);
        assert ms[k].name in Names(ms);
      }
    }
  }

  // -------------------------------------------------- what sameness is in general

  /** No name is bound to a NULL pointer. */
  ghost predicate Bound(t: Tree)
    decreases t
  {
    match t
    case ArrayTree(items) => forall i | 0 <= i < |items| :: Bound(items[i])
    case ObjectTree(fields) => forall k | k in fields :: fields[k] != NoTree && Bound(fields[k])
    case _ => true
  }

  lemma {:induction false} ComparableBound(v: Value)
    requires Comparable(v)
    ensures Bound(Meaning(v))
    decreases v
  {
    match v
    case Array(items, _) =>
      forall i | 0 <= i < |items| ensures Bound(Meaning(items[i])) { ComparableBound(items[i]); }
    case Object(ms, _) =>
      FieldsAreLookups(ms);
      forall k | k in Fields(ms) ensures Fields(ms)[k] != NoTree && Bound(Fields(ms)[k]) {
        ComparableBound(ms[Find(ms, k)].value);
      }
    case _ =>
  }

  /** The pigeonhole: equal counts, and every name of one side bound on the other, make the names the same. */
  lemma SameNames(xs: map<string, Tree>, ys: map<string, Tree>)
    requires |xs| == |ys| && forall k | k in xs :: xs[k] != NoTree && Same(xs[k], FieldOf(ys, k))
    ensures xs.Keys == ys.Keys
  {
    assert forall k | k in xs :: k in ys;
    assert |xs.Keys| == |xs| && |ys.Keys| == |ys|;
    Pigeonhole(xs.Keys, ys.Keys);
  }

  lemma {:induction false} SameReflexive(a: Tree)
    ensures Same(a, a)
    decreases a
  {
    match a
    case ArrayTree(items) =>
      forall i | 0 <= i < |items| ensures Same(items[i], items[i]) { SameReflexive(items[i]); }
    case ObjectTree(fields) =>
      forall k | k in fields ensures Same(fields[k], FieldOf(fields, k)) { SameReflexive(fields[k]); }
    case _ =>
  }

  /** Looking up the names of one side alone is symmetric all the same. */
  lemma {:induction false} SameSymmetric(a: Tree, b: Tree)
    requires Bound(a) && Bound(b) && Same(a, b)
    ensures Same(b, a)
    decreases a
  {
    match (a, b) {
      case (ArrayTree(s), ArrayTree(t)) =>
        forall i | 0 <= i < |t| ensures Same(t[i], s[i]) { SameSymmetric(s[i], t[i]); }
      case (ObjectTree(s), ObjectTree(t)) =>
        SameNames(s, t);
        forall k | k in t ensures Same(t[k], FieldOf(s, k)) {
          assert k in s.Keys;
          SameSymmetric(s[k], t[k]);
        }
      case _ =>
    }
  }

  // ------------------------------------------------------------- whole numbers

  ghost predicate Whole(t: Tree)
    decreases t
  {
    match t
    case NumberTree(x) => x == x.Floor as real
    case ArrayTree(items) => forall i | 0 <= i < |items| :: Whole(items[i])
    case ObjectTree(fields) => forall k | k in fields :: Whole(fields[k])
    case _ => true
  }

  lemma {:induction false} WholeMeaning(v: Value)
    requires WholeNumbers(v)
    ensures Whole(Meaning(v))
    decreases v
  {
    match v
    case Array(items, _) =>
      forall i | 0 <= i < |items| ensures Whole(Meaning(items[i])) { WholeMeaning(items[i]); }
    case Object(ms, _) =>
      FieldsAreLookups(ms);
      forall k | k in Fields(ms) ensures Whole(Fields(ms)[k]) {
        WholeMeaning(ms[Find(ms, k)].value);
      }
    case _ =>
  }

  lemma {:induction false} SameOfWhole(a: Tree, b: Tree)
    requires Whole(a) && Whole(b) && Bound(a) && Bound(b)
    ensures Same(a, b) <==> a == b
    decreases a
  {
    match (a, b) {
      case (NumberTree(x), NumberTree(y)) =>
        CloseIntegers(x.Floor, y.Floor);
      case (ArrayTree(xs), ArrayTree(ys)) =>
        forall i | 0 <= i < |xs| && i < |ys| ensures Same(xs[i], ys[i]) <==> xs[i] == ys[i] {
          SameOfWhole(xs[i], ys[i]);
        }
      case (ObjectTree(xs), ObjectTree(ys)) =>
        forall k | k in xs && k in ys ensures Same(xs[k], ys[k]) <==> xs[k] == ys[k] {
          SameOfWhole(xs[k], ys[k]);
        }
        if Same(a, b) {
          SameNames(xs, ys);
        }
      case _ =>
    }
  }

  /** On whole numbers the reference is equality of meaning. */
  lemma EqualsMeaning(a: Value, b: Value)
    requires Comparable(a) && Comparable(b) && WholeNumbers(a) && WholeNumbers(b)
    ensures JsonEquals(a, b) <==> Meaning(a) == Meaning(b)
  {
    EqualsSame(a, b);
    ComparableBound(a);
    ComparableBound(b);
    WholeMeaning(a);
    WholeMeaning(b);
    SameOfWhole(Meaning(a), Meaning(b));
  }

  /** json_value_equals is reflexive and symmetric on all trees that can be compared, and an equivalence on whole numbers. */
  lemma EqualsIsEquivalence(a: Value, b: Value, c: Value)
    requires Comparable(a) && Comparable(b) && Comparable(c)
    ensures JsonEquals(a, a)
    ensures JsonEquals(a, b) ==> JsonEquals(b, a)
    ensures WholeNumbers(a) && WholeNumbers(b) && WholeNumbers(c) ==>
              (JsonEquals(a, b) && JsonEquals(b, c) ==> JsonEquals(a, c))
  {
    hide Comparable, WholeNumbers, JsonEquals, Same, Meaning, Bound;
    EqualsSame(a, a);
    SameReflexive(Meaning(a));
    EqualsSame(a, b);
    EqualsSame(b, a);
    ComparableBound(a);
    ComparableBound(b);
    if Same(Meaning(a), Meaning(b)) {
      SameSymmetric(Meaning(a), Meaning(b));
    }
    if WholeNumbers(a) && WholeNumbers(b) && WholeNumbers(c) {
      EqualsMeaning(a, b);
      EqualsMeaning(b, c);
      EqualsMeaning(a, c);
    }
  }

  /** Without distinct names the relation is not symmetric. */
  lemma DuplicateNamesBreakSymmetry()
    ensures var a := Object([Member("x", Null), Member("x", Null)], 15);
            var b := Object([Member("x", Null), Member("y", Null)], 15);
            JsonEquals(a, b) && !JsonEquals(b, a)
  {
    var ms, ns := [Member("x", Null), Member("x", Null)], [Member("x", Null), Member("y", Null)];
    assert Find(ms, "x") == 0 && Find(ns, "x") == 0;
    assert "x"[0] != "y"[0];
    assert Find(ns, "y") == 1;
    assert Find(ms, "y") == 2;
    assert MembersEqual(ms, ns, 2);
    assert MembersEqual(ms, ns, 1);
    assert !MembersEqual(ns, ms, 1);
  }

  /** Reordering the members of an object gives an equal object. */
  lemma EqualsIgnoresOrder(ms: seq<Member>, ns: seq<Member>, c: nat, d: nat)
    requires WellFormed(Object(ms, c)) && WellFormed(Object(ns, d))
    requires multiset(ms) == multiset(ns)
    ensures JsonEquals(Object(ms, c), Object(ns, d))
  {
    assert |ms| == |multiset(ms)| == |multiset(ns)| == |ns|;
    WellFormedComparable(Object(ms, c));
    WellFormedComparable(Object(ns, d));
    forall k | 0 <= k < |ms| ensures Same(Meaning(ms[k].value), FieldOf(Fields(ns), ms[k].name)) {
      assert ms[k] in multiset(ns);
      var j :| 0 <= j < |ns| && ns[j] == ms[k];
      FindByIndex(ns, j);
      LookupMeaning(ns, ms[k].name);
      SameReflexive(Meaning(ms[k].value));
    }
    MembersEqualMeaning(ms, ns, 0);
  }

  // ------------------------------------------------------------- deep copies

  /** json_value_deep_copy: `Error` where the library returns NULL. */
  function DeepCopy(v: Value): Value
    decreases v, 0
  {
    match v
    case String(s) => String(CStr(s))
    case Array(items, _) => CopyItems(items, 0, [], 0)
    case Object(ms, _) => CopyMembers(ms, 0, [], 0)
    case _ => v
  }

  function CopyItems(items: seq<Value>, i: nat, done: seq<Value>, cap: nat): (r: Value)
    requires i <= |items|
    decreases items, |items| - i + 1
  {
    if i == |items| then Array(done, cap)
    else
      var c := DeepCopy(items[i]);
      var added := AddItem(done, cap, c);
      if c == Error || !added.ok then Error else CopyItems(items, i + 1, added.items, added.cap)
  }

  function CopyMembers(ms: seq<Member>, i: nat, done: seq<Member>, cap: nat): (r: Value)
    requires i <= |ms|
    decreases ms, |ms| - i + 1
  {
    if i == |ms| then Object(done, cap)
    else
      var j := Find(ms, ms[i].name);
      var c := if j < |ms| then DeepCopy(ms[j].value) else Error;
      var added := AddMember(done, cap, ms[i].name, c);
      if c == Error || !added.ok then Error else CopyMembers(ms, i + 1, added.members, added.cap)
  }

  /**
   A well-formed tree is always copied: no capacity limit is met, and the copy
   is well-formed, has the same members in the same order, and is equal.
   */
  lemma DeepCopyEquals(v: Value)
    requires WellFormed(v)
    ensures WellFormed(DeepCopy(v)) && Trim(DeepCopy(v)) == Trim(v)
    ensures JsonEquals(v, DeepCopy(v))
  {
    DeepCopySame(v);
    WellFormedComparable(v);
    WellFormedComparable(DeepCopy(v));
    TrimMeaning(v);
    TrimMeaning(DeepCopy(v));
    EqualsSame(v, DeepCopy(v));
    SameReflexive(Meaning(v));
  }

  /** Capacities carry no meaning. */
  lemma {:induction false} TrimMeaning(v: Value)
    ensures Meaning(Trim(v)) == Meaning(v)
    decreases v, 0
  {
    match v
    case Array(items, _) =>
      forall i | 0 <= i < |items| ensures Meaning(Trim(items[i])) == Meaning(items[i]) {
        TrimMeaning(items[i]);
      }
    case Object(ms, _) => TrimFields(ms);
    case _ =>
  }

  lemma {:induction false} TrimFields(ms: seq<Member>)
    ensures Fields(TrimMembers(ms)) == Fields(ms)
    decreases ms, 1
  {
    if ms != [] {
      TrimMeaning(ms[0].value);
      TrimFields(ms[1..]);
      assert TrimMembers(ms)[1..] == TrimMembers(ms[1..]);
    }
  }

  lemma {:induction false} DeepCopySame(v: Value)
    requires WellFormed(v)
    ensures WellFormed(DeepCopy(v)) && Trim(DeepCopy(v)) == Trim(v)
    decreases v, 0
  {
    match v
    case Array(items, _) => CopyItemsSame(items, 0, [], 0);
    case Object(ms, _) => CopyMembersSame(ms, 0, [], 0);
    case _ =>
  }

  lemma {:induction false} CopyItemsSame(items: seq<Value>, i: nat, done: seq<Value>, cap: nat)
    requires i <= |items| <= ARRAY_MAX_CAPACITY && forall k | 0 <= k < |items| :: WellFormed(items[k])
    requires |done| == i && InChain(cap) && i <= cap <= ARRAY_MAX_CAPACITY
    requires forall k | 0 <= k < i :: WellFormed(done[k]) && Trim(done[k]) == Trim(items[k])
    ensures WellFormed(CopyItems(items, i, done, cap))
    ensures Trim(CopyItems(items, i, done, cap)) == Array(TrimItems(items), |items|)
    decreases items, |items| - i + 1
  {
    hide DeepCopy;
    if i < |items| {
      DeepCopySame(items[i]);
      ChainGrows(i, cap, ARRAY_MAX_CAPACITY);
      CopyItemsSame(items, i + 1, done + [DeepCopy(items[i])], GrownCapacity(i, cap));
    } else {
      assert TrimItems(done) == TrimItems(items);
    }
  }

  /** A NULL pointer among the items ends the copy. */
  lemma {:induction false} CopyStopsAtNull(items: seq<Value>, i: nat, done: seq<Value>, cap: nat, k: nat)
    requires i <= k < |items| && items[k] == Error
    ensures CopyItems(items, i, done, cap) == Error
    decreases k - i
  {
    hide AddItem;
    if i < k {
      var added := AddItem(done, cap, DeepCopy(items[i]));
      CopyStopsAtNull(items, i + 1, added.items, added.cap, k);
    }
  }

  /** After json_array_remove an array can be copied if and only if it was its last item that went. */
  lemma RemovedCopied(items: seq<Value>, ix: nat, cap: nat)
    requires WellFormed(Array(items, cap)) && ix < |items|
    ensures DeepCopy(Array(RemoveItem(items, ix).value, cap)) != Error <==> ix == |items| - 1
  {
    var r := RemoveItem(items, ix).value;
    if ix == |items| - 1 {
      assert WellFormed(Array(r, cap));
      DeepCopySame(Array(r, cap));
    } else {
      CopyStopsAtNull(r, 0, [], 0, ix);
    }
  }

  lemma {:induction false} CopyMembersSame(ms: seq<Member>, i: nat, done: seq<Member>, cap: nat)
    requires i <= |ms| <= OBJECT_MAX_CAPACITY && DistinctNames(ms)
    requires forall k | 0 <= k < |ms| :: NulFree(ms[k].name) && WellFormed(ms[k].value)
    requires |done| == i && InChain(cap) && i <= cap <= OBJECT_MAX_CAPACITY
    requires forall k | 0 <= k < i :: done[k].name == ms[k].name
    requires forall k | 0 <= k < i :: WellFormed(done[k].value) && Trim(done[k].value) == Trim(ms[k].value)
    ensures WellFormed(CopyMembers(ms, i, done, cap))
    ensures Trim(CopyMembers(ms, i, done, cap)) == Object(TrimMembers(ms), |ms|)
    decreases ms, |ms| - i + 1
  {
    hide DeepCopy, AddMember, GrownCapacity, InChain, WellFormed, Trim, TrimMembers, DistinctNames;
    if i < |ms| {
      FindByIndex(ms, i);
      var name, c := ms[i].name, DeepCopy(ms[i].value);
      DeepCopySame(ms[i].value);
      ChainGrows(i, cap, OBJECT_MAX_CAPACITY);
      NotAmongFirst(ms, i);
      AddsNewName(done, cap, name, c);
      CopyMembersSame(ms, i + 1, done + [Member(name, c)], GrownCapacity(i, cap));
    } else {
      MembersCopied(ms, done, cap);
    }
  }

  lemma NotAmongFirst(ms: seq<Member>, i: nat)
    requires DistinctNames(ms) && i < |ms|
    ensures forall k | 0 <= k < i :: ms[k].name != ms[i].name
  {
  }

  lemma MembersCopied(ms: seq<Member>, done: seq<Member>, cap: nat)
    requires DistinctNames(ms) && |done| == |ms| <= cap <= OBJECT_MAX_CAPACITY
    requires forall k | 0 <= k < |ms| :: NulFree(ms[k].name) && done[k].name == ms[k].name
    requires forall k | 0 <= k < |ms| :: WellFormed(done[k].value) && Trim(done[k].value) == Trim(ms[k].value)
    ensures WellFormed(Object(done, cap)) && Trim(Object(done, cap)) == Object(TrimMembers(ms), |ms|)
  {
    assert TrimMembers(done) == TrimMembers(ms);
  }

  lemma AddsNewName(done: seq<Member>, cap: nat, name: string, c: Value)
    requires forall k | 0 <= k < |done| :: done[k].name != name
    requires WellFormed(c) && GrownCapacity(|done|, cap) <= OBJECT_MAX_CAPACITY
    ensures c != Error
    ensures AddMember(done, cap, name, c) == AddResult(true, done + [Member(name, c)], GrownCapacity(|done|, cap))
  {
  }

  /** The copying loops, filling new containers. */
  method JsonValueDeepCopy(v: Value) returns (r: Value)
    ensures r == DeepCopy(v)
    decreases v, 1
  {
    match v
    case String(s) => r := String(CStr(s));
    case Array(items, _) => r := DeepCopyArray(items);
    case Object(ms, _) => r := DeepCopyObject(ms);
    case _ => r := v;
  }

  method DeepCopyArray(items: seq<Value>) returns (r: Value)
    ensures r == CopyItems(items, 0, [], 0)
    decreases items, 0
  {
    var copy := new JsonArray();
    var i := 0;
    while i < |items|
      invariant 0 <= i <= |items| && copy.Valid() && fresh(copy) && fresh(copy.items)
      invariant CopyItems(items, i, copy.Contents(), copy.capacity) == CopyItems(items, 0, [], 0)
    {
      var c := JsonValueDeepCopy(items[i]);
      if c == Error {
        return Error;
      }
      var ok := copy.Add(c);
      if !ok {
        return Error;
      }
      i := i + 1;
    }
    r := Array(copy.Contents(), copy.capacity);
  }

  /** One round of the loop over the members; the name is found, as it is there. */
  lemma CopyMembersStep(ms: seq<Member>, i: nat, done: seq<Member>, cap: nat)
    requires i < |ms|
    ensures var j := Find(ms, ms[i].name);
            && j < |ms|
            && var c := DeepCopy(ms[j].value);
               var added := AddMember(done, cap, ms[i].name, c);
               CopyMembers(ms, i, done, cap) ==
               if c == Error || !added.ok then Error else CopyMembers(ms, i + 1, added.members, added.cap)
  {
    hide DeepCopy, AddMember;
  }

  method DeepCopyObject(ms: seq<Member>) returns (r: Value)
    ensures r == CopyMembers(ms, 0, [], 0)
    decreases ms, 0
  {
    hide DeepCopy, DistinctNames, AddMember, Find, CopyMembers;
    var copy := new JsonObject();
    var i := 0;
    while i < |ms|
      invariant 0 <= i <= |ms| && copy.Valid()
      invariant fresh(copy) && fresh(copy.names) && fresh(copy.values)
      invariant CopyMembers(ms, i, copy.Contents(), copy.capacity) == CopyMembers(ms, 0, [], 0)
    {
      CopyMembersStep(ms, i, copy.Contents(), copy.capacity);
      var j := Find(ms, ms[i].name);
      var c := JsonValueDeepCopy(ms[j].value);
      if c == Error {
        return Error;
      }
      var ok := copy.Add(ms[i].name, c);
      if !ok {
        return Error;
      }
      i := i + 1;
    }
    CopyMembersEnds(ms, copy.Contents(), copy.capacity);
    r := Object(copy.Contents(), copy.capacity);
  }

  lemma CopyMembersEnds(ms: seq<Member>, done: seq<Member>, cap: nat)
    ensures CopyMembers(ms, |ms|, done, cap) == Object(done, cap)
  {
  }
}
