/**
 Equality of trees whose numbers may be fractions.  Numbers less than
 0.000001 apart count as equal, so whether equality is an equivalence depends
 on the numbers that occur.
 */
module JsonTolerance {
  import opened JsonValues
  import opened JsonEquality

  const EPSILON := 0.000001

  /** Every number of the tree is one of `xs`. */
  ghost predicate NumbersIn(v: Value, xs: seq<real>)
    decreases v
  {
    match v
    case Number(n) => n as real in xs
    case Fraction(x) => x in xs
    case Array(items, _) => forall i | 0 <= i < |items| :: NumbersIn(items[i], xs)
    case Object(ms, _) => forall i | 0 <= i < |ms| :: NumbersIn(ms[i].value, xs)
    case _ => true
  }

  /** The same of what a tree denotes. */
  ghost predicate Over(t: Tree, xs: seq<real>)
    decreases t
  {
    match t
    case NumberTree(x) => x in xs
    case ArrayTree(items) => forall i | 0 <= i < |items| :: Over(items[i], xs)
    case ObjectTree(fields) => forall k | k in fields :: Over(fields[k], xs)
    case _ => true
  }

  lemma {:induction false} MeaningOver(v: Value, xs: seq<real>)
    requires NumbersIn(v, xs)
    ensures Over(Meaning(v), xs)
    decreases v
  {
    match v
    case Array(items, _) =>
      forall i | 0 <= i < |items| ensures Over(Meaning(items[i]), xs) { MeaningOver(items[i], xs); }
    case Object(ms, _) =>
      FieldsAreLookups(ms);
      forall k | k in Fields(ms) ensures Over(Fields(ms)[k], xs) {
        MeaningOver(ms[Find(ms, k)].value, xs);
      }
    case _ =>
  }

  // -------------------------------------------------------------- equivalence

  /** Trees that can be compared, with no numbers but these. */
  ghost predicate Ranges(v: Value, xs: seq<real>) {
    Comparable(v) && NumbersIn(v, xs)
  }

  ghost predicate EquivalenceOver(xs: seq<real>) {
    && (forall a | Ranges(a, xs) :: JsonEquals(a, a))
    && (forall a, b | Ranges(a, xs) && Ranges(b, xs) && JsonEquals(a, b) :: JsonEquals(b, a))
    && (forall a, b, c | Ranges(a, xs) && Ranges(b, xs) && Ranges(c, xs) && JsonEquals(a, b) && JsonEquals(b, c) ::
          JsonEquals(a, c))
  }

  ghost predicate CloseTransitiveOn(xs: seq<real>) {
    forall x, y, z | x in xs && y in xs && z in xs && Close(x, y) && Close(y, z) :: Close(x, z)
  }

  lemma {:induction false} SameTransitive(a: Tree, b: Tree, c: Tree, xs: seq<real>)
    requires CloseTransitiveOn(xs)
    requires Over(a, xs) && Over(b, xs) && Over(c, xs) && Bound(a) && Bound(b)
    requires Same(a, b) && Same(b, c)
    ensures Same(a, c)
    decreases a
  {
    hide CloseTransitiveOn, Close;
    match (a, b, c) {
      case (NumberTree(x), NumberTree(y), NumberTree(z)) => CloseTransitive(x, y, z, xs);
      case (ArrayTree(s), ArrayTree(t), ArrayTree(u)) =>
        forall i | 0 <= i < |s| ensures Same(s[i], u[i]) { SameTransitive(s[i], t[i], u[i], xs); }
      case (ObjectTree(s), ObjectTree(t), ObjectTree(u)) =>
        SameNames(s, t);
        SameNames(t, u);
        forall k | k in s ensures Same(s[k], FieldOf(u, k)) {
          assert k in t.Keys && k in u.Keys;
          SameTransitive(s[k], t[k], u[k], xs);
        }
      case _ =>
    }
  }

  lemma CloseTransitive(x: real, y: real, z: real, xs: seq<real>)
    requires CloseTransitiveOn(xs) && x in xs && y in xs && z in xs && Close(x, y) && Close(y, z)
    ensures Close(x, z)
  {
  }

  // ------------------------------------------------------- the exact condition

  ghost predicate Ascending(xs: seq<real>) {
    forall i, j | 0 <= i < j < |xs| :: xs[i] <= xs[j]
  }

  /** From `i` to `j` every step to the next number is within the tolerance. */
  predicate Run(xs: seq<real>, i: nat, j: nat)
    requires i <= j < |xs|
    decreases j - i
  {
    i < j ==> xs[j] - xs[j - 1] < EPSILON && Run(xs, i, j - 1)
  }

  /** What a caller can check: a run of such steps is itself within the tolerance. */
  predicate RunsAreShort(xs: seq<real>) {
    forall i, j | 0 <= i <= j < |xs| && Run(xs, i, j) :: xs[j] - xs[i] < EPSILON
  }

  /** Between close numbers of an ascending list there are only small steps. */
  lemma {:induction false} CloseMakesRun(xs: seq<real>, i: nat, j: nat)
    requires Ascending(xs) && i <= j < |xs| && xs[j] - xs[i] < EPSILON
    ensures Run(xs, i, j)
    decreases j
  {
    if i < j {
      assert xs[i] <= xs[j - 1] <= xs[j];
      CloseMakesRun(xs, i, j - 1);
    }
  }

  lemma {:induction false} RunsJoin(xs: seq<real>, i: nat, j: nat, k: nat)
    requires i <= j <= k < |xs| && Run(xs, i, j) && Run(xs, j, k)
    ensures Run(xs, i, k)
    decreases k
  {
    if j < k {
      RunsJoin(xs, i, j, k - 1);
    }
  }

  lemma {:induction false} RunIsShort(xs: seq<real>, i: nat, j: nat)
    requires Ascending(xs) && CloseTransitiveOn(xs) && i <= j < |xs| && Run(xs, i, j)
    ensures xs[j] - xs[i] < EPSILON
    decreases j
  {
    hide CloseTransitiveOn;
    if i < j {
      RunIsShort(xs, i, j - 1);
      assert xs[i] <= xs[j - 1] <= xs[j];
      CloseTransitive(xs[i], xs[j - 1], xs[j], xs);
    }
  }

  /** Two close pairs, going up: the ends are close. */
  lemma UpAndUp(xs: seq<real>, i: nat, j: nat, k: nat)
    requires Ascending(xs) && RunsAreShort(xs) && i <= j <= k < |xs|
    requires Close(xs[i], xs[j]) && Close(xs[j], xs[k])
    ensures Close(xs[i], xs[k])
  {
    CloseMakesRun(xs, i, j);
    CloseMakesRun(xs, j, k);
    RunsJoin(xs, i, j, k);
    assert i < k ==> xs[i] <= xs[k];
  }

  lemma CloseTransitiveExactly(xs: seq<real>)
    requires Ascending(xs)
    ensures CloseTransitiveOn(xs) <==> RunsAreShort(xs)
  {
    if CloseTransitiveOn(xs) {
      forall i, j | 0 <= i <= j < |xs| && Run(xs, i, j) ensures xs[j] - xs[i] < EPSILON {
        RunIsShort(xs, i, j);
      }
    }
    if RunsAreShort(xs) {
      forall x, y, z | x in xs && y in xs && z in xs && Close(x, y) && Close(y, z) ensures Close(x, z) {
        var i :| 0 <= i < |xs| && xs[i] == x;
        var j :| 0 <= j < |xs| && xs[j] == y;
        var k :| 0 <= k < |xs| && xs[k] == z;
        if i <= j <= k {
          UpAndUp(xs, i, j, k);
        } else if k <= j <= i {
          UpAndUp(xs, k, j, i);
        }
      }
    }
  }

  lemma EqualsTransitive(a: Value, b: Value, c: Value, xs: seq<real>)
    requires CloseTransitiveOn(xs)
    requires Ranges(a, xs) && Ranges(b, xs) && Ranges(c, xs) && JsonEquals(a, b) && JsonEquals(b, c)
    ensures JsonEquals(a, c)
  {
    hide CloseTransitiveOn, Comparable, NumbersIn, JsonEquals, Meaning, Same, Over, Bound;
    EqualsSame(a, b);
    EqualsSame(b, c);
    EqualsSame(a, c);
    ComparableBound(a);
    ComparableBound(b);
    MeaningOver(a, xs);
    MeaningOver(b, xs);
    MeaningOver(c, xs);
    SameTransitive(Meaning(a), Meaning(b), Meaning(c), xs);
  }

  /**
   The exact condition.  On the trees whose numbers are among an ascending list,
   json_value_equals is an equivalence if and only if every run of neighbours
   less than the tolerance apart spans less than the tolerance.
   */
  lemma EquivalenceExactly(xs: seq<real>)
    requires Ascending(xs)
    ensures EquivalenceOver(xs) <==> RunsAreShort(xs)
  {
    hide RunsAreShort, Ascending, Comparable, NumbersIn, JsonEquals;
    CloseTransitiveExactly(xs);
    if CloseTransitiveOn(xs) {
      forall a | Ranges(a, xs) ensures JsonEquals(a, a) {
        EqualsIsEquivalence(a, a, a);
      }
      forall a, b | Ranges(a, xs) && Ranges(b, xs) && JsonEquals(a, b) ensures JsonEquals(b, a) {
        EqualsIsEquivalence(a, b, b);
      }
      forall a, b, c | Ranges(a, xs) && Ranges(b, xs) && Ranges(c, xs) && JsonEquals(a, b) && JsonEquals(b, c)
        ensures JsonEquals(a, c)
      {
        EqualsTransitive(a, b, c, xs);
      }
    }
    if EquivalenceOver(xs) {
      forall x, y, z | x in xs && y in xs && z in xs && Close(x, y) && Close(y, z) ensures Close(x, z) {
        NumbersEqual(x, y, xs);
        NumbersEqual(y, z, xs);
        NumbersEqual(x, z, xs);
      }
    }
  }

  lemma NumbersEqual(x: real, y: real, xs: seq<real>)
    requires x in xs && y in xs
    ensures Ranges(Fraction(x), xs) && Ranges(Fraction(y), xs)
    ensures JsonEquals(Fraction(x), Fraction(y)) <==> Close(x, y)
  {
  }

  /** Three numbers a parser can read, on which equality is no equivalence. */
  lemma CloseIsNotTransitive()
    ensures JsonEquals(Fraction(0.0), Fraction(0.0000009)) && JsonEquals(Fraction(0.0000009), Fraction(0.0000018))
    ensures !JsonEquals(Fraction(0.0), Fraction(0.0000018))
    ensures !EquivalenceOver([0.0, 0.0000009, 0.0000018])
  {
    var xs := [0.0, 0.0000009, 0.0000018];
    EquivalenceExactly(xs);
    assert Run(xs, 0, 0);
    assert Run(xs, 0, 1);
    assert Run(xs, 0, 2);
  }
}
