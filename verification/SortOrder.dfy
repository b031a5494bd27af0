/**
 The order the sorts work in, and what a sorted permutation is.
 */
module SortOrder {

  /** `x` belongs strictly before `y`, ascending or descending. */
  predicate Before(x: int, y: int, asc: bool) {
    if asc then x < y else x > y
  }

  ghost predicate Sorted(s: seq<int>, asc: bool) {
    forall i, j | 0 <= i < j < |s| :: !Before(s[j], s[i], asc)
  }

  /** In order is, ascending, never falling, and else never rising. */
  lemma SortedMeans(s: seq<int>, asc: bool)
    requires Sorted(s, asc)
    ensures forall i, j | 0 <= i < j < |s| :: if asc then s[i] <= s[j] else s[i] >= s[j]
  {
  }

  ghost predicate Distinct(s: seq<int>) {
    forall i, j | 0 <= i < j < |s| :: s[i] != s[j]
  }

  /** What every sort here promises: the same elements, in order. */
  ghost predicate SortedPermutation(s: seq<int>, r: seq<int>, asc: bool) {
    multiset(r) == multiset(s) && Sorted(r, asc)
  }

  lemma PermutationMeans(s: seq<int>, r: seq<int>, asc: bool)
    requires SortedPermutation(s, r, asc)
    ensures forall i, j | 0 <= i < j < |r| :: if asc then r[i] <= r[j] else r[i] >= r[j]
  {
    SortedMeans(r, asc);
  }

  /** The first of a sorted sequence comes before all elements. */
  lemma SortedHead(s: seq<int>, asc: bool, x: int)
    requires Sorted(s, asc) && x in multiset(s)
    ensures s != [] && !Before(x, s[0], asc)
  {
  }

  lemma SortedTail(s: seq<int>, asc: bool)
    requires s != [] && Sorted(s, asc)
    ensures Sorted(s[1..], asc)
    ensures multiset(s[1..]) == multiset(s) - multiset{s[0]}
  {
    assert s == [s[0]] + s[1..];
  }

  /** Two sorted arrangements of the same elements start with the same element. */
  lemma SameFirst(r: seq<int>, t: seq<int>, asc: bool)
    requires r != [] && Sorted(r, asc) && Sorted(t, asc) && multiset(r) == multiset(t)
    ensures t != [] && r[0] == t[0]
  {
    hide Sorted;
    assert r[0] in multiset(r);
    SortedHead(t, asc, r[0]);
    assert t[0] in multiset(t);
    SortedHead(r, asc, t[0]);
  }

  lemma SameRest(r: seq<int>, t: seq<int>, asc: bool)
    requires r != [] && Sorted(r, asc) && Sorted(t, asc) && multiset(r) == multiset(t)
    ensures t != [] && r[0] == t[0] && Sorted(r[1..], asc) && Sorted(t[1..], asc)
    ensures multiset(r[1..]) == multiset(t[1..])
  {
    hide Sorted, Before;
    SameFirst(r, t, asc);
    SortedTail(r, asc);
    SortedTail(t, asc);
  }

  /** There is only one such arrangement, so quick, heap, merge and shell sort can only agree. */
  lemma {:induction false} SortedPermutationUnique(r: seq<int>, t: seq<int>, asc: bool)
    requires Sorted(r, asc) && Sorted(t, asc) && multiset(r) == multiset(t)
    ensures r == t
    decreases |r|
  {
    hide Sorted, Before;
    if r == [] {
      assert |t| == |multiset(t)| == |multiset(r)| == 0;
    } else {
      SameRest(r, t, asc);
      SortedPermutationUnique(r[1..], t[1..], asc);
      assert r == [r[0]] + r[1..] && t == [t[0]] + t[1..];
    }
  }

  /** Distinct elements are those that occur once. */
  lemma {:induction false} DistinctByCount(s: seq<int>)
    ensures Distinct(s) <==> forall x :: multiset(s)[x] <= 1
  {
    if s != [] {
      var h, t := s[0], s[1..];
      DistinctByCount(t);
      assert s == [h] + t;
      assert multiset(s) == multiset{h} + multiset(t);
      assert forall i | 0 < i < |s| :: s[i] == t[i - 1];
      assert Distinct(s) <==> Distinct(t) && h !in t;
      assert h in t <==> multiset(t)[h] >= 1;
      if Distinct(s) {
        forall x ensures multiset(s)[x] <= 1 {}
      } else if h in t {
        assert multiset(s)[h] >= 2;
      } else {
        var x :| multiset(t)[x] > 1;
        assert multiset(s)[x] > 1;
      }
    }
  }

  /** Two sequences of the same elements that agree outside a stretch have the same elements in it. */
  lemma SameElementsInside(s: seq<int>, t: seq<int>, b: nat, e: nat)
    requires |s| == |t| && b <= e <= |s| && multiset(s) == multiset(t)
    requires s[..b] == t[..b] && s[e..] == t[e..]
    ensures multiset(s[b..e]) == multiset(t[b..e])
  {
    ThreeParts(s, b, e);
    ThreeParts(t, b, e);
    Cancel(multiset(s[..b]) + multiset(s[e..]), multiset(s[b..e]), multiset(t[b..e]));
  }

  lemma ThreeParts(s: seq<int>, b: nat, e: nat)
    requires b <= e <= |s|
    ensures multiset(s) == multiset(s[..b]) + multiset(s[e..]) + multiset(s[b..e])
  {
    assert s == s[..b] + s[b..e] + s[e..];
  }

  lemma Cancel(a: multiset<int>, x: multiset<int>, y: multiset<int>)
    requires a + x == a + y
    ensures x == y
  {
    assert x == (a + x) - a;
    assert y == (a + y) - a;
  }

  /** Agreeing outside a stretch, with the same elements in it, is having the same elements in all. */
  lemma SameElementsOutside(s: seq<int>, t: seq<int>, b: nat, e: nat)
    requires |s| == |t| && b <= e <= |s| && multiset(s[b..e]) == multiset(t[b..e])
    requires s[..b] == t[..b] && s[e..] == t[e..]
    ensures multiset(s) == multiset(t)
  {
    ThreeParts(s, b, e);
    ThreeParts(t, b, e);
  }

  /** Moving the hole from `h` to `g` moves the element of `g` to `h`. */
  lemma HoleMoves(s: seq<int>, h: nat, g: nat, key: int)
    requires h < |s| && g < |s|
    ensures multiset(s[h := s[g]][g := key]) == multiset(s[h := key])
  {
  }

  /** The elements from `b` to `e`. */
  function Range(s: seq<int>, b: nat, e: nat): seq<int>
    requires b <= e < |s|
  {
    s[b..e + 1]
  }

  lemma RangeSortedMeans(s: seq<int>, b: nat, e: nat, asc: bool)
    requires b <= e < |s| && Sorted(Range(s, b, e), asc)
    ensures forall i, j | b <= i < j <= e :: if asc then s[i] <= s[j] else s[i] >= s[j]
  {
    SortedMeans(Range(s, b, e), asc);
    assert forall i | b <= i <= e :: s[i] == Range(s, b, e)[i - b];
  }

  /** Outside the range nothing changed, and inside it the elements are the same. */
  ghost predicate RangePermutation(s: seq<int>, r: seq<int>, b: nat, e: nat)
    requires b <= e < |s|
  {
    && |r| == |s| && r[..b] == s[..b] && r[e + 1..] == s[e + 1..]
    && multiset(Range(r, b, e)) == multiset(Range(s, b, e))
  }

  /** A permutation of a part of the range is a permutation of the range. */
  lemma PartPermutation(s: seq<int>, r: seq<int>, b: nat, e: nat, c: nat, d: nat)
    requires b <= c <= d <= e < |s| && RangePermutation(s, r, c, d)
    ensures RangePermutation(s, r, b, e)
  {
    SameBefore(s, r, b, c);
    SameAfter(s, r, d + 1, e + 1);
    SameElementsOutside(s, r, c, d + 1);
    SameElementsInside(s, r, b, e + 1);
  }

  lemma SameBefore(s: seq<int>, r: seq<int>, b: nat, c: nat)
    requires b <= c <= |s| && |r| == |s| && r[..c] == s[..c]
    ensures r[..b] == s[..b]
  {
    assert forall x: seq<int> | |x| == |s| :: x[..b] == x[..c][..b];
  }

  lemma SameAfter(s: seq<int>, r: seq<int>, d: nat, e: nat)
    requires d <= e <= |s| && |r| == |s| && r[d..] == s[d..]
    ensures r[e..] == s[e..]
  {
    assert forall x: seq<int> | |x| == |s| :: x[e..] == x[d..][e - d..];
  }

  lemma PermutationTransitive(s: seq<int>, t: seq<int>, r: seq<int>, b: nat, e: nat)
    requires b <= e < |s| && RangePermutation(s, t, b, e) && RangePermutation(t, r, b, e)
    ensures RangePermutation(s, r, b, e)
  {
  }

  /** An element of the range stays an element of the range. */
  lemma RangeElement(s: seq<int>, r: seq<int>, b: nat, e: nat, i: nat) returns (j: nat)
    requires b <= e < |s| && RangePermutation(s, r, b, e) && b <= i <= e
    ensures b <= j <= e && s[j] == r[i]
  {
    assert Range(r, b, e)[i - b] == r[i];
    assert r[i] in multiset(Range(s, b, e));
    var k :| 0 <= k < |Range(s, b, e)| && Range(s, b, e)[k] == r[i];
    j := b + k;
  }

  /** With `x` put into the hole at `h`, a permutation of the range of `s0` from `b` to `e`. */
  ghost predicate Permuting(s0: seq<int>, s: seq<int>, b: nat, e: nat, h: nat, x: int) {
    && b <= h <= e < |s| == |s0|
    && multiset(s[h := x]) == multiset(s0) && s[..b] == s0[..b] && s[e + 1..] == s0[e + 1..]
  }

  lemma PermutingStarts(s: seq<int>, b: nat, e: nat, h: nat)
    requires b <= h <= e < |s|
    ensures Permuting(s, s, b, e, h, s[h])
  {
    assert s[h := s[h]] == s;
  }

  lemma PermutingStep(s0: seq<int>, s: seq<int>, b: nat, e: nat, h: nat, x: int, m: nat)
    requires Permuting(s0, s, b, e, h, x) && b <= m <= e
    ensures Permuting(s0, s[h := s[m]], b, e, m, x)
  {
    HoleMoves(s, h, m, x);
    assert s[h := s[m]][..b] == s[..b] && s[h := s[m]][e + 1..] == s[e + 1..];
  }

  lemma PermutingEnds(s0: seq<int>, s: seq<int>, b: nat, e: nat, h: nat, x: int)
    requires Permuting(s0, s, b, e, h, x)
    ensures RangePermutation(s0, s[h := x], b, e) && multiset(s[h := x]) == multiset(s0)
  {
    assert s[h := x][..b] == s0[..b] && s[h := x][e + 1..] == s0[e + 1..];
    SameElementsInside(s0, s[h := x], b, e + 1);
  }

  /** Sorting the range of all places is sorting the whole. */
  lemma WholeRange(s: seq<int>, r: seq<int>, asc: bool)
    requires s != [] && RangePermutation(s, r, 0, |s| - 1) && Sorted(Range(r, 0, |s| - 1), asc)
    ensures SortedPermutation(s, r, asc)
  {
    assert Range(s, 0, |s| - 1) == s && Range(r, 0, |s| - 1) == r;
  }
}
