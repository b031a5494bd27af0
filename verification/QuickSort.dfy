/**
 The hole-based quicksort.  Its left call keeps the pivot, so it needs more
 than a shrinking range to stop; and it stops on distinct elements only.
 */
module QuickSort {
  import opened Basics
  import opened SortOrder

  // ------------------------------------------------------------- the partition

  /** `while (buffer[end] > key && begin < end) --end` */
  function ScanDown(s: seq<int>, b: nat, e: nat, key: int, asc: bool): (e': nat)
    requires b <= e < |s|
    ensures b <= e' <= e
    ensures forall i | e' < i <= e :: Before(key, s[i], asc)
    ensures e' == b || !Before(key, s[e'], asc)
  {
    if b < e && Before(key, s[e], asc) then ScanDown(s, b, e - 1, key, asc) else e
  }

  /** `while (buffer[begin] < key && begin < end) ++begin` */
  function ScanUp(s: seq<int>, b: nat, e: nat, key: int, asc: bool): (b': nat)
    requires b <= e < |s|
    ensures b <= b' <= e
    ensures forall i | b <= i < b' :: Before(s[i], key, asc)
    ensures b' == e || !Before(s[b'], key, asc)
    decreases e - b
  {
    if b < e && Before(s[b], key, asc) then ScanUp(s, b + 1, e, key, asc) else b
  }

  datatype State = State(s: seq<int>, b: nat, e: nat)

  ghost predicate InBounds(st: State) {
    st.b <= st.e < |st.s|
  }

  /** One round of the outer loop: two scans, and the hole moves from `b` to `e` and back. */
  function Pass(st: State, key: int, asc: bool): (r: State)
    requires InBounds(st)
    ensures InBounds(r) && |r.s| == |st.s| && st.b <= r.b && r.e <= st.e
  {
    var e := ScanDown(st.s, st.b, st.e, key, asc);
    var s1 := st.s[st.b := st.s[e]];
    var b := ScanUp(s1, st.b, e, key, asc);
    State(s1[e := s1[b]], b, e)
  }

  /** The partition, given up after `fuel` rounds. */
  function PartitionIn(st: State, key: int, asc: bool, fuel: nat): (r: Option<State>)
    requires InBounds(st)
    ensures r.Some? ==> r.value.b == r.value.e && |r.value.s| == |st.s|
    ensures r.Some? ==> st.b <= r.value.b <= st.e
    decreases fuel
  {
    if st.b == st.e then Some(State(st.s[st.b := key], st.b, st.b))
    else if fuel == 0 then None
    else PartitionIn(Pass(st, key, asc), key, asc, fuel - 1)
  }

  /** What holds before and after every round, with the key put back into the hole. */
  ghost predicate Partitioning(s0: seq<int>, b0: nat, e0: nat, st: State, key: int, asc: bool) {
    && InBounds(st) && |s0| == |st.s| && b0 <= st.b && st.e <= e0 < |s0|
    && multiset(st.s[st.b := key]) == multiset(s0)
    && st.s[..b0] == s0[..b0] && st.s[e0 + 1..] == s0[e0 + 1..]
    && (forall i | b0 <= i < st.b :: Before(st.s[i], key, asc))
    && (forall i | st.e < i <= e0 :: Before(key, st.s[i], asc))
    && (forall i | st.b < i <= st.e :: st.s[i] != key)
  }

  /** A round permutes the elements, the key standing in the hole. */
  lemma PassPermutes(st: State, key: int, asc: bool)
    requires InBounds(st)
    ensures var r := Pass(st, key, asc); multiset(r.s[r.b := key]) == multiset(st.s[st.b := key])
  {
    hide ScanDown, ScanUp;
    var e := ScanDown(st.s, st.b, st.e, key, asc);
    var s1 := st.s[st.b := st.s[e]];
    var b := ScanUp(s1, st.b, e, key, asc);
    HoleMoves(st.s, st.b, e, key);
    HoleMoves(s1, e, b, key);
  }

  /** Both sides of the hole's range stay on their side of the key, and the range shrinks. */
  lemma PassSeparates(b0: nat, e0: nat, st: State, key: int, asc: bool)
    requires InBounds(st) && b0 <= st.b < st.e <= e0 < |st.s|
    requires forall i | b0 <= i < st.b :: Before(st.s[i], key, asc)
    requires forall i | st.e < i <= e0 :: Before(key, st.s[i], asc)
    requires forall i | st.b < i <= st.e :: st.s[i] != key
    ensures var r := Pass(st, key, asc);
            && r.e - r.b < st.e - st.b
            && (forall i | b0 <= i < r.b :: Before(r.s[i], key, asc))
            && (forall i | r.e < i <= e0 :: Before(key, r.s[i], asc))
            && (forall i | r.b < i <= r.e :: r.s[i] != key)
  {
    hide ScanDown, ScanUp;
  }

  lemma PassStaysInside(b0: nat, e0: nat, st: State, key: int, asc: bool)
    requires InBounds(st) && b0 <= st.b && st.e <= e0 < |st.s|
    ensures var r := Pass(st, key, asc); r.s[..b0] == st.s[..b0] && r.s[e0 + 1..] == st.s[e0 + 1..]
  {
    hide ScanDown, ScanUp;
  }

  /** A round keeps the invariant and makes progress, as long as the key does not occur again. */
  lemma PassPartitions(s0: seq<int>, b0: nat, e0: nat, st: State, key: int, asc: bool)
    requires Partitioning(s0, b0, e0, st, key, asc) && st.b < st.e
    ensures var r := Pass(st, key, asc);
            Partitioning(s0, b0, e0, r, key, asc) && r.e - r.b < st.e - st.b
  {
    hide Pass;
    PassPermutes(st, key, asc);
    PassSeparates(b0, e0, st, key, asc);
    PassStaysInside(b0, e0, st, key, asc);
  }

  /** With the key put in, the range is split around it. */
  ghost predicate Split(s0: seq<int>, b0: nat, e0: nat, s: seq<int>, m: nat, key: int, asc: bool) {
    && |s| == |s0| && b0 <= m <= e0 < |s| && s[m] == key
    && multiset(s) == multiset(s0) && s[..b0] == s0[..b0] && s[e0 + 1..] == s0[e0 + 1..]
    && (forall i | b0 <= i < m :: Before(s[i], key, asc))
    && (forall i | m < i <= e0 :: Before(key, s[i], asc))
  }

  lemma {:induction false} PartitionHalts(s0: seq<int>, b0: nat, e0: nat, st: State, key: int, asc: bool, fuel: nat)
    requires Partitioning(s0, b0, e0, st, key, asc) && fuel >= st.e - st.b
    ensures var r := PartitionIn(st, key, asc, fuel);
            r.Some? && Split(s0, b0, e0, r.value.s, r.value.b, key, asc)
    decreases fuel
  {
    if st.b < st.e {
      PassPartitions(s0, b0, e0, st, key, asc);
      PartitionHalts(s0, b0, e0, Pass(st, key, asc), key, asc, fuel - 1);
    } else {
      var s := st.s[st.b := key];
      assert s[..b0] == st.s[..b0] && s[e0 + 1..] == st.s[e0 + 1..];
    }
  }

  /** A second occurrence of the key survives every round, so the rounds never end. */
  lemma {:induction false} PartitionHangs(st: State, key: int, asc: bool, fuel: nat, k: nat)
    requires InBounds(st) && st.b < k <= st.e && st.s[k] == key
    ensures PartitionIn(st, key, asc, fuel) == None
    decreases fuel
  {
    if fuel > 0 {
      var r := Pass(st, key, asc);
      var e := ScanDown(st.s, st.b, st.e, key, asc);
      assert !Before(key, st.s[k], asc);
      assert e >= k;
      var s1 := st.s[st.b := st.s[e]];
      var b := ScanUp(s1, st.b, e, key, asc);
      assert k < e ==> !Before(s1[k], key, asc);
      assert b <= k;
      var k' := if b < k then k else e;
      assert r.b < k' <= r.e && r.s[k'] == key;
      PartitionHangs(r, key, asc, fuel - 1, k');
    }
  }

  /** The scans step by step. */
  lemma ScanDownStep(s: seq<int>, b: nat, e: nat, key: int, asc: bool)
    requires b <= e < |s|
    ensures Before(key, s[e], asc) && b < e ==> ScanDown(s, b, e - 1, key, asc) == ScanDown(s, b, e, key, asc)
    ensures !(Before(key, s[e], asc) && b < e) ==> ScanDown(s, b, e, key, asc) == e
  {
    hide Before;
  }

  lemma ScanUpStep(s: seq<int>, b: nat, e: nat, key: int, asc: bool)
    requires b <= e < |s|
    ensures Before(s[b], key, asc) && b < e ==> ScanUp(s, b + 1, e, key, asc) == ScanUp(s, b, e, key, asc)
    ensures !(Before(s[b], key, asc) && b < e) ==> ScanUp(s, b, e, key, asc) == b
  {
    hide Before;
  }

  lemma PassIs(s: seq<int>, b: nat, e: nat, key: int, asc: bool)
    requires b <= e < |s|
    ensures var e' := ScanDown(s, b, e, key, asc);
            var s1 := s[b := s[e']];
            var b' := ScanUp(s1, b, e', key, asc);
            Pass(State(s, b, e), key, asc) == State(s1[e' := s1[b']], b', e')
  {
  }

  /** One round of the outer loop, in place. */
  method PassInPlace(buffer: array<int>, begin: nat, end: nat, key: int, asc: bool) returns (b: nat, e: nat)
    requires begin < end < buffer.Length
    modifies buffer
    ensures State(buffer[..], b, e) == Pass(State(old(buffer[..]), begin, end), key, asc)
  {
    hide Before, ScanDown, ScanUp, Pass;
    b, e := begin, end;
    ghost var s := buffer[..];
    PassIs(s, begin, end, key, asc);
    while Before(key, buffer[e], asc) && b < e
      invariant begin == b <= e <= end && buffer[..] == s
      invariant ScanDown(s, b, e, key, asc) == ScanDown(s, begin, end, key, asc)
    {
      ScanDownStep(s, b, e, key, asc);
      e := e - 1;
    }
    ScanDownStep(s, b, e, key, asc);
    buffer[b] := buffer[e];
    ghost var s1 := buffer[..];
    assert s1 == s[begin := s[e]];
    while Before(buffer[b], key, asc) && b < e
      invariant begin <= b <= e && buffer[..] == s1
      invariant ScanUp(s1, b, e, key, asc) == ScanUp(s1, begin, e, key, asc)
    {
      ScanUpStep(s1, b, e, key, asc);
      b := b + 1;
    }
    ScanUpStep(s1, b, e, key, asc);
    buffer[e] := buffer[b];
    assert buffer[..] == s1[e := s1[b]];
  }

  /**
   obtain_middle_key_pos.  On a proper range the first element must not occur
   again in it; otherwise the range is refused with -1.
   */
  method ObtainMiddleKeyPos(buffer: array<int>, begin: int, end: int, asc: bool) returns (pos: int)
    requires 0 <= begin < end ==> end < buffer.Length
    requires 0 <= begin < end ==> forall i | begin < i <= end :: buffer[i] != buffer[begin]
    modifies buffer
    ensures !(0 <= begin < end) ==> pos == -1 && buffer[..] == old(buffer[..])
    ensures 0 <= begin < end ==>
              && begin <= pos <= end
              && var st := State(old(buffer[..]), begin, end);
                 PartitionIn(st, old(buffer[begin]), asc, end - begin) == Some(State(buffer[..], pos, pos))
  {
    hide Pass, Partitioning;
    if begin >= end || begin < 0 || end < 0 {
      return -1;
    }
    var key := buffer[begin];
    var b: nat, e: nat := begin, end;
    ghost var start := State(buffer[..], b, e);
    ghost var fuel: nat := end - begin;
    ghost var s0 := buffer[..];
    StartsPartitioning(s0, b, e, asc);
    while b < e
      invariant begin <= b <= e <= end && |buffer[..]| == |s0|
      invariant Partitioning(s0, begin, end, State(buffer[..], b, e), key, asc)
      invariant fuel >= e - b
      invariant PartitionIn(start, key, asc, end - begin) == PartitionIn(State(buffer[..], b, e), key, asc, fuel)
      decreases e - b
    {
      PassPartitions(s0, begin, end, State(buffer[..], b, e), key, asc);
      b, e := PassInPlace(buffer, b, e, key, asc);
      fuel := fuel - 1;
    }
    buffer[b] := key;
    pos := b;
  }

  lemma StartsPartitioning(s: seq<int>, b: nat, e: nat, asc: bool)
    requires b < e < |s| && forall i | b < i <= e :: s[i] != s[b]
    ensures Partitioning(s, b, e, State(s, b, e), s[b], asc)
  {
    assert s[b := s[b]] == s;
  }

  // ------------------------------------------------------------------ the sort

  /** quick, given up after `fuel` calls deep or rounds long. */
  function QuickIn(s: seq<int>, begin: nat, end: nat, asc: bool, fuel: nat): (r: Option<seq<int>>)
    requires begin < end ==> end < |s|
    ensures r.Some? ==> |r.value| == |s|
    decreases fuel
  {
    if begin >= end then Some(s)
    else if fuel == 0 then None
    else
      match PartitionIn(State(s, begin, end), s[begin], asc, fuel)
      case None => None
      case Some(State(t, m, _)) =>
        match QuickIn(t, begin, m, asc, fuel - 1)
        case None => None
        case Some(u) => QuickIn(u, m + 1, end, asc, fuel - 1)
  }

  /** One call of quick, as its parts. */
  lemma QuickStep(s: seq<int>, begin: nat, end: nat, asc: bool, fuel: nat)
    requires begin < end < |s|
    ensures fuel == 0 ==> QuickIn(s, begin, end, asc, fuel) == None
    ensures fuel > 0 ==>
              var p := PartitionIn(State(s, begin, end), s[begin], asc, fuel);
              if p == None then QuickIn(s, begin, end, asc, fuel) == None
              else var l := QuickIn(p.value.s, begin, p.value.b, asc, fuel - 1);
                   QuickIn(s, begin, end, asc, fuel) ==
                   if l == None then None else QuickIn(l.value, p.value.b + 1, end, asc, fuel - 1)
  {
    hide PartitionIn;
  }

  lemma QuickOfOne(s: seq<int>, begin: nat, end: nat, asc: bool, fuel: nat)
    requires end <= begin
    ensures QuickIn(s, begin, end, asc, fuel) == Some(s)
  {
  }

  /** The last element of the range belongs behind all others. */
  ghost predicate EndsWithLast(s: seq<int>, b: nat, e: nat, asc: bool)
    requires b <= e < |s|
  {
    forall i | b <= i < e :: Before(s[i], s[e], asc)
  }

  /** The measure: the length of the range, and whether its end is still to be found. */
  ghost function Measure(s: seq<int>, begin: nat, end: nat, asc: bool): nat
    requires begin < end ==> end < |s|
  {
    if begin >= end then 0
    else 2 * (end - begin) + if EndsWithLast(s, begin, end, asc) then 0 else 1
  }

  lemma SplitIsRangePermutation(s0: seq<int>, b: nat, e: nat, s: seq<int>, m: nat, key: int, asc: bool)
    requires Split(s0, b, e, s, m, key, asc)
    ensures RangePermutation(s0, s, b, e)
  {
    SameElementsInside(s0, s, b, e + 1);
  }

  lemma RangeDistinct(s: seq<int>, r: seq<int>, b: nat, e: nat)
    requires b <= e < |s| && RangePermutation(s, r, b, e)
    ensures Distinct(Range(s, b, e)) <==> Distinct(Range(r, b, e))
  {
    DistinctByCount(Range(s, b, e));
    DistinctByCount(Range(r, b, e));
  }

  /** Sorting both parts of a split range sorts the range. */
  lemma PartsSorted(t: seq<int>, u: seq<int>, r: seq<int>, b: nat, m: nat, e: nat, key: int, asc: bool)
    requires b <= m <= e < |t| && RangePermutation(t, u, b, m)
    requires |u| == |t| && |r| == |t|
    requires m < e ==> RangePermutation(u, r, m + 1, e)
    requires m == e ==> r == u
    requires t[m] == key
    requires forall i | b <= i < m :: Before(t[i], key, asc)
    requires forall i | m < i <= e :: Before(key, t[i], asc)
    requires Sorted(Range(u, b, m), asc) && (m < e ==> Sorted(Range(r, m + 1, e), asc))
    ensures Sorted(Range(r, b, e), asc)
  {
    hide RangePermutation, Before;
    if m < e {
      OutsideUntouched(u, r, m + 1, e);
    }
    OutsideUntouched(t, u, b, m);
    forall i, j | b <= i < j <= e
      ensures !Before(r[j], r[i], asc)
    {
      if j <= m {
        assert !Before(Range(u, b, m)[j - b], Range(u, b, m)[i - b], asc);
      } else if i > m {
        assert !Before(Range(r, m + 1, e)[j - m - 1], Range(r, m + 1, e)[i - m - 1], asc);
      } else {
        var k := RangeElement(t, u, b, m, i);
        var l := RangeElement(u, r, m + 1, e, j);
        AroundKey(t[k], key, t[l], asc);
      }
    }
  }

  lemma AroundKey(x: int, key: int, y: int, asc: bool)
    requires (Before(x, key, asc) || x == key) && Before(key, y, asc)
    ensures !Before(y, x, asc)
  {
  }

  lemma OutsideUntouched(s: seq<int>, r: seq<int>, b: nat, e: nat)
    requires b <= e < |s| && RangePermutation(s, r, b, e)
    ensures |r| == |s| && (forall i | 0 <= i < b :: r[i] == s[i]) && (forall i | e < i < |s| :: r[i] == s[i])
  {
    assert forall i | 0 <= i < b :: r[..b][i] == s[..b][i];
    forall i | e < i < |s| ensures r[i] == s[i] {
      assert r[e + 1..][i - e - 1] == s[e + 1..][i - e - 1];
    }
  }

  /**
   On distinct elements the sort ends, within the measure: the left call keeps
   the pivot, but then the range ends with its last element, which cannot be so
   twice in a row.
   */
  lemma {:induction false} QuickHalts(s: seq<int>, begin: nat, end: nat, asc: bool, fuel: nat)
    requires begin <= end < |s| && Distinct(Range(s, begin, end))
    requires fuel >= Measure(s, begin, end, asc)
    ensures var r := QuickIn(s, begin, end, asc, fuel);
            r.Some? && RangePermutation(s, r.value, begin, end) && Sorted(Range(r.value, begin, end), asc)
    decreases fuel
  {
    hide QuickIn, PartitionIn, RangePermutation, Split, Distinct, Sorted, Measure, Before, Range;
    if begin < end {
      var key := s[begin];
      QuickStep(s, begin, end, asc, fuel);
      FirstOccursOnce(s, begin, end);
      StartsPartitioning(s, begin, end, asc);
      MeasureBounds(s, begin, end, s, begin, asc);
      PartitionHalts(s, begin, end, State(s, begin, end), key, asc, fuel);
      var State(t, m, _) := PartitionIn(State(s, begin, end), key, asc, fuel).value;
      LeftReady(s, t, begin, end, m, key, asc);
      QuickHalts(t, begin, m, asc, fuel - 1);
      var u := QuickIn(t, begin, m, asc, fuel - 1).value;
      if m < end {
        RightReady(s, t, u, begin, end, m, key, asc);
        MeasureBounds(s, begin, end, u, m, asc);
        QuickHalts(u, m + 1, end, asc, fuel - 1);
        var r := QuickIn(u, m + 1, end, asc, fuel - 1).value;
        Combine(s, t, u, r, begin, end, m, key, asc);
      } else {
        QuickOfOne(u, m + 1, end, asc, fuel - 1);
        Combine(s, t, u, u, begin, end, m, key, asc);
      }
    } else {
      QuickOfOne(s, begin, end, asc, fuel);
      OneElement(s, begin, asc);
    }
  }

  /** What the left call needs. */
  lemma LeftReady(s: seq<int>, t: seq<int>, b: nat, e: nat, m: nat, key: int, asc: bool)
    requires b < e < |s| && Distinct(Range(s, b, e)) && s[b] == key && Split(s, b, e, t, m, key, asc)
    ensures Distinct(Range(t, b, m)) && Measure(t, b, m, asc) < Measure(s, b, e, asc)
  {
    hide Distinct, Measure;
    SplitIsRangePermutation(s, b, e, t, m, key, asc);
    RangeDistinct(s, t, b, e);
    PartDistinct(t, b, e, b, m);
    FirstOccursOnce(s, b, e);
    LeftMeasure(s, t, b, e, m, key, asc);
  }

  /** What the right call needs. */
  lemma RightReady(s: seq<int>, t: seq<int>, u: seq<int>, b: nat, e: nat, m: nat, key: int, asc: bool)
    requires b < e < |s| && Distinct(Range(s, b, e)) && m < e && Split(s, b, e, t, m, key, asc)
    requires RangePermutation(t, u, b, m)
    ensures Distinct(Range(u, m + 1, e))
  {
    hide Distinct;
    SplitIsRangePermutation(s, b, e, t, m, key, asc);
    RangeDistinct(s, t, b, e);
    PartDistinct(t, b, e, m + 1, e);
    assert Range(u, m + 1, e) == u[m + 1..][..e - m] == t[m + 1..][..e - m] == Range(t, m + 1, e);
  }

  /** What both calls give together. */
  lemma Combine(s: seq<int>, t: seq<int>, u: seq<int>, r: seq<int>, b: nat, e: nat, m: nat, key: int, asc: bool)
    requires b < e < |s| && Split(s, b, e, t, m, key, asc)
    requires RangePermutation(t, u, b, m) && Sorted(Range(u, b, m), asc)
    requires if m < e then RangePermutation(u, r, m + 1, e) && Sorted(Range(r, m + 1, e), asc) else r == u
    ensures RangePermutation(s, r, b, e) && Sorted(Range(r, b, e), asc)
  {
    hide Sorted;
    SplitIsRangePermutation(s, b, e, t, m, key, asc);
    PartPermutation(t, u, b, e, b, m);
    PermutationTransitive(s, t, u, b, e);
    if m < e {
      PartPermutation(u, r, b, e, m + 1, e);
      PermutationTransitive(s, u, r, b, e);
    }
    PartsSorted(t, u, r, b, m, e, key, asc);
  }

  lemma OneElement(s: seq<int>, b: nat, asc: bool)
    requires b < |s|
    ensures RangePermutation(s, s, b, b) && Sorted(Range(s, b, b), asc)
  {
  }

  /** The range of the right call is shorter. */
  lemma MeasureBounds(s: seq<int>, b: nat, e: nat, u: seq<int>, m: nat, asc: bool)
    requires b < e < |s| && |u| == |s| && b <= m
    ensures Measure(s, b, e, asc) >= e - b
    ensures Measure(u, m + 1, e, asc) < Measure(s, b, e, asc)
  {
  }

  lemma FirstOccursOnce(s: seq<int>, b: nat, e: nat)
    requires b <= e < |s| && Distinct(Range(s, b, e))
    ensures forall i | b < i <= e :: s[i] != s[b]
  {
    var range := Range(s, b, e);
    assert forall i | b < i <= e :: s[i] == range[i - b];
  }

  lemma PartDistinct(s: seq<int>, b: nat, e: nat, c: nat, d: nat)
    requires b <= c <= d <= e < |s| && Distinct(Range(s, b, e))
    ensures Distinct(Range(s, c, d))
  {
    var part, whole := Range(s, c, d), Range(s, b, e);
    assert forall i | 0 <= i < |part| :: part[i] == whole[c - b + i];
  }

  /** The measure of the left call is smaller, although its range may be the same. */
  lemma LeftMeasure(s: seq<int>, t: seq<int>, b: nat, e: nat, m: nat, key: int, asc: bool)
    requires b < e && Split(s, b, e, t, m, key, asc) && s[b] == key && s[e] != key
    ensures Measure(t, b, m, asc) < Measure(s, b, e, asc)
  {
    if m == e && b < m {
      assert EndsWithLast(t, b, e, asc);
      SplitIsRangePermutation(s, b, e, t, m, key, asc);
      PermutationSymmetric(s, t, b, e);
      var j := RangeElement(t, s, b, e, e);
      assert Before(s[e], s[b], asc);
    }
  }

  lemma PermutationSymmetric(s: seq<int>, r: seq<int>, b: nat, e: nat)
    requires b <= e < |s| && RangePermutation(s, r, b, e)
    ensures RangePermutation(r, s, b, e)
  {
  }

  // ------------------------------------------------------- elements that repeat

  /** Two places of the range hold the same element. */
  lemma RepeatedElement(s: seq<int>, b: nat, e: nat) returns (i: nat, j: nat)
    requires b <= e < |s| && !Distinct(Range(s, b, e))
    ensures b <= i < j <= e && s[i] == s[j]
  {
    var range := Range(s, b, e);
    var k, l :| 0 <= k < l < |range| && range[k] == range[l];
    i, j := b + k, b + l;
  }

  /** When an element repeats, the sort does not end, however long it is left to run. */
  lemma {:induction false} QuickHangs(s: seq<int>, begin: nat, end: nat, asc: bool, fuel: nat)
    requires begin < end < |s| && !Distinct(Range(s, begin, end))
    ensures QuickIn(s, begin, end, asc, fuel) == None
    decreases fuel
  {
    hide QuickIn, PartitionIn, Distinct, Range;
    QuickStep(s, begin, end, asc, fuel);
    if fuel > 0 && PartitionIn(State(s, begin, end), s[begin], asc, fuel).Some? {
      RepeatSplits(s, begin, end, asc, fuel);
      var State(t, m, _) := PartitionIn(State(s, begin, end), s[begin], asc, fuel).value;
      if !Distinct(Range(t, begin, m)) {
        QuickHangs(t, begin, m, asc, fuel - 1);
      } else if QuickIn(t, begin, m, asc, fuel - 1).Some? {
        RepeatPassedOn(t, begin, m, end, asc, fuel - 1);
        QuickHangs(QuickIn(t, begin, m, asc, fuel - 1).value, m + 1, end, asc, fuel - 1);
      }
    }
  }

  /** A partition that ends leaves the repeated element for one of the calls. */
  lemma RepeatSplits(s: seq<int>, begin: nat, end: nat, asc: bool, fuel: nat)
    requires begin < end < |s| && !Distinct(Range(s, begin, end))
    requires PartitionIn(State(s, begin, end), s[begin], asc, fuel).Some?
    ensures var State(t, m, _) := PartitionIn(State(s, begin, end), s[begin], asc, fuel).value;
            && (!Distinct(Range(t, begin, m)) ==> begin < m)
            && (!Distinct(Range(t, begin, m)) || (m + 1 < end && !Distinct(Range(t, m + 1, end))))
  {
    hide PartitionIn, Partitioning, Distinct, Split, Range, Before;
    var key := s[begin];
    if exists k :: begin < k <= end && s[k] == key {
      var k :| begin < k <= end && s[k] == key;
      PartitionHangs(State(s, begin, end), key, asc, fuel, k);
    } else {
      StartsPartitioning(s, begin, end, asc);
      PartitionSplits(s, begin, end, State(s, begin, end), key, asc, fuel);
      var State(t, m, _) := PartitionIn(State(s, begin, end), key, asc, fuel).value;
      RepeatStaysTogether(s, t, begin, end, m, key, asc);
      OneElementDistinct(t, begin);
      OneElementDistinct(t, end);
    }
  }

  /** The left call does not touch a repeated element on the right. */
  lemma RepeatPassedOn(t: seq<int>, begin: nat, m: nat, end: nat, asc: bool, fuel: nat)
    requires begin <= m < end < |t| && Distinct(Range(t, begin, m)) && !Distinct(Range(t, m + 1, end))
    requires QuickIn(t, begin, m, asc, fuel).Some?
    ensures !Distinct(Range(QuickIn(t, begin, m, asc, fuel).value, m + 1, end))
  {
    hide QuickIn, Distinct, Range, RangePermutation;
    QuickPermutes(t, begin, m, asc, fuel);
    RightPartUntouched(t, QuickIn(t, begin, m, asc, fuel).value, begin, m, end);
  }

  lemma OneElementDistinct(s: seq<int>, b: nat)
    requires b < |s|
    ensures Distinct(Range(s, b, b))
  {
  }

  lemma RightPartUntouched(t: seq<int>, u: seq<int>, b: nat, m: nat, e: nat)
    requires b <= m < e < |t| && RangePermutation(t, u, b, m)
    ensures Range(u, m + 1, e) == Range(t, m + 1, e)
  {
    assert Range(u, m + 1, e) == u[m + 1..][..e - m] == t[m + 1..][..e - m] == Range(t, m + 1, e);
  }

  /** A partition that ends has split the range, whatever fuel it was given. */
  lemma {:induction false} PartitionSplits(s0: seq<int>, b0: nat, e0: nat, st: State, key: int, asc: bool, fuel: nat)
    requires Partitioning(s0, b0, e0, st, key, asc) && PartitionIn(st, key, asc, fuel).Some?
    ensures var r := PartitionIn(st, key, asc, fuel).value;
            Split(s0, b0, e0, r.s, r.b, key, asc)
    decreases fuel
  {
    if st.b < st.e {
      PassPartitions(s0, b0, e0, st, key, asc);
      PartitionSplits(s0, b0, e0, Pass(st, key, asc), key, asc, fuel - 1);
    } else {
      PartitionHalts(s0, b0, e0, st, key, asc, fuel);
    }
  }

  /** Equal elements land on the same side of the pivot. */
  lemma RepeatStaysTogether(s: seq<int>, t: seq<int>, b: nat, e: nat, m: nat, key: int, asc: bool)
    requires b < e < |s| && !Distinct(Range(s, b, e)) && Split(s, b, e, t, m, key, asc)
    ensures !Distinct(Range(t, b, m)) || (m < e && !Distinct(Range(t, m + 1, e)))
  {
    SplitIsRangePermutation(s, b, e, t, m, key, asc);
    RangeDistinct(s, t, b, e);
    var i, j := RepeatedElement(t, b, e);
    if j <= m {
      NotDistinctAt(t, b, m, i, j);
    } else {
      NotDistinctAt(t, m + 1, e, i, j);
    }
  }

  lemma NotDistinctAt(t: seq<int>, b: nat, e: nat, i: nat, j: nat)
    requires b <= i < j <= e < |t| && t[i] == t[j]
    ensures !Distinct(Range(t, b, e))
  {
    assert Range(t, b, e)[i - b] == Range(t, b, e)[j - b];
  }

  /** A sort that ends has permuted its range: it ends on distinct elements only. */
  lemma {:induction false} QuickPermutes(s: seq<int>, begin: nat, end: nat, asc: bool, fuel: nat)
    requires begin <= end < |s| && Distinct(Range(s, begin, end)) && QuickIn(s, begin, end, asc, fuel).Some?
    ensures RangePermutation(s, QuickIn(s, begin, end, asc, fuel).value, begin, end)
    decreases fuel
  {
    var enough := fuel + Measure(s, begin, end, asc);
    QuickMonotonic(s, begin, end, asc, fuel, enough);
    QuickHalts(s, begin, end, asc, enough);
  }

  /** More fuel does not change a result. */
  lemma {:induction false} QuickMonotonic(s: seq<int>, begin: nat, end: nat, asc: bool, fuel: nat, more: nat)
    requires begin < end ==> end < |s|
    requires QuickIn(s, begin, end, asc, fuel).Some? && fuel <= more
    ensures QuickIn(s, begin, end, asc, more) == QuickIn(s, begin, end, asc, fuel)
    decreases fuel
  {
    hide QuickIn, PartitionIn;
    if begin < end {
      QuickStep(s, begin, end, asc, fuel);
      QuickStep(s, begin, end, asc, more);
      PartitionMonotonic(State(s, begin, end), s[begin], asc, fuel, more);
      var State(t, m, _) := PartitionIn(State(s, begin, end), s[begin], asc, fuel).value;
      QuickMonotonic(t, begin, m, asc, fuel - 1, more - 1);
      var u := QuickIn(t, begin, m, asc, fuel - 1).value;
      QuickMonotonic(u, m + 1, end, asc, fuel - 1, more - 1);
    } else {
      QuickOfOne(s, begin, end, asc, fuel);
      QuickOfOne(s, begin, end, asc, more);
    }
  }

  lemma {:induction false} PartitionMonotonic(st: State, key: int, asc: bool, fuel: nat, more: nat)
    requires InBounds(st) && PartitionIn(st, key, asc, fuel).Some? && fuel <= more
    ensures PartitionIn(st, key, asc, more) == PartitionIn(st, key, asc, fuel)
    decreases fuel
  {
    if st.b < st.e {
      PartitionMonotonic(Pass(st, key, asc), key, asc, fuel - 1, more - 1);
    }
  }

  /** The sort ends if and only if no element of the range repeats; and then the range is sorted. */
  lemma QuickEndsOnDistinct(s: seq<int>, begin: nat, end: nat, asc: bool)
    requires begin < end < |s|
    ensures (exists fuel: nat :: QuickIn(s, begin, end, asc, fuel).Some?) <==> Distinct(Range(s, begin, end))
    ensures forall fuel: nat | QuickIn(s, begin, end, asc, fuel).Some? ::
              var r := QuickIn(s, begin, end, asc, fuel).value;
              RangePermutation(s, r, begin, end) && Sorted(Range(r, begin, end), asc)
  {
    hide QuickIn, Distinct, RangePermutation, Sorted, Range, Measure;
    if Distinct(Range(s, begin, end)) {
      QuickHalts(s, begin, end, asc, Measure(s, begin, end, asc));
      forall fuel: nat | QuickIn(s, begin, end, asc, fuel).Some?
        ensures var r := QuickIn(s, begin, end, asc, fuel).value;
                RangePermutation(s, r, begin, end) && Sorted(Range(r, begin, end), asc)
      {
        var enough := fuel + Measure(s, begin, end, asc);
        QuickMonotonic(s, begin, end, asc, fuel, enough);
        QuickHalts(s, begin, end, asc, enough);
      }
    } else {
      forall fuel: nat ensures QuickIn(s, begin, end, asc, fuel).None? {
        QuickHangs(s, begin, end, asc, fuel);
      }
    }
  }

  /** quick, where it ends: in place, on distinct elements. */
  method Quick(buffer: array<int>, begin: int, end: int, asc: bool)
    requires 0 <= begin < end ==> end < buffer.Length && Distinct(Range(buffer[..], begin, end))
    modifies buffer
    ensures !(0 <= begin < end) ==> buffer[..] == old(buffer[..])
    ensures 0 <= begin < end ==>
              && RangePermutation(old(buffer[..]), buffer[..], begin, end)
              && Sorted(Range(buffer[..], begin, end), asc)
              && forall i, j | begin <= i < j <= end :: if asc then buffer[i] <= buffer[j] else buffer[i] >= buffer[j]
    decreases if 0 <= begin < end then Measure(buffer[..], begin, end, asc) else 0
  {
    hide PartitionIn, RangePermutation, Split, Distinct, Sorted, Measure, Before, Range;
    if begin < end {
      ghost var s := buffer[..];
      if begin >= 0 {
        FirstOccursOnce(s, begin, end);
        StartsPartitioning(s, begin, end, asc);
        PartitionHalts(s, begin, end, State(s, begin, end), s[begin], asc, end - begin);
      }
      var middlePos := ObtainMiddleKeyPos(buffer, begin, end, asc);
      if middlePos == -1 {
        return;
      }
      ghost var t := buffer[..];
      ghost var b: nat, e: nat, m: nat := begin, end, middlePos;
      LeftReady(s, t, b, e, m, s[b], asc);
      OneElement(t, b, asc);
      Quick(buffer, begin, middlePos, asc);
      ghost var u := buffer[..];
      assert RangePermutation(t, u, b, m) && Sorted(Range(u, b, m), asc);
      if m < e {
        RightReady(s, t, u, b, e, m, s[b], asc);
        MeasureBounds(s, b, e, u, m, asc);
        OneElement(u, e, asc);
      }
      Quick(buffer, middlePos + 1, end, asc);
      Combine(s, t, u, buffer[..], b, e, m, s[b], asc);
      RangeSortedMeans(buffer[..], b, e, asc);
    }
  }
}
