/**
 Merge sort: both halves are merged into a scratch array and copied back.
 */
module MergeSort {
  import opened SortOrder

  /** The merge of two sequences.  Of equal elements the right one goes first. */
  function Merged(a: seq<int>, b: seq<int>, asc: bool): seq<int>
    decreases |a| + |b|
  {
    if a == [] then b
    else if b == [] then a
    else if Before(a[0], b[0], asc) then [a[0]] + Merged(a[1..], b, asc)
    else [b[0]] + Merged(a, b[1..], asc)
  }

  lemma {:induction false} MergedPermutes(a: seq<int>, b: seq<int>, asc: bool)
    ensures multiset(Merged(a, b, asc)) == multiset(a) + multiset(b)
    decreases |a| + |b|
  {
    if a != [] && b != [] {
      assert a == [a[0]] + a[1..] && b == [b[0]] + b[1..];
      if Before(a[0], b[0], asc) {
        MergedPermutes(a[1..], b, asc);
      } else {
        MergedPermutes(a, b[1..], asc);
      }
    }
  }

  /** An element that belongs behind none of `s` may stand in front of it. */
  lemma SortedCons(x: int, s: seq<int>, asc: bool)
    requires Sorted(s, asc) && forall y | y in multiset(s) :: !Before(y, x, asc)
    ensures Sorted([x] + s, asc)
  {
    assert forall i | 0 <= i < |s| :: s[i] in multiset(s);
  }

  lemma FirstOfBoth(a: seq<int>, b: seq<int>, asc: bool, x: int)
    requires Sorted(a, asc) && Sorted(b, asc) && a != [] && b != [] && (x == a[0] || x == b[0])
    requires !Before(a[0], x, asc) && !Before(b[0], x, asc)
    ensures forall y | y in multiset(a) + multiset(b) :: !Before(y, x, asc)
  {
    forall y | y in multiset(a) + multiset(b) ensures !Before(y, x, asc) {
      if y in multiset(a) {
        SortedHead(a, asc, y);
      } else {
        SortedHead(b, asc, y);
      }
    }
  }

  /** Merging sorted sequences sorts their elements. */
  lemma {:induction false} MergedSorted(a: seq<int>, b: seq<int>, asc: bool)
    requires Sorted(a, asc) && Sorted(b, asc)
    ensures SortedPermutation(a + b, Merged(a, b, asc), asc)
    decreases |a| + |b|
  {
    hide Sorted;
    MergedPermutes(a, b, asc);
    if a != [] && b != [] {
      SortedTail(a, asc);
      SortedTail(b, asc);
      if Before(a[0], b[0], asc) {
        MergedSorted(a[1..], b, asc);
        FirstOfBoth(a, b, asc, a[0]);
        SortedCons(a[0], Merged(a[1..], b, asc), asc);
      } else {
        MergedSorted(a, b[1..], asc);
        FirstOfBoth(a, b, asc, b[0]);
        SortedCons(b[0], Merged(a, b[1..], asc), asc);
      }
    } else {
      assert a + b == if a == [] then b else a;
    }
  }

  /** One comparison of the merge. */
  lemma MergeStep(s: seq<int>, left: nat, mid: nat, right: nat, end: nat, asc: bool)
    requires left <= mid < right <= end < |s|
    ensures Merged(s[left..mid + 1], s[right..end + 1], asc)
            == if Before(s[left], s[right], asc)
               then [s[left]] + Merged(s[left + 1..mid + 1], s[right..end + 1], asc)
               else [s[right]] + Merged(s[left..mid + 1], s[right + 1..end + 1], asc)
  {
    var a, b := s[left..mid + 1], s[right..end + 1];
    assert a[1..] == s[left + 1..mid + 1] && b[1..] == s[right + 1..end + 1];
  }

  /** `done` is what the merge of two runs begins with; what is left of them is still to be merged. */
  ghost predicate Merging(s: seq<int>, begin: nat, left: nat, mid: nat, right: nat, end: nat, done: seq<int>, asc: bool) {
    && begin <= left <= mid + 1 <= right <= end + 1 <= |s|
    && |done| == left - begin + right - mid - 1
    && Merged(s[begin..mid + 1], s[mid + 1..end + 1], asc)
       == done + Merged(s[left..mid + 1], s[right..end + 1], asc)
  }

  lemma MergingStep(s: seq<int>, begin: nat, left: nat, mid: nat, right: nat, end: nat, done: seq<int>, asc: bool)
    requires Merging(s, begin, left, mid, right, end, done, asc) && left <= mid && right <= end
    ensures if Before(s[left], s[right], asc)
            then Merging(s, begin, left + 1, mid, right, end, done + [s[left]], asc)
            else Merging(s, begin, left, mid, right + 1, end, done + [s[right]], asc)
  {
    hide Merged, Before;
    MergeStep(s, left, mid, right, end, asc);
    if Before(s[left], s[right], asc) {
      Reassociate(done, s[left], Merged(s[left + 1..mid + 1], s[right..end + 1], asc));
    } else {
      Reassociate(done, s[right], Merged(s[left..mid + 1], s[right + 1..end + 1], asc));
    }
  }

  lemma Reassociate(done: seq<int>, x: int, rest: seq<int>)
    ensures done + ([x] + rest) == done + [x] + rest
  {
  }

  /** When one run is used up, the rest of the other one follows. */
  lemma MergingEnds(s: seq<int>, begin: nat, left: nat, mid: nat, right: nat, end: nat, done: seq<int>, asc: bool)
    requires Merging(s, begin, left, mid, right, end, done, asc) && (left > mid || right > end)
    ensures Merged(s[begin..mid + 1], s[mid + 1..end + 1], asc)
            == done + s[left..mid + 1] + s[right..end + 1]
  {
    if left > mid {
      assert s[left..mid + 1] == [];
    } else {
      assert s[right..end + 1] == [];
    }
  }

  /** merge_array: the two neighbouring ranges become their merge; nothing else changes. */
  method MergeArray(buffer: array<int>, begin: nat, mid: nat, end: nat, tmp: array<int>, asc: bool)
    requires begin <= mid <= end < buffer.Length && end - begin < tmp.Length && tmp != buffer
    modifies buffer, tmp
    ensures buffer[begin..end + 1] == Merged(old(buffer[begin..mid + 1]), old(buffer[mid + 1..end + 1]), asc)
    ensures buffer[..begin] == old(buffer[..begin]) && buffer[end + 1..] == old(buffer[end + 1..])
  {
    hide Merging, Merged, Before;
    ghost var s := buffer[..];
    assert buffer[begin..mid + 1] == s[begin..mid + 1] && buffer[mid + 1..end + 1] == s[mid + 1..end + 1];
    var left, right, tmpIndex := begin, mid + 1, 0;
    MergingStarts(s, begin, mid, end, asc);
    assert tmp[..0] == [];
    while left <= mid && right <= end
      invariant begin <= left <= mid + 1 <= right <= end + 1 && tmpIndex == left - begin + right - mid - 1
      invariant buffer[..] == s
      invariant Merging(s, begin, left, mid, right, end, tmp[..tmpIndex], asc)
    {
      MergingStep(s, begin, left, mid, right, end, tmp[..tmpIndex], asc);
      ghost var done := tmp[..tmpIndex];
      if Before(buffer[left], buffer[right], asc) {
        tmp[tmpIndex] := buffer[left];
        left := left + 1;
      } else {
        tmp[tmpIndex] := buffer[right];
        right := right + 1;
      }
      tmpIndex := tmpIndex + 1;
      assert tmp[..tmpIndex] == done + [tmp[tmpIndex - 1]];
    }
    MergingEnds(s, begin, left, mid, right, end, tmp[..tmpIndex], asc);
    assert buffer[left..mid + 1] == s[left..mid + 1] && buffer[right..end + 1] == s[right..end + 1];
    tmpIndex := AppendRest(buffer, left, mid, tmp, tmpIndex);
    tmpIndex := AppendRest(buffer, right, end, tmp, tmpIndex);
    CopyBack(buffer, begin, end, tmp);
  }

  lemma MergingStarts(s: seq<int>, begin: nat, mid: nat, end: nat, asc: bool)
    requires begin <= mid <= end < |s|
    ensures Merging(s, begin, begin, mid, mid + 1, end, [], asc)
  {
  }

  /** The second and the third loop of merge_array: the rest of a run follows in the scratch array. */
  method AppendRest(buffer: array<int>, from: nat, to: nat, tmp: array<int>, tmpIndex: nat) returns (next: nat)
    requires from <= to + 1 <= buffer.Length && tmpIndex + to + 1 - from <= tmp.Length && tmp != buffer
    modifies tmp
    ensures next == tmpIndex + to + 1 - from
    ensures tmp[..next] == old(tmp[..tmpIndex]) + buffer[from..to + 1]
  {
    var i := from;
    next := tmpIndex;
    while i <= to
      invariant from <= i <= to + 1 && next == tmpIndex + i - from
      invariant tmp[..next] == old(tmp[..tmpIndex]) + buffer[from..i]
    {
      ghost var done := tmp[..next];
      tmp[next] := buffer[i];
      assert buffer[from..i + 1] == buffer[from..i] + [buffer[i]];
      assert tmp[..next + 1] == done + [buffer[i]];
      next, i := next + 1, i + 1;
    }
  }

  /** The last loop of merge_array. */
  method CopyBack(buffer: array<int>, begin: nat, end: nat, tmp: array<int>)
    requires begin <= end < buffer.Length && end - begin < tmp.Length && tmp != buffer
    modifies buffer
    ensures buffer[begin..end + 1] == tmp[..end + 1 - begin]
    ensures buffer[..begin] == old(buffer[..begin]) && buffer[end + 1..] == old(buffer[end + 1..])
  {
    var i, tmpIndex := begin, 0;
    while i <= end
      invariant begin <= i <= end + 1 && tmpIndex == i - begin
      invariant forall k | begin <= k < i :: buffer[k] == tmp[k - begin]
      invariant forall k | 0 <= k < buffer.Length && !(begin <= k < i) :: buffer[k] == old(buffer[k])
    {
      buffer[i] := tmp[tmpIndex];
      i, tmpIndex := i + 1, tmpIndex + 1;
    }
  }

  /** Two sorted halves and their merge. */
  lemma HalvesMerged(s: seq<int>, t: seq<int>, u: seq<int>, r: seq<int>, b: nat, m: nat, e: nat, asc: bool)
    requires b <= m < e < |s| && RangePermutation(s, t, b, m) && Sorted(Range(t, b, m), asc)
    requires RangePermutation(t, u, m + 1, e) && Sorted(Range(u, m + 1, e), asc)
    requires |r| == |u| && r[b..e + 1] == Merged(u[b..m + 1], u[m + 1..e + 1], asc)
    requires r[..b] == u[..b] && r[e + 1..] == u[e + 1..]
    ensures RangePermutation(s, r, b, e) && Sorted(Range(r, b, e), asc)
  {
    hide Merged, Sorted;
    assert u[b..m + 1] == t[b..m + 1] by {
      assert u[..m + 1][b..] == t[..m + 1][b..];
    }
    MergedSorted(u[b..m + 1], u[m + 1..e + 1], asc);
    assert u[b..e + 1] == u[b..m + 1] + u[m + 1..e + 1];
    PartPermutation(s, t, b, e, b, m);
    PartPermutation(t, u, b, e, m + 1, e);
    PermutationTransitive(s, t, u, b, e);
    PermutationTransitive(s, u, r, b, e);
  }

  /** merge_sort: the range is sorted, and nothing else changes. */
  method SortRange(buffer: array<int>, begin: nat, end: nat, tmp: array<int>, asc: bool)
    requires begin <= end < buffer.Length && end - begin < tmp.Length && tmp != buffer
    modifies buffer, tmp
    ensures RangePermutation(old(buffer[..]), buffer[..], begin, end)
    ensures Sorted(Range(buffer[..], begin, end), asc)
    decreases end - begin
  {
    if begin < end {
      hide RangePermutation, Sorted, Merged;
      ghost var s := buffer[..];
      var mid := (begin + end) / 2;
      SortRange(buffer, begin, mid, tmp, asc);
      ghost var t := buffer[..];
      SortRange(buffer, mid + 1, end, tmp, asc);
      ghost var u := buffer[..];
      MergeArray(buffer, begin, mid, end, tmp, asc);
      HalvesMerged(s, t, u, buffer[..], begin, mid, end, asc);
    }
  }

  /** merge: an empty buffer is left alone, any other is sorted. */
  method Merge(buffer: array<int>, asc: bool)
    modifies buffer
    ensures SortedPermutation(old(buffer[..]), buffer[..], asc)
    ensures forall i, j | 0 <= i < j < buffer.Length :: if asc then buffer[i] <= buffer[j] else buffer[i] >= buffer[j]
  {
    if buffer.Length <= 0 {
      return;
    }
    ghost var s := buffer[..];
    var tmp := new int[buffer.Length];
    SortRange(buffer, 0, buffer.Length - 1, tmp, asc);
    WholeRange(s, buffer[..], asc);
    PermutationMeans(s, buffer[..], asc);
  }
}
