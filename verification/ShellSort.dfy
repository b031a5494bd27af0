/**
 Shell sort: insertion sorts at shrinking distances.
 */
module ShellSort {
  import opened SortOrder

  /** Among the first `n` places, no element belongs before the one `delta` places in front of it. */
  ghost predicate SortedAt(s: seq<int>, delta: nat, n: nat, asc: bool)
    requires n <= |s|
  {
    forall i | delta <= i < n :: !Before(s[i], s[i - delta], asc)
  }

  /** The same up to `n`, with a hole at `h` that `x` will go to, or to a place `delta` and more in front. */
  ghost predicate Inserting(s: seq<int>, delta: nat, n: nat, h: nat, x: int, asc: bool) {
    && delta > 0 && h < n <= |s|
    && (forall i | delta <= i < n && i != h && i - delta != h :: !Before(s[i], s[i - delta], asc))
    && (h + delta < n ==> Before(x, s[h + delta], asc) && (h >= delta ==> !Before(s[h + delta], s[h - delta], asc)))
  }

  lemma InsertStarts(s: seq<int>, delta: nat, u: nat, asc: bool)
    requires 0 < delta <= u < |s| && SortedAt(s, delta, u, asc)
    ensures Inserting(s, delta, u + 1, u, s[u], asc)
  {
  }

  lemma InsertStep(s: seq<int>, delta: nat, n: nat, h: nat, x: int, asc: bool)
    requires Inserting(s, delta, n, h, x, asc) && h >= delta && Before(x, s[h - delta], asc)
    ensures Inserting(s[h := s[h - delta]], delta, n, h - delta, x, asc)
  {
  }

  lemma InsertEnds(s: seq<int>, delta: nat, n: nat, h: nat, x: int, asc: bool)
    requires Inserting(s, delta, n, h, x, asc) && (h >= delta ==> !Before(x, s[h - delta], asc))
    ensures SortedAt(s[h := x], delta, n, asc)
  {
  }

  /** Order at distance 1 is order. */
  lemma {:induction false} SortedAtOne(s: seq<int>, i: nat, j: nat, asc: bool)
    requires i < j < |s| && SortedAt(s, 1, |s|, asc)
    ensures !Before(s[j], s[i], asc)
    decreases j
  {
    assert !Before(s[j], s[j - 1], asc);
    if i < j - 1 {
      SortedAtOne(s, i, j - 1, asc);
    }
  }

  /** Between two rounds of the innermost loop: the order and the elements, with a hole for `x`. */
  ghost predicate Shifting(s0: seq<int>, s: seq<int>, delta: nat, unsorted: nat, h: nat, x: int, asc: bool) {
    && unsorted < |s| == |s0|
    && Inserting(s, delta, unsorted + 1, h, x, asc) && Permuting(s0, s, 0, |s| - 1, h, x)
  }

  lemma ShiftingStarts(s: seq<int>, delta: nat, unsorted: nat, asc: bool)
    requires 0 < delta <= unsorted < |s| && SortedAt(s, delta, unsorted, asc)
    ensures Shifting(s, s, delta, unsorted, unsorted, s[unsorted], asc)
  {
    hide SortedAt, Inserting, Permuting, Before;
    InsertStarts(s, delta, unsorted, asc);
    PermutingStarts(s, 0, |s| - 1, unsorted);
  }

  lemma ShiftingStep(s0: seq<int>, s: seq<int>, delta: nat, unsorted: nat, h: nat, x: int, asc: bool)
    requires Shifting(s0, s, delta, unsorted, h, x, asc) && delta <= h < |s| && Before(x, s[h - delta], asc)
    ensures Shifting(s0, s[h := s[h - delta]], delta, unsorted, h - delta, x, asc)
  {
    hide Inserting, Permuting, Before;
    InsertStep(s, delta, unsorted + 1, h, x, asc);
    PermutingStep(s0, s, 0, |s| - 1, h, x, h - delta);
  }

  lemma ShiftingEnds(s0: seq<int>, s: seq<int>, delta: nat, unsorted: nat, h: nat, x: int, asc: bool)
    requires Shifting(s0, s, delta, unsorted, h, x, asc) && h < |s|
    requires h >= delta ==> !Before(x, s[h - delta], asc)
    ensures unsorted < |s| && SortedAt(s[h := x], delta, unsorted + 1, asc) && multiset(s[h := x]) == multiset(s0)
  {
    hide SortedAt, Inserting, Permuting, RangePermutation, Before;
    InsertEnds(s, delta, unsorted + 1, h, x, asc);
    PermutingEnds(s0, s, 0, |s| - 1, h, x);
  }

  /** The insertion of one element: the innermost loop. */
  method InsertOne(buffer: array<int>, delta: nat, unsorted: nat, asc: bool)
    requires 0 < delta <= unsorted < buffer.Length && SortedAt(buffer[..], delta, unsorted, asc)
    modifies buffer
    ensures SortedAt(buffer[..], delta, unsorted + 1, asc) && multiset(buffer[..]) == multiset(old(buffer[..]))
  {
    hide SortedAt, Shifting, Before;
    ghost var s0 := buffer[..];
    var sortedLast: int := unsorted - delta;
    var value := buffer[unsorted];
    ghost var hole: nat := unsorted;
    ShiftingStarts(s0, delta, unsorted, asc);
    while sortedLast >= 0 && Before(value, buffer[sortedLast], asc)
      invariant sortedLast == hole - delta && hole <= unsorted
      invariant Shifting(s0, buffer[..], delta, unsorted, hole, value, asc)
    {
      ghost var s := buffer[..];
      ShiftingStep(s0, s, delta, unsorted, hole, value, asc);
      buffer[sortedLast + delta] := buffer[sortedLast];
      assert buffer[..] == s[hole := s[hole - delta]];
      hole := hole - delta;
      sortedLast := sortedLast - delta;
    }
    ghost var s := buffer[..];
    assert hole >= delta ==> !Before(value, s[hole - delta], asc);
    ShiftingEnds(s0, s, delta, unsorted, hole, value, asc);
    buffer[sortedLast + delta] := value;
    assert buffer[..] == s[hole := value];
  }

  /** shell.  The last distance is 1 whenever there is anything to sort. */
  method Shell(buffer: array<int>, asc: bool)
    modifies buffer
    ensures SortedPermutation(old(buffer[..]), buffer[..], asc)
    ensures forall i, j | 0 <= i < j < buffer.Length :: if asc then buffer[i] <= buffer[j] else buffer[i] >= buffer[j]
  {
    hide SortedAt;
    var n := buffer.Length;
    var delta := n / 2;
    while delta > 0
      invariant 0 <= delta <= n / 2 && (delta == 0 ==> n < 2 || SortedAt(buffer[..], 1, n, asc))
      invariant multiset(buffer[..]) == multiset(old(buffer[..]))
      decreases delta
    {
      NothingToSort(buffer[..], delta, asc);
      var unsorted := delta;
      while unsorted < n
        invariant delta <= unsorted <= n
        invariant SortedAt(buffer[..], delta, unsorted, asc)
        invariant multiset(buffer[..]) == multiset(old(buffer[..]))
      {
        InsertOne(buffer, delta, unsorted, asc);
        unsorted := unsorted + 1;
      }
      delta := delta / 2;
    }
    ghost var s := buffer[..];
    if n >= 2 {
      forall i, j | 0 <= i < j < |s| ensures !Before(s[j], s[i], asc) {
        SortedAtOne(s, i, j, asc);
      }
    }
    SortedMeans(s, asc);
  }

  lemma NothingToSort(s: seq<int>, delta: nat, asc: bool)
    requires delta <= |s|
    ensures SortedAt(s, delta, delta, asc)
  {
  }
}
