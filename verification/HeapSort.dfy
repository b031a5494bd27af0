/**
 Heap sort: the hole sinks from the root of a subtree to the place of the
 root's element, and the sort takes the last element off the heap again and
 again.
 */
module HeapSort {
  import opened SortOrder

  function Parent(c: nat): nat
    requires c > 0
  {
    (c - 1) / 2
  }

  /** Among the first `n` places, no parent from `lo` on belongs before its child. */
  ghost predicate HeapFrom(s: seq<int>, lo: nat, n: nat, asc: bool)
    requires n <= |s|
  {
    forall c | 0 < c < n && Parent(c) >= lo :: !Before(s[Parent(c)], s[c], asc)
  }

  /** The heap order with a hole at `h`, in which `root` would stand in order below its parent. */
  ghost predicate Sifting(s: seq<int>, lo: nat, n: nat, h: nat, root: int, asc: bool) {
    && n <= |s| && lo <= h < |s|
    && (forall c | 0 < c < n && Parent(c) >= lo && Parent(c) != h && c != h :: !Before(s[Parent(c)], s[c], asc))
    && (h > 0 && Parent(h) >= lo ==>
          && !Before(s[Parent(h)], root, asc)
          && forall c | 0 < c < n && Parent(c) == h :: !Before(s[Parent(h)], s[c], asc))
  }

  /** The child that belongs last. */
  ghost predicate LastChild(s: seq<int>, n: nat, h: nat, m: nat, asc: bool)
    requires n <= |s|
  {
    && 0 < m < n && Parent(m) == h
    && forall c | 0 < c < n && Parent(c) == h :: !Before(s[m], s[c], asc)
  }

  /** `root` does not belong before any child of `h`. */
  ghost predicate NothingBehind(s: seq<int>, n: nat, h: nat, root: int, asc: bool)
    requires n <= |s|
  {
    forall c | 0 < c < n && Parent(c) == h :: !Before(root, s[c], asc)
  }

  lemma SiftStarts(s: seq<int>, lo: nat, n: nat, asc: bool)
    requires n <= |s| && lo < |s| && HeapFrom(s, lo + 1, n, asc)
    ensures Sifting(s, lo, n, lo, s[lo], asc)
  {
  }

  /** The hole moves to its last child, whose element moves up. */
  lemma SiftStep(s: seq<int>, lo: nat, n: nat, h: nat, root: int, m: nat, asc: bool)
    requires Sifting(s, lo, n, h, root, asc) && LastChild(s, n, h, m, asc) && Before(root, s[m], asc)
    ensures Sifting(s[h := s[m]], lo, n, m, root, asc)
  {
    var t := s[h := s[m]];
    assert t[m] == s[m] && Parent(m) == h;
    forall c | 0 < c < n && Parent(c) >= lo && Parent(c) != m && c != m
      ensures !Before(t[Parent(c)], t[c], asc)
    {
      if c == h {
        assert t[Parent(c)] == s[Parent(h)];
      }
    }
    forall c | 0 < c < n && Parent(c) == m ensures !Before(t[Parent(m)], t[c], asc) {
      assert c != h && t[c] == s[c];
    }
  }

  /** Where the last child, if there is one, does not belong behind it, the root is in its place. */
  lemma SiftEnds(s: seq<int>, lo: nat, n: nat, h: nat, root: int, asc: bool)
    requires Sifting(s, lo, n, h, root, asc) && NothingBehind(s, n, h, root, asc)
    ensures HeapFrom(s[h := root], lo, n, asc)
  {
  }

  /** Choosing between the two children finds the last child. */
  lemma ChoiceIsLast(s: seq<int>, n: nat, h: nat, asc: bool)
    requires 2 * h + 1 < n <= |s|
    ensures var l := 2 * h + 1;
            LastChild(s, n, h, if l + 1 < n && Before(s[l], s[l + 1], asc) then l + 1 else l, asc)
  {
    assert forall c | 0 < c < n && Parent(c) == h :: c == 2 * h + 1 || c == 2 * h + 2;
  }

  /** Where the root does not belong before the last child, it does not belong before any. */
  lemma NothingBelow(s: seq<int>, n: nat, h: nat, m: nat, root: int, asc: bool)
    requires n <= |s| && LastChild(s, n, h, m, asc) && !Before(root, s[m], asc)
    ensures NothingBehind(s, n, h, root, asc)
  {
  }

  lemma NoChildren(s: seq<int>, n: nat, h: nat, root: int, asc: bool)
    requires n <= |s| && 2 * h + 1 >= n
    ensures NothingBehind(s, n, h, root, asc)
  {
  }

  /** create_heap: from heaps below `rootIndex`, one heap at it; nothing else moves. */
  method CreateHeap(buffer: array<int>, rootIndex: nat, end: nat, asc: bool)
    requires rootIndex <= end < buffer.Length
    requires HeapFrom(buffer[..], rootIndex + 1, end + 1, asc)
    modifies buffer
    ensures HeapFrom(buffer[..], rootIndex, end + 1, asc)
    ensures RangePermutation(old(buffer[..]), buffer[..], rootIndex, end)
  {
    hide HeapFrom, Sifting, LastChild, NothingBehind, Permuting, RangePermutation, Before;
    ghost var s0 := buffer[..];
    var root := buffer[rootIndex];
    var hole := rootIndex;
    var leftChild := 2 * hole + 1;
    SiftStarts(s0, rootIndex, end + 1, asc);
    PermutingStarts(s0, rootIndex, end, hole);
    while leftChild <= end
      invariant |buffer[..]| == |s0| && rootIndex <= hole <= end && leftChild == 2 * hole + 1
      invariant Sifting(buffer[..], rootIndex, end + 1, hole, root, asc)
      invariant Permuting(s0, buffer[..], rootIndex, end, hole, root)
      decreases end - hole
    {
      ghost var s := buffer[..];
      var last := leftChild;
      if leftChild + 1 <= end && Before(buffer[leftChild], buffer[leftChild + 1], asc) {
        last := leftChild + 1;
      }
      ChoiceIsLast(s, end + 1, hole, asc);
      assert LastChild(s, end + 1, hole, last, asc);
      if !Before(root, buffer[last], asc) {
        NothingBelow(s, end + 1, hole, last, root, asc);
        break;
      }
      SiftStep(s, rootIndex, end + 1, hole, root, last, asc);
      PermutingStep(s0, s, rootIndex, end, hole, root, last);
      buffer[hole] := buffer[last];
      assert buffer[..] == s[hole := s[last]];
      hole := last;
      leftChild := 2 * hole + 1;
    }
    if leftChild > end {
      NoChildren(buffer[..], end + 1, hole, root, asc);
    }
    SiftEnds(buffer[..], rootIndex, end + 1, hole, root, asc);
    PermutingEnds(s0, buffer[..], rootIndex, end, hole, root);
    ghost var s := buffer[..];
    buffer[hole] := root;
    assert buffer[..] == s[hole := root];
  }

  /** The root of a heap belongs behind, or beside, every element. */
  lemma {:induction false} RootIsLast(s: seq<int>, n: nat, i: nat, asc: bool)
    requires i < n <= |s| && HeapFrom(s, 0, n, asc)
    ensures !Before(s[0], s[i], asc)
    decreases i
  {
    if i > 0 {
      RootIsLast(s, n, Parent(i), asc);
    }
  }

  /** Between two rounds: a heap in front, and behind it the elements that are already in place. */
  ghost predicate Draining(s0: seq<int>, s: seq<int>, n: nat, asc: bool) {
    && n <= |s| == |s0| && multiset(s) == multiset(s0) && HeapFrom(s, 0, n, asc) && Sorted(s[n..], asc)
    && forall i, j | 0 <= i < n <= j < |s| :: !Before(s[j], s[i], asc)
  }

  /** The heap with its root and its last element exchanged. */
  function Exchanged(s: seq<int>, end: nat): seq<int>
    requires end < |s|
  {
    s[end := s[0]][0 := s[end]]
  }

  /** Exchanging the root and the last of the heap leaves a heap but for its root. */
  lemma DrainStep(s0: seq<int>, s: seq<int>, end: nat, asc: bool)
    requires Draining(s0, s, end + 1, asc) && end < |s|
    ensures var t := Exchanged(s, end);
            && HeapFrom(t, 1, end, asc) && Sorted(t[end..], asc) && multiset(t) == multiset(s0)
            && forall i, j | 0 <= i < end <= j < |s| :: !Before(t[j], t[i], asc)
  {
    hide Sorted, HeapFrom, Exchanged, Before;
    ExchangedHeap(s, end, asc);
    ExchangedSorted(s, end, asc);
    ExchangedSame(s, end);
    ExchangedOrder(s0, s, end, asc);
  }

  lemma ExchangedHeap(s: seq<int>, end: nat, asc: bool)
    requires end < |s| && HeapFrom(s, 0, end + 1, asc)
    ensures HeapFrom(Exchanged(s, end), 1, end, asc)
  {
    hide Before;
  }

  lemma ExchangedSame(s: seq<int>, end: nat)
    requires end < |s|
    ensures multiset(Exchanged(s, end)) == multiset(s)
  {
  }

  lemma ExchangedOrder(s0: seq<int>, s: seq<int>, end: nat, asc: bool)
    requires Draining(s0, s, end + 1, asc) && end < |s|
    ensures forall i, j | 0 <= i < end <= j < |s| :: !Before(Exchanged(s, end)[j], Exchanged(s, end)[i], asc)
  {
    hide Sorted, HeapFrom, Before;
    forall i, j | 0 <= i < end <= j < |s| ensures !Before(Exchanged(s, end)[j], Exchanged(s, end)[i], asc) {
      if j == end {
        RootIsLast(s, end + 1, if i == 0 then end else i, asc);
      }
    }
  }

  lemma ExchangedSorted(s: seq<int>, end: nat, asc: bool)
    requires end < |s| && Sorted(s[end + 1..], asc) && forall j | end < j < |s| :: !Before(s[j], s[0], asc)
    ensures Sorted(Exchanged(s, end)[end..], asc)
  {
    var rest := s[end + 1..];
    assert Exchanged(s, end)[end..] == [s[0]] + rest;
    assert forall i | 0 <= i < |rest| :: rest[i] == s[end + 1 + i];
  }

  /** Making a heap of the rest again keeps what is in place. */
  lemma DrainStepDone(s0: seq<int>, t: seq<int>, u: seq<int>, end: nat, asc: bool)
    requires 0 < end < |t| == |s0| && multiset(t) == multiset(s0) && Sorted(t[end..], asc)
    requires forall i, j | 0 <= i < end <= j < |t| :: !Before(t[j], t[i], asc)
    requires RangePermutation(t, u, 0, end - 1) && HeapFrom(u, 0, end, asc)
    ensures Draining(s0, u, end, asc)
  {
    hide HeapFrom;
    SameElementsOutside(t, u, 0, end);
    forall i, j | 0 <= i < end <= j < |u| ensures !Before(u[j], u[i], asc) {
      var k := RangeElement(t, u, 0, end - 1, i);
      assert u[end..][j - end] == t[end..][j - end];
    }
  }

  lemma AllDrained(s0: seq<int>, s: seq<int>, asc: bool)
    requires |s| > 0 && Draining(s0, s, 1, asc)
    ensures SortedPermutation(s0, s, asc)
  {
    assert s == [s[0]] + s[1..];
  }

  /** heap, for at least one element: with none, the first element would be read all the same. */
  method Heap(buffer: array<int>, asc: bool)
    requires buffer.Length > 0
    modifies buffer
    ensures SortedPermutation(old(buffer[..]), buffer[..], asc)
    ensures forall i, j | 0 <= i < j < buffer.Length :: if asc then buffer[i] <= buffer[j] else buffer[i] >= buffer[j]
  {
    hide HeapFrom, Draining, RangePermutation, SortedPermutation;
    ghost var s0 := buffer[..];
    var n := buffer.Length;
    var end := n / 2;
    NoParents(s0, n, end + 1, asc);
    while end >= 0
      invariant -1 <= end <= n / 2
      invariant HeapFrom(buffer[..], end + 1, n, asc)
      invariant multiset(buffer[..]) == multiset(s0)
    {
      ghost var s := buffer[..];
      CreateHeap(buffer, end, n - 1, asc);
      WholePermutation(s, buffer[..], end, n - 1);
      end := end - 1;
    }
    end := n - 1;
    NothingDrained(s0, buffer[..], asc);
    while end > 0
      invariant 0 <= end < n
      invariant Draining(s0, buffer[..], end + 1, asc)
    {
      ghost var s := buffer[..];
      DrainStep(s0, s, end, asc);
      buffer[end], buffer[0] := buffer[0], buffer[end];
      ghost var t := buffer[..];
      assert t == Exchanged(s, end);
      CreateHeap(buffer, 0, end - 1, asc);
      DrainStepDone(s0, t, buffer[..], end, asc);
      end := end - 1;
    }
    AllDrained(s0, buffer[..], asc);
    PermutationMeans(s0, buffer[..], asc);
  }

  /** The second half of the places have no children. */
  lemma NoParents(s: seq<int>, n: nat, lo: nat, asc: bool)
    requires n <= |s| && lo > n / 2
    ensures HeapFrom(s, lo, n, asc)
  {
  }

  lemma WholePermutation(s: seq<int>, r: seq<int>, b: nat, e: nat)
    requires b <= e < |s| && RangePermutation(s, r, b, e)
    ensures multiset(r) == multiset(s)
  {
    SameElementsOutside(s, r, b, e + 1);
  }

  lemma NothingDrained(s0: seq<int>, s: seq<int>, asc: bool)
    requires multiset(s) == multiset(s0) && HeapFrom(s, 0, |s|, asc)
    ensures Draining(s0, s, |s|, asc)
  {
    assert |s| == |multiset(s)| == |multiset(s0)| == |s0|;
  }
}
