/**
 A viewer of a live stream: its queue, and what has been sent to it.
 */
module Viewers {
  import opened ViewerQueues

  /** `a` is `b` with some elements left out. */
  ghost predicate Subsequence<T>(a: seq<T>, b: seq<T>) {
    a == [] || (b != [] && ((a[0] == b[0] && Subsequence(a[1..], b[1..])) || Subsequence(a, b[1..])))
  }

  lemma {:induction false} SubsequenceExtends<T>(a: seq<T>, b: seq<T>, x: T)
    requires Subsequence(a, b)
    ensures Subsequence(a + [x], b + [x])
    decreases |b|
  {
    if b == [] {
      assert a + [x] == [x] && b + [x] == [x];
      assert Subsequence<T>([], []);
    } else {
      assert (b + [x])[1..] == b[1..] + [x];
      if a != [] && a[0] == b[0] && Subsequence(a[1..], b[1..]) {
        SubsequenceExtends(a[1..], b[1..], x);
        assert (a + [x])[1..] == a[1..] + [x];
      } else {
        SubsequenceExtends(a, b[1..], x);
      }
    }
  }

  lemma {:induction false} SubsequenceSkips<T>(a: seq<T>, b: seq<T>, i: nat)
    requires Subsequence(a, b) && i < |a|
    ensures Subsequence(a[..i] + a[i + 1..], b)
    decreases |b|
  {
    var r := a[..i] + a[i + 1..];
    if a[0] == b[0] && Subsequence(a[1..], b[1..]) {
      if i == 0 {
        assert r == a[1..];
      } else {
        SubsequenceSkips(a[1..], b[1..], i - 1);
        assert r[1..] == a[1..][..i - 1] + a[1..][i..];
      }
    } else {
      SubsequenceSkips(a, b[1..], i);
    }
  }

  lemma {:induction false} SubsequencePrefix<T>(a: seq<T>, b: seq<T>, c: seq<T>)
    requires Subsequence(a + b, c)
    ensures Subsequence(a, c)
    decreases |b|
  {
    if b == [] {
      assert a + b == a;
    } else {
      SubsequenceSkips(a + b, c, |a|);
      assert (a + b)[..|a|] + (a + b)[|a| + 1..] == a + b[1..];
      SubsequencePrefix(a, b[1..], c);
    }
  }

  function Tags(s: seq<Slot>): (ts: seq<Tag>)
    requires forall k | 0 <= k < |s| :: s[k].Held?
    ensures |ts| == |s|
  {
    seq(|s|, k requires 0 <= k < |s| => s[k].tag)
  }

  /** Only the front tag can be partly sent. */
  ghost predicate OnlyHeadStarted(s: seq<Slot>) {
    forall k | 0 <= k < |s| :: s[k].Held? && s[k].sent < |s[k].tag.data| && (k > 0 ==> s[k].sent == 0)
  }

  /** What was sent and what waits is what was offered, in order, with some tags left out. */
  ghost predicate InOrder(delivered: seq<Tag>, s: seq<Slot>, offered: seq<Tag>) {
    OnlyHeadStarted(s) && Subsequence(delivered + Tags(s), offered)
  }

  lemma RemoveKeepsOrder(delivered: seq<Tag>, s: seq<Slot>, offered: seq<Tag>, i: nat)
    requires i < |s| && InOrder(delivered, s, offered)
    ensures InOrder(delivered, s[..i] + s[i + 1..], offered)
  {
    hide Subsequence;
    var a, r := delivered + Tags(s), s[..i] + s[i + 1..];
    SubsequenceSkips(a, offered, |delivered| + i);
    assert forall k | 0 <= k < |r| :: r[k] == s[if k < i then k else k + 1];
    assert a[..|delivered| + i] + a[|delivered| + i + 1..] == delivered + Tags(r);
  }

  lemma DropKeepsOrder(delivered: seq<Tag>, s: seq<Slot>, offered: seq<Tag>)
    requires s != [] && InOrder(delivered, s, offered)
    ensures InOrder(delivered, Dropped(s), offered)
  {
    hide InOrder;
    var i := if FirstNonKey(s) < |s| then FirstNonKey(s) else 0;
    RemoveKeepsOrder(delivered, s, offered, i);
    assert Dropped(s) == s[..i] + s[i + 1..];
  }

  lemma PopKeepsOrder(delivered: seq<Tag>, s: seq<Slot>, offered: seq<Tag>)
    requires s != [] && InOrder(delivered, s, offered)
    ensures InOrder(delivered, s[1..], offered)
    ensures s[0].Held? && InOrder(delivered + [s[0].tag], s[1..], offered)
  {
    hide Subsequence;
    RemoveKeepsOrder(delivered, s, offered, 0);
    assert s[..0] + s[1..] == s[1..];
    assert delivered + [s[0].tag] + Tags(s[1..]) == delivered + Tags(s);
  }

  lemma PushKeepsOrder(delivered: seq<Tag>, s: seq<Slot>, offered: seq<Tag>, tag: Tag)
    requires InOrder(delivered, s, offered) && tag.data != []
    ensures InOrder(delivered, s + [Held(tag, 0)], offered + [tag])
  {
    hide Subsequence;
    SubsequenceExtends(delivered + Tags(s), offered, tag);
    assert delivered + Tags(s) + [tag] == delivered + Tags(s + [Held(tag, 0)]);
  }

  lemma AdvanceKeepsOrder(delivered: seq<Tag>, s: seq<Slot>, offered: seq<Tag>, n: nat)
    requires s != [] && InOrder(delivered, s, offered)
    requires s[0].Held? && n < |s[0].tag.data| - s[0].sent
    ensures InOrder(delivered, s[0 := Held(s[0].tag, s[0].sent + n)], offered)
  {
    hide Subsequence;
    assert Tags(s[0 := Held(s[0].tag, s[0].sent + n)]) == Tags(s);
  }

  lemma HeadUnfinished(delivered: seq<Tag>, s: seq<Slot>, offered: seq<Tag>)
    requires s != [] && InOrder(delivered, s, offered)
    ensures s[0].Held? && s[0].sent < |s[0].tag.data|
  {
  }

  class Viewer {
    const queue: ViewerQueue
    var sendKeyFrameFirst: bool
    /** Whether the write watcher runs. */
    var active: bool
    /** Every tag the stream offered to this viewer, and every tag sent to it in full. */
    ghost var offered: seq<Tag>
    ghost var delivered: seq<Tag>

    /** The objects of this viewer. */
    ghost function Repr(): set<object> {
      {this, queue, queue.tags}
    }

    ghost predicate Valid()
      reads this, queue, queue.tags
    {
      && queue.Valid()
      && InOrder(delivered, queue.Contents(), offered)
      && (sendKeyFrameFirst <==> delivered == [])
      && (delivered != [] ==> delivered[0].isKeyFrame)
      && (!queue.empty ==> active)
    }

    constructor ()
      ensures Valid() && fresh(Repr())
      ensures offered == [] && delivered == [] && queue.Contents() == []
    {
      queue := new ViewerQueue();
      sendKeyFrameFirst, active := true, false;
      offered, delivered := [], [];
    }

    /** What a new tag makes of the queue: when it is full, one tag makes room. */
    ghost function Offered(s: seq<Slot>, tag: Tag): seq<Slot> {
      (if |s| == CACHED_TAGS_LIMIT then Dropped(s) else s) + [Held(tag, 0)]
    }

    /** The part of receive_stream_cb that hands one tag to one viewer. */
    method Offer(tag: Tag)
      requires Valid() && tag.data != []
      modifies Repr()
      ensures Valid() && active
      ensures offered == old(offered) + [tag] && delivered == old(delivered)
      ensures queue.Contents() == Offered(old(queue.Contents()), tag)
    {
      hide InOrder, Dropped, Ring;
      var needStart := queue.empty;
      queue.FullCount();
      if queue.Full() {
        ghost var s := queue.Contents();
        queue.DropFrame();
        DropKeepsOrder(delivered, s, offered);
        DroppedPolicy(s);
        queue.FullCount();
      }
      PushKeepsOrder(delivered, queue.Contents(), offered, tag);
      queue.Push(tag);
      if needStart {
        active := true;
      }
      offered := offered + [tag];
    }

    /**
     The queue part of send_tags_cb.  `written` is what the write of the front
     tag's remaining bytes returned: -1 for an error, else how many were taken.
     */
    method SendTags(written: int) returns (closed: bool)
      requires Valid() && active
      requires !queue.empty ==>
                 -1 <= written <= |queue.Contents()[0].tag.data| - queue.Contents()[0].sent
      modifies Repr()
      ensures queue.Valid() && (!closed ==> Valid())
      ensures offered == old(offered)
      ensures var s, s' := old(queue.Contents()), queue.Contents();
              if s == [] then
                !closed && s' == s && delivered == old(delivered) && !active
              else if old(sendKeyFrameFirst) && !IsKey(s[0]) then
                !closed && s' == s[1..] && delivered == old(delivered)
              else if written == -1 then
                closed && s' == s && delivered == old(delivered)
              else if written < |s[0].tag.data| - s[0].sent then
                !closed && s' == s[0 := Held(s[0].tag, s[0].sent + written)] && delivered == old(delivered)
              else
                !closed && s' == s[1..] && delivered == old(delivered) + [s[0].tag]
    {
      hide InOrder, Ring;
      closed := false;
      if queue.empty {
        active := false;
        return;
      }
      ghost var s := queue.Contents();
      var head := queue.Top();
      PopKeepsOrder(delivered, s, offered);
      if sendKeyFrameFirst && !head.tag.isKeyFrame {
        queue.Pop();
        return;
      }
      HeadUnfinished(delivered, s, offered);
      if |head.tag.data| != head.sent {
        if written == -1 {
          return true;
        }
        if written != |head.tag.data| - head.sent {
          AdvanceKeepsOrder(delivered, s, offered, written);
          queue.AdvanceHead(written);
          return;
        }
      }
      queue.Pop();
      delivered := delivered + [head.tag];
      sendKeyFrameFirst := false;
    }
  }
}
