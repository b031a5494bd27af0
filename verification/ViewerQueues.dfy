/**
 The queue of tags each viewer of a live stream has: a ring of 79 slots, with
 a policy for making room that deletes from the middle of the ring.
 */
module ViewerQueues {
  import opened Basics

  const CACHED_TAGS_LIMIT: nat := 79

  datatype Tag = Tag(isKeyFrame: bool, data: seq<Byte>)

  /** A slot of the ring: NULL, or a tag with the number of its bytes sent already. */
  datatype Slot = Vacant | Held(tag: Tag, sent: nat)

  // -------------------------------------------------------------- the policy

  predicate IsKey(slot: Slot) {
    slot.Held? && slot.tag.isKeyFrame
  }

  /** Position of the first tag that is not a key frame, or the length when all are. */
  function FirstNonKey(s: seq<Slot>): (i: nat)
    ensures i <= |s| && (i < |s| ==> !IsKey(s[i]))
    ensures forall k | 0 <= k < i :: IsKey(s[k])
  {
    if s == [] || !IsKey(s[0]) then 0 else 1 + FirstNonKey(s[1..])
  }

  /** What is left after one tag is dropped: the first that is no key frame, or else the head. */
  function Dropped(s: seq<Slot>): (r: seq<Slot>)
  {
    var i := FirstNonKey(s);
    if s == [] then []
    else if i < |s| then s[..i] + s[i + 1..]
    else s[1..]
  }

  /** The key frames of a queue, in order. */
  function KeyFrames(s: seq<Slot>): seq<Slot>
  {
    if s == [] then []
    else (if IsKey(s[0]) then [s[0]] else []) + KeyFrames(s[1..])
  }

  lemma {:induction false} NonKeyIsNoKeyFrame(s: seq<Slot>, i: nat)
    requires i < |s| && !IsKey(s[i])
    ensures KeyFrames(s[..i] + s[i + 1..]) == KeyFrames(s)
  {
    var r := s[..i] + s[i + 1..];
    if i == 0 {
      assert r == s[1..];
    } else {
      NonKeyIsNoKeyFrame(s[1..], i - 1);
      assert r[1..] == s[1..][..i - 1] + s[1..][i..];
    }
  }

  /**
   The policy loses exactly one tag, and no key frame as long as another tag
   waits; when only key frames wait it loses the oldest.
   */
  lemma DroppedPolicy(s: seq<Slot>)
    requires s != []
    ensures |Dropped(s)| + 1 == |s|
    ensures (exists k :: 0 <= k < |s| && !IsKey(s[k])) ==> KeyFrames(Dropped(s)) == KeyFrames(s)
    ensures (forall k | 0 <= k < |s| :: IsKey(s[k])) ==> Dropped(s) == s[1..]
  {
    hide KeyFrames, FirstNonKey;
    var i := FirstNonKey(s);
    if i < |s| {
      NonKeyIsNoKeyFrame(s, i);
    }
  }

  /** What is dropped when the first tag that is no key frame is the `k`-th, or when there is none. */
  lemma DroppedAt(s: seq<Slot>, k: nat)
    requires k <= |s| && s != [] && (k < |s| ==> !IsKey(s[k])) && forall m | 0 <= m < k :: IsKey(s[m])
    ensures Dropped(s) == if k < |s| then s[..k] + s[k + 1..] else s[1..]
  {
    hide FirstNonKey;
    assert FirstNonKey(s) == k;
  }

  /** The head, which may be partly sent, stays exactly when it is a key frame and another tag is not. */
  lemma DroppedHead(s: seq<Slot>)
    requires s != []
    ensures if IsKey(s[0]) && exists k :: 0 <= k < |s| && !IsKey(s[k])
            then Dropped(s) != [] && Dropped(s)[0] == s[0]
            else Dropped(s) == s[1..]
  {
  }

  // ---------------------------------------------------------------- the ring

  /** The slot `k` places after `front` on the ring. */
  function RingIndex(front: nat, k: nat): int {
    if front + k < CACHED_TAGS_LIMIT then front + k else front + k - CACHED_TAGS_LIMIT
  }

  lemma RingNext(front: nat, k: nat)
    requires front < CACHED_TAGS_LIMIT && k < CACHED_TAGS_LIMIT
    ensures 0 <= RingIndex(front, k) < CACHED_TAGS_LIMIT
    ensures RingIndex(front, k + 1) == (RingIndex(front, k) + 1) % CACHED_TAGS_LIMIT
  {
  }

  /** The first `n` slots from `front` on, in ring order. */
  ghost function Ring(t: seq<Slot>, front: nat, n: nat): (r: seq<Slot>)
    requires |t| == CACHED_TAGS_LIMIT && n <= CACHED_TAGS_LIMIT
    requires front < CACHED_TAGS_LIMIT || n == 0
    ensures |r| == n
  {
    seq(n, k requires 0 <= k < n => t[RingIndex(front, k)])
  }

  /** Writing one slot changes one place of the ring. */
  lemma RingWrite(t: seq<Slot>, front: nat, n: nat, k: nat, x: Slot)
    requires |t| == CACHED_TAGS_LIMIT && k < CACHED_TAGS_LIMIT && n <= CACHED_TAGS_LIMIT && front < CACHED_TAGS_LIMIT
    ensures 0 <= RingIndex(front, k) < |t|
    ensures var t' := t[RingIndex(front, k) := x];
            Ring(t', front, n) == if k < n then Ring(t, front, n)[k := x] else Ring(t, front, n)
  {
  }

  /**
   The loop of viewer_queue_delete: every tag behind the `k`-th of `n` moves
   one slot towards the front.
   */
  method Shift(tags: array<Slot>, start: nat, rear: nat, ghost front: nat, ghost k: nat, ghost n: nat)
    requires tags.Length == CACHED_TAGS_LIMIT && front < CACHED_TAGS_LIMIT
    requires k < n <= CACHED_TAGS_LIMIT && start == RingIndex(front, k) && rear == RingIndex(front, n)
    modifies tags
    ensures var was := Ring(old(tags[..]), front, n);
            Ring(tags[..], front, n)[..n - 1] == was[..k] + was[k + 1..]
  {
    hide Ring, RingIndex;
    var pos := start;
    ghost var j := k;
    ghost var was := Ring(tags[..], front, n);
    while true
      invariant k <= j < n && pos == RingIndex(front, j)
      invariant Shifted(was, Ring(tags[..], front, n), k, j)
      decreases n - j
    {
      RingNext(front, j);
      ghost var t := tags[..];
      ghost var x := t[(pos + 1) % CACHED_TAGS_LIMIT];
      RingWrite(t, front, n, j, x);
      RingRead(t, front, n, j + 1);
      tags[pos] := tags[(pos + 1) % CACHED_TAGS_LIMIT];
      assert tags[..] == t[pos := x];
      ShiftStep(was, Ring(t, front, n), k, j, x);
      pos := (pos + 1) % CACHED_TAGS_LIMIT;
      j := j + 1;
      StopsAtRear(front, j, n);
      if pos == rear {
        break;
      }
    }
  }

  /** The tags between the `k`-th and the `j`-th have moved; those behind have not. */
  ghost predicate Shifted(was: seq<Slot>, now: seq<Slot>, k: nat, j: nat) {
    && k <= j < |was| == |now|
    && now[..j] == was[..k] + was[k + 1..j + 1]
    && now[j + 1..] == was[j + 1..]
  }

  lemma ShiftStep(was: seq<Slot>, now: seq<Slot>, k: nat, j: nat, x: Slot)
    requires Shifted(was, now, k, j) && (j + 1 < |now| ==> x == now[j + 1])
    ensures j + 1 < |now| ==> Shifted(was, now[j := x], k, j + 1)
    ensures j + 1 == |now| ==> now[j := x][..j] == was[..k] + was[k + 1..]
  {
    if j + 1 < |now| {
      assert x == now[j + 1..][0] == was[j + 1..][0];
      assert now[j := x][..j + 1] == now[..j] + [x];
      assert was[k + 1..j + 2] == was[k + 1..j + 1] + [x];
      assert now[j := x][j + 2..] == now[j + 1..][1..];
    } else {
      assert now[j := x][..j] == now[..j];
    }
  }

  lemma RingTail(t: seq<Slot>, front: nat, n: nat)
    requires |t| == CACHED_TAGS_LIMIT && 0 < n <= CACHED_TAGS_LIMIT && front < CACHED_TAGS_LIMIT
    ensures Ring(t, (front + 1) % CACHED_TAGS_LIMIT, n - 1) == Ring(t, front, n)[1..]
  {
  }

  lemma NextSlot(front: nat)
    requires front < CACHED_TAGS_LIMIT
    ensures (front + 1) % CACHED_TAGS_LIMIT == if front + 1 == CACHED_TAGS_LIMIT then 0 else front + 1
  {
  }

  lemma AllHeld(s: seq<Slot>)
    requires s != [] && forall k | 0 <= k < |s| :: s[k].Held?
    ensures forall slot | slot in s[1..] :: slot.Held?
  {
  }

  lemma RemovedHeld(s: seq<Slot>, k: nat, x: Slot)
    requires k < |s| && forall i | 0 <= i < |s| :: s[i].Held?
    ensures s[k := x][..k] + s[k := x][k + 1..] == s[..k] + s[k + 1..]
    ensures forall slot | slot in s[..k] + s[k + 1..] :: slot.Held?
  {
  }

  /** Clearing the front slot and moving on takes the first tag off. */
  lemma RingPop(t: seq<Slot>, front: nat, n: nat)
    requires |t| == CACHED_TAGS_LIMIT && 0 < n <= CACHED_TAGS_LIMIT && front < CACHED_TAGS_LIMIT
    ensures Ring(t[front := Vacant], (front + 1) % CACHED_TAGS_LIMIT, n - 1) == Ring(t, front, n)[1..]
  {
    hide Ring;
    RingWrite(t, front, n, 0, Vacant);
    RingTail(t[front := Vacant], front, n);
  }

  lemma RingNothing(t: seq<Slot>, front: nat, front': nat, n: nat)
    requires |t| == CACHED_TAGS_LIMIT && n <= CACHED_TAGS_LIMIT && front' < CACHED_TAGS_LIMIT
    requires front == front' || n == 0
    ensures Ring(t, front, n) == Ring(t, front', n)
  {
  }

  lemma RingShorter(t: seq<Slot>, front: nat, n: nat)
    requires |t| == CACHED_TAGS_LIMIT && 0 < n <= CACHED_TAGS_LIMIT && front < CACHED_TAGS_LIMIT
    ensures Ring(t, front, n - 1) == Ring(t, front, n)[..n - 1]
  {
  }

  lemma RingRead(t: seq<Slot>, front: nat, n: nat, k: nat)
    requires |t| == CACHED_TAGS_LIMIT && 0 < k <= n <= CACHED_TAGS_LIMIT && front < CACHED_TAGS_LIMIT
    ensures 0 <= RingIndex(front, k) < |t|
    ensures k < n ==> t[RingIndex(front, k)] == Ring(t, front, n)[k]
  {
  }

  lemma StopsAtRear(front: nat, j: nat, n: nat)
    requires front < CACHED_TAGS_LIMIT && 0 < j <= n <= CACHED_TAGS_LIMIT
    ensures RingIndex(front, j) == RingIndex(front, n) <==> j == n
  {
  }

  class ViewerQueue {
    const tags: array<Slot>
    var front: nat
    var rear: nat
    var empty: bool

    /** Both ends start one past the last slot; from the first push on they are slots. */
    predicate ValidEnds()
      reads this
    {
      if empty then front == rear <= CACHED_TAGS_LIMIT
      else front < CACHED_TAGS_LIMIT && rear < CACHED_TAGS_LIMIT
    }

    ghost predicate Valid()
      reads this, tags
    {
      && tags.Length == CACHED_TAGS_LIMIT
      && ValidEnds()
      && forall slot | slot in Ring(tags[..], front, Count()) :: slot.Held?
    }

    function Count(): (n: nat)
      requires ValidEnds()
      reads this
      ensures n <= CACHED_TAGS_LIMIT && (n == 0 <==> empty)
    {
      if empty then 0
      else if front < rear then rear - front
      else rear + CACHED_TAGS_LIMIT - front
    }

    /** The waiting tags, oldest first. */
    ghost function Contents(): (s: seq<Slot>)
      requires Valid()
      reads this, tags
      ensures |s| == Count() <= CACHED_TAGS_LIMIT
      ensures forall k | 0 <= k < |s| :: s[k].Held?
    {
      Ring(tags[..], front, Count())
    }

    constructor ()
      ensures Valid() && fresh(tags) && Contents() == [] && empty
    {
      tags := new Slot[CACHED_TAGS_LIMIT];
      front, rear, empty := CACHED_TAGS_LIMIT, CACHED_TAGS_LIMIT, true;
    }

    /** viewer_queue_full. */
    predicate Full()
      reads this
    {
      !empty && front == rear
    }

    lemma FullCount()
      requires Valid()
      ensures Full() <==> |Contents()| == 79
      ensures empty <==> |Contents()| == 0
    {
    }

    /** viewer_queue_pop. */
    method Pop()
      requires Valid()
      modifies this, tags
      ensures Valid()
      ensures Contents() == if old(Contents()) == [] then [] else old(Contents())[1..]
    {
      if empty {
        return;
      }
      hide Ring, RingIndex;
      ghost var n, t, s := Count(), tags[..], Contents();
      RingPop(t, front, n);
      NextSlot(front);
      AllHeld(s);
      tags[front] := Vacant;
      assert tags[..] == t[front := Vacant];
      front := (front + 1) % CACHED_TAGS_LIMIT;
      if front == rear {
        empty := true;
      }
      assert Count() == n - 1;
    }

    /** viewer_queue_top. */
    method Top() returns (slot: Slot)
      requires Valid() && !empty
      ensures Contents() != [] && slot == Contents()[0]
    {
      slot := tags[front];
    }

    /** `sent_bytes` of the front tag grows. */
    method AdvanceHead(n: nat)
      requires Valid() && !empty
      modifies tags
      ensures Valid()
      ensures Contents() == var s := old(Contents()); s[0 := Held(s[0].tag, s[0].sent + n)]
    {
      hide Ring;
      ghost var t := tags[..];
      FirstSlot();
      SlotAt(0);
      tags[front] := Held(tags[front].tag, tags[front].sent + n);
      RingWrite(t, front, Count(), 0, tags[front]);
      assert tags[..] == t[front := tags[front]];
    }

    /** viewer_queue_push; the callers make room first. */
    method Push(tag: Tag)
      requires Valid() && !Full()
      modifies this, tags
      ensures Valid() && !empty
      ensures Contents() == old(Contents()) + [Held(tag, 0)]
    {
      hide Ring;
      ghost var n, t := Count(), tags[..];
      ghost var before := Contents();
      empty := false;
      if rear == CACHED_TAGS_LIMIT {
        rear := 0;
      }
      if front == CACHED_TAGS_LIMIT {
        front := 0;
      }
      assert before == Ring(t, front, n) by {
        RingNothing(t, old(front), front, n);
      }
      RingWrite(t, front, n + 1, n, Held(tag, 0));
      RingWrite(t, front, n, n, Held(tag, 0));
      assert rear == RingIndex(front, n);
      tags[rear] := Held(tag, 0);
      assert tags[..] == t[rear := Held(tag, 0)];
      RingShorter(tags[..], front, n + 1);
      rear := (rear + 1) % CACHED_TAGS_LIMIT;
    }

    /**
     viewer_queue_delete, for the `k`-th tag.  The shift runs once around the
     ring when the queue is full and the front is deleted.  It leaves `empty`
     alone, so deleting the only tag makes the queue look full.
     */
    method Delete(start: nat, ghost k: nat)
      requires Valid() && !empty && k < Count() && start == RingIndex(front, k)
      modifies this, tags
      ensures old(Count()) >= 2 ==> Valid() && Contents() == old(Contents())[..k] + old(Contents())[k + 1..]
      ensures old(Count()) == 1 ==> Full() && front < tags.Length && tags[front] == Vacant
    {
      hide Ring, RingIndex;
      ghost var before := Contents();
      ghost var n := Count();
      ghost var t := tags[..];
      RingWrite(t, front, n, k, Vacant);
      tags[start] := Vacant;
      assert tags[..] == t[start := Vacant];
      RearIndex();
      Shift(tags, start, rear, front, k, n);
      RemovedHeld(before, k, Vacant);
      t := tags[..];
      RingShorter(t, front, n);
      rear := if rear == 0 then CACHED_TAGS_LIMIT - 1 else rear - 1;
      RingWrite(t, front, n - 1, n - 1, Vacant);
      tags[rear] := Vacant;
      assert tags[..] == t[rear := Vacant];
      assert Ring(tags[..], front, n - 1) == before[..k] + before[k + 1..];
      if n == 1 {
        FirstSlot();
      } else {
        assert Count() == n - 1;
      }
    }

    /** The rear is where the next tag goes, or the front of a full ring. */
    lemma RearIndex()
      requires ValidEnds() && !empty
      ensures rear == RingIndex(front, Count())
      ensures Count() > 0 && RingIndex(front, Count() - 1) == if rear == 0 then CACHED_TAGS_LIMIT - 1 else rear - 1
    {
    }

    /**
     drop_frame: looks for the first tag that is no key frame, else drops the
     head.  A single tag is popped if it is a key frame, and else deleted, which
     leaves a queue that looks full.
     */
    method DropFrame()
      requires Valid()
      modifies this, tags
      ensures old(Count()) != 1 || old(IsKey(Contents()[0])) ==>
                Valid() && Contents() == Dropped(old(Contents()))
      ensures old(Count()) == 1 && !old(IsKey(Contents()[0])) ==>
                Full() && front < tags.Length && tags[front] == Vacant
    {
      hide Ring, RingIndex, Dropped;
      if empty {
        NothingDropped();
        return;
      }
      var pointer := front;
      ghost var k := 0;
      FirstSlot();
      while true
        invariant unchanged(this) && unchanged(tags)
        invariant k < Count() && pointer == RingIndex(front, k)
        invariant forall m | 0 <= m < k :: IsKey(Contents()[m])
        decreases Count() - k
      {
        RingNext(front, k);
        SlotAt(k);
        if !tags[pointer].tag.isKeyFrame {
          DroppedAt(Contents(), k);
          Delete(pointer, k);
          return;
        }
        pointer := (pointer + 1) % CACHED_TAGS_LIMIT;
        k := k + 1;
        RearIndex();
        StopsAtRear(front, k, Count());
        if pointer == rear {
          break;
        }
      }
      DroppedAt(Contents(), k);
      Pop();
    }

    lemma FirstSlot()
      requires ValidEnds() && !empty
      ensures front == RingIndex(front, 0) && Count() > 0
    {
    }

    /** The `k`-th waiting tag is in the `k`-th slot of the ring. */
    lemma SlotAt(k: nat)
      requires Valid() && k < Count()
      ensures 0 <= RingIndex(front, k) < tags.Length && tags[RingIndex(front, k)] == Contents()[k]
    {
    }
  }

  lemma NothingDropped()
    ensures Dropped([]) == []
  {
  }
}
