/**
 The other way to mix: the speakers' queues are merged by time, two at first
 and then one after the other.
 */
module SpeechMerge {
  import opened SpeechPools

  datatype SpeakerPacket = SpeakerPacket(id: int, speakTime: nat, packet: Packet)

  /** The queue of a speaker, each packet with its speaker. */
  function Tagged(s: Speaker): (r: seq<SpeakerPacket>)
    ensures |r| == |s.packets|
    ensures forall i | 0 <= i < |r| :: r[i] == SpeakerPacket(s.id, s.packets[i].time, s.packets[i].packet)
  {
    seq(|s.packets|, i requires 0 <= i < |s.packets| =>
      SpeakerPacket(s.id, s.packets[i].time, s.packets[i].packet))
  }

  /** The merge by time; of equal times `a`'s goes first. */
  function Merged(a: seq<SpeakerPacket>, b: seq<SpeakerPacket>): seq<SpeakerPacket>
    decreases |a| + |b|
  {
    if a == [] then b
    else if b == [] then a
    else if a[0].speakTime <= b[0].speakTime then [a[0]] + Merged(a[1..], b)
    else [b[0]] + Merged(a, b[1..])
  }

  /** The queues behind the second one are merged in one by one, each going first where times are equal. */
  function MergedLater(pool: seq<Speaker>, merged: seq<SpeakerPacket>): seq<SpeakerPacket>
    decreases |pool|
  {
    if pool == [] then merged else MergedLater(pool[1..], Merged(Tagged(pool[0]), merged))
  }

  function MergedAll(pool: seq<Speaker>): seq<SpeakerPacket>
    requires |pool| >= 2
  {
    MergedLater(pool[2..], Merged(Tagged(pool[0]), Tagged(pool[1])))
  }

  // --------------------------------------------------------------- what it means

  ghost predicate ByTime(s: seq<SpeakerPacket>) {
    forall i, j | 0 <= i < j < |s| :: s[i].speakTime <= s[j].speakTime
  }

  /** The packets of one speaker, in the order they stand in. */
  function OfSpeaker(s: seq<SpeakerPacket>, id: int): seq<SpeakerPacket> {
    if s == [] then []
    else if s[0].id == id then [s[0]] + OfSpeaker(s[1..], id)
    else OfSpeaker(s[1..], id)
  }

  lemma {:induction false} MergedPermutes(a: seq<SpeakerPacket>, b: seq<SpeakerPacket>)
    ensures multiset(Merged(a, b)) == multiset(a) + multiset(b)
    decreases |a| + |b|
  {
    if a != [] && b != [] {
      assert a == [a[0]] + a[1..] && b == [b[0]] + b[1..];
      if a[0].speakTime <= b[0].speakTime {
        MergedPermutes(a[1..], b);
      } else {
        MergedPermutes(a, b[1..]);
      }
    }
  }

  lemma MergedElements(a: seq<SpeakerPacket>, b: seq<SpeakerPacket>)
    ensures forall x | x in Merged(a, b) :: x in a || x in b
  {
    hide Merged;
    MergedPermutes(a, b);
    forall x | x in Merged(a, b) ensures x in a || x in b {
      assert x in multiset(Merged(a, b));
    }
  }

  lemma ByTimeCons(x: SpeakerPacket, s: seq<SpeakerPacket>)
    requires ByTime(s) && forall y | y in s :: x.speakTime <= y.speakTime
    ensures ByTime([x] + s)
  {
  }

  lemma ByTimeTail(s: seq<SpeakerPacket>)
    requires s != [] && ByTime(s)
    ensures ByTime(s[1..]) && forall y | y in s :: s[0].speakTime <= y.speakTime
  {
  }

  lemma {:induction false} MergedByTime(a: seq<SpeakerPacket>, b: seq<SpeakerPacket>)
    requires ByTime(a) && ByTime(b)
    ensures ByTime(Merged(a, b))
    decreases |a| + |b|
  {
    hide ByTime;
    if a != [] && b != [] {
      ByTimeTail(a);
      ByTimeTail(b);
      if a[0].speakTime <= b[0].speakTime {
        MergedByTime(a[1..], b);
        MergedElements(a[1..], b);
        ByTimeCons(a[0], Merged(a[1..], b));
      } else {
        MergedByTime(a, b[1..]);
        MergedElements(a, b[1..]);
        ByTimeCons(b[0], Merged(a, b[1..]));
      }
    }
  }

  /** A merge with packets of others leaves a speaker's packets in their order. */
  lemma {:induction false} MergedOfSpeaker(a: seq<SpeakerPacket>, b: seq<SpeakerPacket>, id: int)
    requires OfSpeaker(a, id) == [] || OfSpeaker(b, id) == []
    ensures OfSpeaker(Merged(a, b), id) == OfSpeaker(a, id) + OfSpeaker(b, id)
    decreases |a| + |b|
  {
    if a != [] && b != [] {
      if a[0].speakTime <= b[0].speakTime {
        MergedOfSpeaker(a[1..], b, id);
      } else {
        MergedOfSpeaker(a, b[1..], id);
      }
    }
  }

  lemma {:induction false} OfSpeakerTagged(s: Speaker, id: int)
    ensures OfSpeaker(Tagged(s), id) == if s.id == id then Tagged(s) else []
    decreases |s.packets|
  {
    hide Tagged;
    if s.packets != [] {
      var t := Speaker(s.id, s.packets[1..]);
      OfSpeakerTagged(t, id);
      assert Tagged(s)[1..] == Tagged(t);
      assert Tagged(s) == [Tagged(s)[0]] + Tagged(t);
    } else {
      assert Tagged(s) == [];
    }
  }

  lemma TaggedByTime(s: Speaker)
    requires InTimeOrder(s.packets)
    ensures ByTime(Tagged(s))
  {
  }

  function AllTagged(pool: seq<Speaker>): multiset<SpeakerPacket> {
    if pool == [] then multiset{} else multiset(Tagged(pool[0])) + AllTagged(pool[1..])
  }

  ghost predicate HasNot(pool: seq<Speaker>, id: int) {
    forall i | 0 <= i < |pool| :: pool[i].id != id
  }

  lemma {:induction false} LaterByTime(pool: seq<Speaker>, merged: seq<SpeakerPacket>)
    requires (forall i | 0 <= i < |pool| :: InTimeOrder(pool[i].packets)) && ByTime(merged)
    ensures ByTime(MergedLater(pool, merged))
    decreases |pool|
  {
    hide ByTime, InTimeOrder, Merged;
    if pool != [] {
      TaggedByTime(pool[0]);
      MergedByTime(Tagged(pool[0]), merged);
      LaterByTime(pool[1..], Merged(Tagged(pool[0]), merged));
    }
  }

  lemma {:induction false} LaterPermutes(pool: seq<Speaker>, merged: seq<SpeakerPacket>)
    ensures multiset(MergedLater(pool, merged)) == multiset(merged) + AllTagged(pool)
    decreases |pool|
  {
    hide Merged, Tagged;
    if pool != [] {
      MergedPermutes(Tagged(pool[0]), merged);
      LaterPermutes(pool[1..], Merged(Tagged(pool[0]), merged));
    }
  }

  /** A speaker who comes later, or who has been merged before, keeps the own order. */
  lemma {:induction false} LaterOfSpeaker(pool: seq<Speaker>, merged: seq<SpeakerPacket>, id: int, i: nat)
    requires forall j, k | 0 <= j < k < |pool| :: pool[j].id < pool[k].id
    requires if i < |pool| then pool[i].id == id && OfSpeaker(merged, id) == [] else HasNot(pool, id)
    ensures OfSpeaker(MergedLater(pool, merged), id) == if i < |pool| then Tagged(pool[i]) else OfSpeaker(merged, id)
    decreases |pool|
  {
    hide Merged, Tagged, OfSpeaker;
    if pool != [] {
      OfSpeakerTagged(pool[0], id);
      MergedOfSpeaker(Tagged(pool[0]), merged, id);
      var m := Merged(Tagged(pool[0]), merged);
      var rest := pool[1..];
      if i == 0 {
        LaterOfSpeaker(rest, m, id, |rest|);
      } else {
        LaterOfSpeaker(rest, m, id, i - 1);
      }
    }
  }

  lemma MergedAllByTime(pool: seq<Speaker>)
    requires ValidPool(pool) && |pool| >= 2
    ensures ByTime(MergedAll(pool))
  {
    hide ByTime, InTimeOrder, Merged, MergedLater, Tagged;
    TaggedByTime(pool[0]);
    TaggedByTime(pool[1]);
    MergedByTime(Tagged(pool[0]), Tagged(pool[1]));
    LaterByTime(pool[2..], Merged(Tagged(pool[0]), Tagged(pool[1])));
  }

  lemma MergedAllPermutes(pool: seq<Speaker>)
    requires |pool| >= 2
    ensures multiset(MergedAll(pool)) == AllTagged(pool)
  {
    hide Merged, MergedLater, Tagged;
    MergedPermutes(Tagged(pool[0]), Tagged(pool[1]));
    LaterPermutes(pool[2..], Merged(Tagged(pool[0]), Tagged(pool[1])));
    assert pool[1..][1..] == pool[2..];
  }

  lemma MergedAllOfSpeaker(pool: seq<Speaker>, i: nat)
    requires ValidPool(pool) && |pool| >= 2 && i < |pool|
    ensures OfSpeaker(MergedAll(pool), pool[i].id) == Tagged(pool[i])
  {
    hide InTimeOrder, Merged, MergedLater, Tagged, OfSpeaker;
    var a, b, rest, id := Tagged(pool[0]), Tagged(pool[1]), pool[2..], pool[i].id;
    OfSpeakerTagged(pool[0], id);
    OfSpeakerTagged(pool[1], id);
    MergedOfSpeaker(a, b, id);
    LaterOfSpeaker(rest, Merged(a, b), id, if i < 2 then |rest| else i - 2);
  }

  /** The merge is a permutation of all packets sorted by time, and keeps the order of every speaker. */
  lemma MergedAllMeaning(pool: seq<Speaker>)
    requires ValidPool(pool) && |pool| >= 2
    ensures ByTime(MergedAll(pool)) && multiset(MergedAll(pool)) == AllTagged(pool)
    ensures forall i | 0 <= i < |pool| :: OfSpeaker(MergedAll(pool), pool[i].id) == Tagged(pool[i])
  {
    hide ByTime, MergedAll, Tagged, OfSpeaker, ValidPool;
    MergedAllByTime(pool);
    MergedAllPermutes(pool);
    forall i | 0 <= i < |pool| ensures OfSpeaker(MergedAll(pool), pool[i].id) == Tagged(pool[i]) {
      MergedAllOfSpeaker(pool, i);
    }
  }

  // ------------------------------------------------------------------ equal times

  /** The packets of one time, in the order they stand in. */
  function OfTime(s: seq<SpeakerPacket>, time: nat): seq<SpeakerPacket> {
    if s == [] then []
    else if s[0].speakTime == time then [s[0]] + OfTime(s[1..], time)
    else OfTime(s[1..], time)
  }

  lemma {:induction false} NoneOfTime(s: seq<SpeakerPacket>, time: nat)
    requires forall x | x in s :: x.speakTime != time
    ensures OfTime(s, time) == []
  {
    if s != [] {
      NoneOfTime(s[1..], time);
    }
  }

  /** Of equal times the packets of the first queue go first. */
  lemma {:induction false} MergedOfTime(a: seq<SpeakerPacket>, b: seq<SpeakerPacket>, time: nat)
    requires ByTime(a) && ByTime(b)
    ensures OfTime(Merged(a, b), time) == OfTime(a, time) + OfTime(b, time)
    decreases |a| + |b|
  {
    hide ByTime;
    if a != [] && b != [] {
      ByTimeTail(a);
      ByTimeTail(b);
      if a[0].speakTime <= b[0].speakTime {
        MergedOfTime(a[1..], b, time);
      } else {
        MergedOfTime(a, b[1..], time);
        if b[0].speakTime == time {
          NoneOfTime(a, time);
        }
      }
    }
  }

  /** The packets of one time, the last speaker's first. */
  function Backwards(pool: seq<Speaker>, time: nat): seq<SpeakerPacket> {
    if pool == [] then [] else Backwards(pool[1..], time) + OfTime(Tagged(pool[0]), time)
  }

  lemma {:induction false} LaterOfTime(pool: seq<Speaker>, merged: seq<SpeakerPacket>, time: nat)
    requires (forall i | 0 <= i < |pool| :: InTimeOrder(pool[i].packets)) && ByTime(merged)
    ensures OfTime(MergedLater(pool, merged), time) == Backwards(pool, time) + OfTime(merged, time)
    decreases |pool|
  {
    hide ByTime, InTimeOrder, Merged, OfTime, Tagged;
    if pool != [] {
      var first := Tagged(pool[0]);
      TaggedByTime(pool[0]);
      MergedByTime(first, merged);
      MergedOfTime(first, merged, time);
      LaterOfTime(pool[1..], Merged(first, merged), time);
    }
  }

  /** Of packets of one time those of the third speaker and of later ones go first, backwards, then the first's and the second's. */
  lemma MergedAllOfTime(pool: seq<Speaker>, time: nat)
    requires ValidPool(pool) && |pool| >= 2
    ensures OfTime(MergedAll(pool), time) ==
            Backwards(pool[2..], time) + OfTime(Tagged(pool[0]), time) + OfTime(Tagged(pool[1]), time)
  {
    hide ByTime, InTimeOrder, Merged, MergedLater, OfTime, Tagged;
    TaggedByTime(pool[0]);
    TaggedByTime(pool[1]);
    MergedByTime(Tagged(pool[0]), Tagged(pool[1]));
    MergedOfTime(Tagged(pool[0]), Tagged(pool[1]), time);
    LaterOfTime(pool[2..], Merged(Tagged(pool[0]), Tagged(pool[1])), time);
  }

  // ------------------------------------------------------------------ the loops

  /** One pair of iterators: the three loops that merge two queues. */
  method MergeTwo(a: seq<SpeakerPacket>, b: seq<SpeakerPacket>) returns (pool: seq<SpeakerPacket>)
    ensures pool == Merged(a, b)
  {
    hide Merged;
    pool := [];
    var i, j := 0, 0;
    assert a[0..] == a && b[0..] == b;
    while i < |a| && j < |b|
      invariant 0 <= i <= |a| && 0 <= j <= |b| && pool + Merged(a[i..], b[j..]) == Merged(a, b)
    {
      MergeStep(a, b, i, j, pool);
      if a[i].speakTime <= b[j].speakTime {
        pool := pool + [a[i]];
        i := i + 1;
      } else {
        pool := pool + [b[j]];
        j := j + 1;
      }
    }
    MergeRest(a[i..], b[j..]);
    while i < |a|
      invariant 0 <= i <= |a| && pool + a[i..] + b[j..] == Merged(a, b)
    {
      assert a[i..] == [a[i]] + a[i + 1..];
      pool := pool + [a[i]];
      i := i + 1;
    }
    while j < |b|
      invariant 0 <= j <= |b| && pool + b[j..] == Merged(a, b)
    {
      assert b[j..] == [b[j]] + b[j + 1..];
      pool := pool + [b[j]];
      j := j + 1;
    }
  }

  lemma MergeRest(a: seq<SpeakerPacket>, b: seq<SpeakerPacket>)
    requires a == [] || b == []
    ensures Merged(a, b) == a + b
  {
  }

  lemma MergeStep(a: seq<SpeakerPacket>, b: seq<SpeakerPacket>, i: nat, j: nat, done: seq<SpeakerPacket>)
    requires i < |a| && j < |b|
    ensures done + Merged(a[i..], b[j..]) ==
            if a[i].speakTime <= b[j].speakTime then done + [a[i]] + Merged(a[i + 1..], b[j..])
            else done + [b[j]] + Merged(a[i..], b[j + 1..])
  {
    assert a[i..][1..] == a[i + 1..] && b[j..][1..] == b[j + 1..];
  }

  /** The merge phase of do_mix_and_broadcast_C. */
  method MergeAll(pool: seq<Speaker>) returns (merged: seq<SpeakerPacket>)
    requires |pool| >= 2
    ensures merged == MergedAll(pool)
  {
    hide Merged, MergedLater, Tagged;
    merged := MergeTwo(Tagged(pool[0]), Tagged(pool[1]));
    var next := 2;
    while next < |pool|
      invariant 2 <= next <= |pool| && MergedLater(pool[next..], merged) == MergedAll(pool)
    {
      LaterStep(pool[next..], merged);
      assert pool[next..][1..] == pool[next + 1..];
      merged := MergeTwo(Tagged(pool[next]), merged);
      next := next + 1;
    }
    LaterNothing(pool[next..], merged);
  }

  lemma LaterStep(pool: seq<Speaker>, merged: seq<SpeakerPacket>)
    requires pool != []
    ensures MergedLater(pool, merged) == MergedLater(pool[1..], Merged(Tagged(pool[0]), merged))
  {
  }

  lemma LaterNothing(pool: seq<Speaker>, merged: seq<SpeakerPacket>)
    requires pool == []
    ensures MergedLater(pool, merged) == merged
  {
  }
}
