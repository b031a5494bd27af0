/**
 The packets that speakers have sent since the last broadcast, and the round
 by round mix that drains them.
 */
module SpeechPools {

  /** A packet stands for its buffer: two packets are the same if they are the same memory. */
  type Packet = int

  datatype Timed = Timed(time: nat, packet: Packet)

  /** A speaker and the map from timestamps to packets, in the map's order. */
  datatype Speaker = Speaker(id: int, packets: seq<Timed>)

  // ------------------------------------------------------------------ the pool

  ghost predicate InTimeOrder(packets: seq<Timed>) {
    forall i, j | 0 <= i < j < |packets| :: packets[i].time < packets[j].time
  }

  /** In every reachable pool each speaker has a packet, for a speaker enters it with one. */
  ghost predicate ValidPool(pool: seq<Speaker>) {
    && (forall i | 0 <= i < |pool| :: pool[i].packets != [] && InTimeOrder(pool[i].packets))
    && (forall i, j | 0 <= i < j < |pool| :: pool[i].id < pool[j].id)
  }

  /** std::map::insert of a packet: a second packet of the same time is not taken. */
  function InsertPacket(packets: seq<Timed>, t: Timed): seq<Timed> {
    if packets == [] || t.time < packets[0].time then [t] + packets
    else if t.time == packets[0].time then packets
    else [packets[0]] + InsertPacket(packets[1..], t)
  }

  /** The pool with the packet of a speaker, who may be new. */
  function Received(pool: seq<Speaker>, id: int, t: Timed): seq<Speaker> {
    if pool == [] || id < pool[0].id then [Speaker(id, [t])] + pool
    else if id == pool[0].id then [Speaker(id, InsertPacket(pool[0].packets, t))] + pool[1..]
    else [pool[0]] + Received(pool[1..], id, t)
  }

  /** The pool keeps its packets, and takes a new one unless it has one of the same time. */
  lemma {:induction false} InsertPacketTakes(packets: seq<Timed>, t: Timed)
    requires InTimeOrder(packets)
    ensures forall p | p in InsertPacket(packets, t) :: p == t || p in packets
    ensures forall p | p in packets :: p in InsertPacket(packets, t)
    ensures t in InsertPacket(packets, t) <==> t in packets || forall p | p in packets :: p.time != t.time
  {
    if packets != [] && t.time >= packets[0].time {
      assert packets[0] in packets;
      if t.time > packets[0].time {
        InsertPacketTakes(packets[1..], t);
        assert packets == [packets[0]] + packets[1..];
      }
    }
  }

  lemma {:induction false} InsertPacketKeeps(packets: seq<Timed>, t: Timed)
    requires InTimeOrder(packets)
    ensures InsertPacket(packets, t) != [] && InTimeOrder(InsertPacket(packets, t))
  {
    if packets != [] && t.time > packets[0].time {
      InsertPacketTakes(packets[1..], t);
      InsertPacketKeeps(packets[1..], t);
      InTimeOrderCons(packets[0], InsertPacket(packets[1..], t));
    }
  }

  lemma InTimeOrderCons(first: Timed, rest: seq<Timed>)
    requires InTimeOrder(rest) && forall p | p in rest :: first.time < p.time
    ensures InTimeOrder([first] + rest)
  {
    assert forall i | 0 <= i < |rest| :: rest[i] in rest;
  }

  lemma {:induction false} ReceivedFrom(pool: seq<Speaker>, id: int, t: Timed)
    ensures forall s | s in Received(pool, id, t) :: s.id == id || s in pool
  {
    hide InsertPacket;
    if pool != [] && id > pool[0].id {
      ReceivedFrom(pool[1..], id, t);
    }
  }

  lemma ValidPoolTail(pool: seq<Speaker>)
    requires pool != [] && ValidPool(pool)
    ensures ValidPool(pool[1..]) && forall s | s in pool[1..] :: pool[0].id < s.id
  {
    hide InTimeOrder;
  }

  lemma ValidPoolCons(first: Speaker, rest: seq<Speaker>)
    requires ValidPool(rest) && first.packets != [] && InTimeOrder(first.packets)
    requires forall s | s in rest :: first.id < s.id
    ensures ValidPool([first] + rest)
  {
    hide InTimeOrder;
  }

  /** In a received pool every speaker has a packet. */
  lemma {:induction false} ReceivedKeeps(pool: seq<Speaker>, id: int, t: Timed)
    requires ValidPool(pool)
    ensures ValidPool(Received(pool, id, t))
  {
    hide ValidPool, InsertPacket;
    if pool == [] {
      assert ValidPool([]) by { NobodyYet(); }
      ValidPoolCons(Speaker(id, [t]), []);
    } else {
      ValidPoolTail(pool);
      FirstSpeaker(pool);
      if id < pool[0].id {
        assert forall s | s in pool :: s == pool[0] || s in pool[1..];
        ValidPoolCons(Speaker(id, [t]), pool);
      } else if id == pool[0].id {
        InsertPacketKeeps(pool[0].packets, t);
        ValidPoolCons(Speaker(id, InsertPacket(pool[0].packets, t)), pool[1..]);
      } else {
        ReceivedKeeps(pool[1..], id, t);
        ReceivedFrom(pool[1..], id, t);
        ValidPoolCons(pool[0], Received(pool[1..], id, t));
      }
    }
  }

  lemma NobodyYet()
    ensures ValidPool([])
  {
  }

  lemma FirstSpeaker(pool: seq<Speaker>)
    requires pool != [] && ValidPool(pool)
    ensures pool[0].packets != [] && InTimeOrder(pool[0].packets)
  {
  }

  // ------------------------------------------------------------- no buffer twice

  function AllPackets(pool: seq<Speaker>): multiset<Packet> {
    if pool == [] then multiset{} else PacketsOf(pool[0].packets) + AllPackets(pool[1..])
  }

  function PacketsOf(packets: seq<Timed>): multiset<Packet> {
    if packets == [] then multiset{} else multiset{packets[0].packet} + PacketsOf(packets[1..])
  }

  /** No buffer stands in the pool twice. */
  ghost predicate NoneTwice(pool: seq<Speaker>) {
    forall p :: AllPackets(pool)[p] <= 1
  }

  lemma {:induction false} InsertedPackets(packets: seq<Timed>, t: Timed)
    ensures PacketsOf(InsertPacket(packets, t)) <= PacketsOf(packets) + multiset{t.packet}
  {
    if packets == [] || t.time < packets[0].time {
      assert ([t] + packets)[1..] == packets;
    } else if t.time > packets[0].time {
      InsertedPackets(packets[1..], t);
      assert InsertPacket(packets, t)[1..] == InsertPacket(packets[1..], t);
    }
  }

  /** Receiving a packet adds at most that packet, once. */
  lemma {:induction false} ReceivedPackets(pool: seq<Speaker>, id: int, t: Timed)
    ensures AllPackets(Received(pool, id, t)) <= AllPackets(pool) + multiset{t.packet}
  {
    hide InsertPacket;
    if pool == [] || id < pool[0].id {
      assert ([Speaker(id, [t])] + pool)[1..] == pool;
      assert PacketsOf([t]) == multiset{t.packet} by { assert [t][1..] == []; }
    } else if id == pool[0].id {
      InsertedPackets(pool[0].packets, t);
      assert Received(pool, id, t)[1..] == pool[1..];
    } else {
      ReceivedPackets(pool[1..], id, t);
      assert Received(pool, id, t)[1..] == Received(pool[1..], id, t);
    }
  }

  /** A new buffer leaves none twice. */
  lemma ReceivedNoneTwice(pool: seq<Speaker>, id: int, t: Timed)
    requires NoneTwice(pool) && t.packet !in AllPackets(pool)
    ensures NoneTwice(Received(pool, id, t))
  {
    hide AllPackets, Received;
    ReceivedPackets(pool, id, t);
    forall p ensures AllPackets(Received(pool, id, t))[p] <= 1 {
      assert AllPackets(Received(pool, id, t))[p] <= (AllPackets(pool) + multiset{t.packet})[p];
    }
  }

  // ------------------------------------------------------- what receiving changes

  /** The packets of one speaker. */
  function QueueOf(pool: seq<Speaker>, id: int): seq<Timed> {
    if pool == [] then [] else if pool[0].id == id then pool[0].packets else QueueOf(pool[1..], id)
  }

  /** No packet has this time yet. */
  ghost predicate IsNewTime(packets: seq<Timed>, time: nat) {
    forall p | p in packets :: p.time != time
  }

  lemma {:induction false} NoQueue(pool: seq<Speaker>, id: int)
    requires forall s | s in pool :: id < s.id
    ensures QueueOf(pool, id) == []
  {
    if pool != [] {
      NoQueue(pool[1..], id);
    }
  }

  /** Only the speaker's own queue changes. */
  lemma {:induction false} ReceivedQueues(pool: seq<Speaker>, id: int, t: Timed, other: int)
    requires ValidPool(pool)
    ensures other != id ==> QueueOf(Received(pool, id, t), other) == QueueOf(pool, other)
    ensures QueueOf(Received(pool, id, t), id) == InsertPacket(QueueOf(pool, id), t)
  {
    hide ValidPool, InsertPacket;
    if pool == [] || id < pool[0].id {
      assert ([Speaker(id, [t])] + pool)[1..] == pool;
      SmallerIds(pool, id);
      NoQueue(pool, id);
      assert InsertPacket([], t) == [t] by { FirstOfAll(t); }
    } else if id == pool[0].id {
      assert Received(pool, id, t)[1..] == pool[1..];
    } else {
      ValidPoolTail(pool);
      ReceivedQueues(pool[1..], id, t, other);
      assert Received(pool, id, t)[1..] == Received(pool[1..], id, t);
    }
  }

  lemma FirstOfAll(t: Timed)
    ensures InsertPacket([], t) == [t]
  {
  }

  lemma SmallerIds(pool: seq<Speaker>, id: int)
    requires ValidPool(pool) && (pool == [] || id < pool[0].id)
    ensures forall s | s in pool :: id < s.id
  {
  }

  lemma {:induction false} QueueInOrder(pool: seq<Speaker>, id: int)
    requires ValidPool(pool)
    ensures InTimeOrder(QueueOf(pool, id))
  {
    hide ValidPool, InTimeOrder;
    if pool == [] {
      assert InTimeOrder([]) by { NothingInOrder(); }
    } else {
      FirstSpeaker(pool);
      ValidPoolTail(pool);
      QueueInOrder(pool[1..], id);
    }
  }

  lemma NothingInOrder()
    ensures InTimeOrder([])
  {
  }

  /**
   Every other speaker keeps the queue; the speaker has exactly the packets of
   before and, when none of them has its time, the new one.
   */
  lemma ReceivedExactly(pool: seq<Speaker>, id: int, t: Timed)
    requires ValidPool(pool)
    ensures forall other | other != id :: QueueOf(Received(pool, id, t), other) == QueueOf(pool, other)
    ensures forall p :: p in QueueOf(Received(pool, id, t), id) <==>
                        p in QueueOf(pool, id) || (p == t && IsNewTime(QueueOf(pool, id), t.time))
  {
    hide ValidPool, Received, QueueOf, InsertPacket;
    forall other | other != id ensures QueueOf(Received(pool, id, t), other) == QueueOf(pool, other) {
      ReceivedQueues(pool, id, t, other);
    }
    ReceivedQueues(pool, id, t, id);
    QueueInOrder(pool, id);
    InsertPacketTakes(QueueOf(pool, id), t);
  }

  lemma {:induction false} InsertedExactly(packets: seq<Timed>, t: Timed)
    requires InTimeOrder(packets)
    ensures PacketsOf(InsertPacket(packets, t)) ==
            PacketsOf(packets) + if IsNewTime(packets, t.time) then multiset{t.packet} else multiset{}
  {
    hide InTimeOrder, IsNewTime, PacketsOf;
    if packets == [] {
      NothingHasTime(t.time);
      OneMorePacket(t, packets);
    } else {
      TimesOf(packets, t.time);
      if t.time < packets[0].time {
        OneMorePacket(t, packets);
      } else if t.time > packets[0].time {
        InsertedExactly(packets[1..], t);
        OneMorePacket(packets[0], packets[1..]);
        OneMorePacket(packets[0], InsertPacket(packets[1..], t));
        assert packets == [packets[0]] + packets[1..];
        var more := if IsNewTime(packets, t.time) then multiset{t.packet} else multiset{};
        AddedBehind(multiset{packets[0].packet}, PacketsOf(packets[1..]), more);
      }
    }
  }

  lemma OneMorePacket(t: Timed, packets: seq<Timed>)
    ensures PacketsOf([t] + packets) == multiset{t.packet} + PacketsOf(packets)
  {
    assert ([t] + packets)[1..] == packets;
  }

  lemma AddedBehind(a: multiset<Packet>, b: multiset<Packet>, c: multiset<Packet>)
    ensures a + (b + c) == a + b + c
  {
  }

  /** In a queue in order a time before the first is new, and one behind it is new if it is behind it. */
  lemma TimesOf(packets: seq<Timed>, time: nat)
    requires packets != [] && InTimeOrder(packets)
    ensures InTimeOrder(packets[1..])
    ensures time < packets[0].time ==> IsNewTime(packets, time)
    ensures time == packets[0].time ==> !IsNewTime(packets, time)
    ensures time > packets[0].time ==> (IsNewTime(packets, time) <==> IsNewTime(packets[1..], time))
  {
    assert packets == [packets[0]] + packets[1..];
    assert packets[0] in packets;
  }

  /** The packets of the pool grow by the new one if and only if the speaker has none of its time. */
  lemma {:induction false} PoolGrows(pool: seq<Speaker>, id: int, t: Timed)
    requires ValidPool(pool)
    ensures AllPackets(Received(pool, id, t)) ==
            AllPackets(pool) + if IsNewTime(QueueOf(pool, id), t.time) then multiset{t.packet} else multiset{}
  {
    hide ValidPool, InsertPacket, InTimeOrder, IsNewTime;
    if pool == [] || id < pool[0].id {
      assert ([Speaker(id, [t])] + pool)[1..] == pool;
      assert PacketsOf([t]) == multiset{t.packet} by { assert [t][1..] == []; }
      SmallerIds(pool, id);
      NoQueue(pool, id);
      assert IsNewTime([], t.time) by { NothingHasTime(t.time); }
    } else if id == pool[0].id {
      FirstSpeaker(pool);
      InsertedExactly(pool[0].packets, t);
      assert Received(pool, id, t)[1..] == pool[1..];
    } else {
      ValidPoolTail(pool);
      PoolGrows(pool[1..], id, t);
      assert Received(pool, id, t)[1..] == Received(pool[1..], id, t);
    }
  }

  lemma NothingHasTime(time: nat)
    ensures IsNewTime([], time)
  {
  }

  // ---------------------------------------------------------------- the rounds

  /** The earliest packet of every speaker who has one left. */
  function Heads(pool: seq<Speaker>): seq<Packet> {
    if pool == [] then []
    else if pool[0].packets == [] then Heads(pool[1..])
    else [pool[0].packets[0].packet] + Heads(pool[1..])
  }

  /** What is left after every speaker who has a packet has given the earliest one. */
  function Tails(pool: seq<Speaker>): (r: seq<Speaker>)
    ensures |r| == |pool|
    ensures forall i | 0 <= i < |pool| :: r[i].id == pool[i].id
    ensures forall i | 0 <= i < |pool| ::
              r[i].packets == if pool[i].packets == [] then [] else pool[i].packets[1..]
  {
    seq(|pool|, i requires 0 <= i < |pool| =>
      Speaker(pool[i].id, if pool[i].packets == [] then [] else pool[i].packets[1..]))
  }

  /** The first `n` rounds. */
  function Rounds(pool: seq<Speaker>, n: nat): (r: seq<seq<Packet>>)
    ensures |r| == n
    decreases n
  {
    if n == 0 then [] else [Heads(pool)] + Rounds(Tails(pool), n - 1)
  }

  /** The packets with number `r` of the speakers who have that many. */
  function Nth(pool: seq<Speaker>, r: nat): seq<Packet> {
    if pool == [] then []
    else if r < |pool[0].packets| then [pool[0].packets[r].packet] + Nth(pool[1..], r)
    else Nth(pool[1..], r)
  }

  function MaxLength(pool: seq<Speaker>): (m: nat)
    ensures forall i | 0 <= i < |pool| :: |pool[i].packets| <= m
    ensures m > 0 ==> exists i :: 0 <= i < |pool| && |pool[i].packets| == m
  {
    if pool == [] then 0
    else
      var m := MaxLength(pool[1..]);
      if |pool[0].packets| > m then |pool[0].packets| else
        assert m > 0 ==> exists i :: 0 <= i < |pool[1..]| && |pool[1..][i].packets| == m;
        m
  }

  function Joined(rounds: seq<seq<Packet>>): seq<Packet> {
    if rounds == [] then [] else rounds[0] + Joined(rounds[1..])
  }

  lemma {:induction false} HeadsAreFirst(pool: seq<Speaker>)
    ensures Heads(pool) == Nth(pool, 0)
  {
    if pool != [] {
      HeadsAreFirst(pool[1..]);
    }
  }

  lemma {:induction false} TailsShift(pool: seq<Speaker>, r: nat)
    ensures Nth(Tails(pool), r) == Nth(pool, r + 1)
  {
    if pool != [] {
      TailsShift(pool[1..], r);
      assert Tails(pool)[1..] == Tails(pool[1..]);
    }
  }

  /** Round `r` takes the `r`-th earliest packet of each speaker that has so many. */
  lemma {:induction false} RoundIsNth(pool: seq<Speaker>, n: nat, r: nat)
    requires r < n
    ensures Rounds(pool, n)[r] == Nth(pool, r)
    decreases n
  {
    hide Heads, Tails, Nth;
    if r == 0 {
      HeadsAreFirst(pool);
    } else {
      RoundIsNth(Tails(pool), n - 1, r - 1);
      TailsShift(pool, r - 1);
    }
  }

  lemma TailsCons(pool: seq<Speaker>)
    requires pool != []
    ensures Tails(pool)[1..] == Tails(pool[1..])
  {
  }

  lemma {:induction false} HeadsAndTails(pool: seq<Speaker>)
    ensures multiset(Heads(pool)) + AllPackets(Tails(pool)) == AllPackets(pool)
  {
    hide Tails;
    if pool != [] {
      HeadsAndTails(pool[1..]);
      TailsCons(pool);
      var first := pool[0].packets;
      if first != [] {
        assert PacketsOf(first) == multiset{first[0].packet} + PacketsOf(first[1..]);
      }
    }
  }

  lemma MaxOfTails(pool: seq<Speaker>)
    ensures MaxLength(Tails(pool)) == if MaxLength(pool) == 0 then 0 else MaxLength(pool) - 1
  {
    hide MaxLength;
    var m, t := MaxLength(pool), MaxLength(Tails(pool));
    if t > 0 {
      var i :| 0 <= i < |pool| && |Tails(pool)[i].packets| == t;
      assert |pool[i].packets| == t + 1;
    }
    if m > 0 {
      var i :| 0 <= i < |pool| && |pool[i].packets| == m;
      assert |Tails(pool)[i].packets| == m - 1;
    }
  }

  lemma {:induction false} NothingLeft(pool: seq<Speaker>)
    requires MaxLength(pool) == 0
    ensures AllPackets(pool) == multiset{}
  {
    if pool != [] {
      NothingLeft(pool[1..]);
    }
  }

  /** As many rounds as the longest queue is long take every packet, and take it once. */
  lemma {:induction false} RoundsTakeAll(pool: seq<Speaker>, n: nat)
    requires n == MaxLength(pool)
    ensures multiset(Joined(Rounds(pool, n))) == AllPackets(pool)
    decreases n
  {
    hide Heads, Tails, AllPackets, MaxLength;
    if n == 0 {
      NothingLeft(pool);
    } else {
      MaxOfTails(pool);
      RoundsTakeAll(Tails(pool), n - 1);
      HeadsAndTails(pool);
      var rounds := Rounds(pool, n);
      assert rounds[1..] == Rounds(Tails(pool), n - 1);
      assert Joined(rounds) == Heads(pool) + Joined(rounds[1..]);
    }
  }

  /** No round is empty: each has a packet to send or packets to mix. */
  lemma RoundNotEmpty(pool: seq<Speaker>, r: nat)
    requires r < MaxLength(pool)
    ensures Nth(pool, r) != []
  {
    hide MaxLength;
    var i :| 0 <= i < |pool| && |pool[i].packets| == MaxLength(pool);
    NthHas(pool, r, i);
  }

  lemma {:induction false} NthHas(pool: seq<Speaker>, r: nat, i: nat)
    requires i < |pool| && r < |pool[i].packets|
    ensures Nth(pool, r) != []
  {
    if i > 0 {
      NthHas(pool[1..], r, i - 1);
    }
  }

  // ------------------------------------------------------------- the broadcast

  /** A packet sent as it is to all but the one given, or several packets mixed and sent to all. */
  datatype Message = Raw(packet: Packet, except: Except) | Mix(packets: seq<Packet>)

  /** Whom a message is not sent to; the placeholder address is nobody's. */
  datatype Except = Placeholder | Id(id: int)

  /** The variable `speaker`: the last one in the pool's order who gives the last packet in this round. */
  function SpeakerSeen(pool: seq<Speaker>): Except {
    if pool == [] then Placeholder
    else
      var later := SpeakerSeen(pool[1..]);
      if later.Id? then later else if |pool[0].packets| == 1 then Id(pool[0].id) else Placeholder
  }

  function MessageOf(packets: seq<Packet>, speaker: Except): Message
    requires packets != []
  {
    if |packets| == 1 then Raw(packets[0], speaker) else Mix(packets)
  }

  /** The messages of the first `n` rounds. */
  function Messages(pool: seq<Speaker>, n: nat): seq<Message>
    decreases n
  {
    if n == 0 then []
    else (if Heads(pool) == [] then [] else [MessageOf(Heads(pool), SpeakerSeen(pool))]) + Messages(Tails(pool), n - 1)
  }

  /** What a single speaker's packets are sent as. */
  function AloneMessages(s: Speaker): (r: seq<Message>)
    ensures |r| == |s.packets|
    ensures forall i | 0 <= i < |r| :: r[i] == Raw(s.packets[i].packet, Id(s.id))
  {
    seq(|s.packets|, i requires 0 <= i < |s.packets| => Raw(s.packets[i].packet, Id(s.id)))
  }

  /** What is sent for a pool. */
  function Sent(pool: seq<Speaker>): seq<Message> {
    if |pool| == 0 then [] else if |pool| == 1 then AloneMessages(pool[0]) else Messages(pool, MaxLength(pool))
  }

  /** What is freed for a pool, in order. */
  function Freed(pool: seq<Speaker>): seq<Packet> {
    if |pool| == 1 then AlonePackets(pool[0].packets) else Joined(Rounds(pool, MaxLength(pool)))
  }

  function AlonePackets(packets: seq<Timed>): (r: seq<Packet>)
    ensures |r| == |packets| && forall i | 0 <= i < |r| :: r[i] == packets[i].packet
  {
    seq(|packets|, i requires 0 <= i < |packets| => packets[i].packet)
  }

  lemma {:induction false} AloneFreesAll(packets: seq<Timed>)
    ensures multiset(AlonePackets(packets)) == PacketsOf(packets)
  {
    if packets != [] {
      AloneFreesAll(packets[1..]);
      assert AlonePackets(packets) == [packets[0].packet] + AlonePackets(packets[1..]);
    }
  }

  /** Every packet of the pool is freed, as often as it is in the pool: where no buffer is in it twice, once. */
  lemma FreedOnce(pool: seq<Speaker>)
    ensures multiset(Freed(pool)) == AllPackets(pool)
    ensures NoneTwice(pool) ==> forall p | p in AllPackets(pool) :: multiset(Freed(pool))[p] == 1
  {
    hide Joined, Rounds, MaxLength;
    if |pool| == 1 {
      AloneFreesAll(pool[0].packets);
      assert pool[1..] == [];
    } else {
      RoundsTakeAll(pool, MaxLength(pool));
    }
  }

  // --------------------------------------------------------- what messages carry

  function Carried(m: Message): seq<Packet> {
    match m
    case Raw(p, _) => [p]
    case Mix(ps) => ps
  }

  function AllCarried(ms: seq<Message>): seq<Packet> {
    if ms == [] then [] else Carried(ms[0]) + AllCarried(ms[1..])
  }

  /** A round's message carries all its packets: one as it is, several as a mix. */
  lemma MessageCarries(packets: seq<Packet>, speaker: Except)
    requires packets != []
    ensures Carried(MessageOf(packets, speaker)) == packets
    ensures MessageOf(packets, speaker).Mix? <==> |packets| >= 2
    ensures |packets| == 1 ==> MessageOf(packets, speaker) == Raw(packets[0], speaker)
  {
  }

  /** What is sent is what is freed, packet by packet and round by round. */
  lemma {:induction false} MessagesCarryRounds(pool: seq<Speaker>, n: nat)
    ensures AllCarried(Messages(pool, n)) == Joined(Rounds(pool, n))
    decreases n
  {
    hide Heads, Tails, SpeakerSeen, MessageOf;
    if n > 0 {
      MessagesCarryRounds(Tails(pool), n - 1);
      var rounds := Rounds(pool, n);
      assert rounds[1..] == Rounds(Tails(pool), n - 1);
      if Heads(pool) != [] {
        var m := MessageOf(Heads(pool), SpeakerSeen(pool));
        MessageCarries(Heads(pool), SpeakerSeen(pool));
        var ms := Messages(pool, n);
        assert ms[0] == m && ms[1..] == Messages(Tails(pool), n - 1);
      } else {
        assert rounds[0] == [] && [] + Joined(rounds[1..]) == Joined(rounds[1..]);
        assert Messages(pool, n) == Messages(Tails(pool), n - 1);
      }
    }
  }

  lemma {:induction false} AloneCarries(packets: seq<Timed>, id: int)
    ensures AllCarried(AloneMessages(Speaker(id, packets))) == AlonePackets(packets)
  {
    if packets != [] {
      AloneCarries(packets[1..], id);
      var ms := AloneMessages(Speaker(id, packets));
      assert ms[1..] == AloneMessages(Speaker(id, packets[1..]));
      assert AlonePackets(packets) == [packets[0].packet] + AlonePackets(packets[1..]);
    }
  }

  /** Every packet of the pool is sent, alone or in a mix, in the order they are freed. */
  lemma SentIsFreed(pool: seq<Speaker>)
    ensures AllCarried(Sent(pool)) == Freed(pool) && multiset(AllCarried(Sent(pool))) == AllPackets(pool)
  {
    hide AllCarried, Messages, Joined, Rounds, MaxLength;
    FreedOnce(pool);
    if |pool| == 1 {
      AloneCarries(pool[0].packets, pool[0].id);
      assert Speaker(pool[0].id, pool[0].packets) == pool[0];
    } else {
      MessagesCarryRounds(pool, MaxLength(pool));
      if |pool| == 0 {
        assert pool == [];
        NoMessages();
      }
    }
  }

  lemma NoMessages()
    ensures Messages([], MaxLength([])) == []
  {
  }

  /** The speaker seen is the last in the pool's order that gives the last packet, if any does. */
  lemma {:induction false} SpeakerSeenIs(pool: seq<Speaker>)
    ensures SpeakerSeen(pool) == Placeholder <==> forall i | 0 <= i < |pool| :: |pool[i].packets| != 1
    ensures SpeakerSeen(pool).Id? ==>
              exists i :: 0 <= i < |pool| && SpeakerSeen(pool) == Id(pool[i].id) && |pool[i].packets| == 1
                          && forall j | i < j < |pool| :: |pool[j].packets| != 1
  {
    if pool != [] {
      var rest := pool[1..];
      SpeakerSeenIs(rest);
      if SpeakerSeen(rest).Id? {
        var i :| 0 <= i < |rest| && SpeakerSeen(rest) == Id(rest[i].id) && |rest[i].packets| == 1
                 && forall j | i < j < |rest| :: |rest[j].packets| != 1;
        assert pool[i + 1] == rest[i];
        forall j | i + 1 < j < |pool| ensures |pool[j].packets| != 1 {
          assert pool[j] == rest[j - 1];
        }
      } else {
        forall j | 0 < j < |pool| ensures |pool[j].packets| != 1 {
          assert pool[j] == rest[j - 1];
        }
      }
    }
  }

  /**
   When one speaker's packets are all that is left, only the last of them is
   kept from its sender: the others are sent to everyone, the sender included.
   */
  lemma {:induction false} OnlyLastIsKeptBack(pool: seq<Speaker>, i: nat)
    requires i < |pool| && pool[i].packets != []
    requires forall j | 0 <= j < |pool| && j != i :: pool[j].packets == []
    ensures Heads(pool) == [pool[i].packets[0].packet]
    ensures MessageOf(Heads(pool), SpeakerSeen(pool)) ==
            Raw(pool[i].packets[0].packet, if |pool[i].packets| == 1 then Id(pool[i].id) else Placeholder)
  {
    if i == 0 {
      NobodySeen(pool[1..]);
    } else {
      OnlyLastIsKeptBack(pool[1..], i - 1);
    }
  }

  lemma {:induction false} NobodySeen(pool: seq<Speaker>)
    requires forall j | 0 <= j < |pool| :: pool[j].packets == []
    ensures Heads(pool) == [] && SpeakerSeen(pool) == Placeholder
  {
    if pool != [] {
      NobodySeen(pool[1..]);
    }
  }

  // ------------------------------------------------------------------ in place

  class SpeechPool {
    var pool: seq<Speaker>

    ghost predicate Valid()
      reads this
    {
      ValidPool(pool) && NoneTwice(pool)
    }

    constructor ()
      ensures Valid() && pool == []
    {
      pool := [];
    }

    /** The insertion in handle_udp_msg, of a buffer that has just been allocated. */
    method Receive(id: int, t: Timed)
      requires Valid() && t.packet !in AllPackets(pool)
      modifies this
      ensures Valid() && pool == Received(old(pool), id, t)
    {
      hide ValidPool, NoneTwice;
      ReceivedKeeps(pool, id, t);
      ReceivedNoneTwice(pool, id, t);
      pool := Received(pool, id, t);
    }

    /** One round: the earliest packet of each queue that has one is erased from it. */
    method TakeRound() returns (packets: seq<Packet>, speaker: Except)
      modifies this
      ensures packets == Heads(old(pool)) && speaker == SpeakerSeen(old(pool)) && pool == Tails(old(pool))
    {
      hide Heads, SpeakerSeen, Tails;
      packets, speaker := [], Placeholder;
      ghost var start := pool;
      var i := 0;
      NothingTaken();
      assert start[..0] == [];
      while i < |pool|
        invariant 0 <= i <= |pool| == |start|
        invariant forall k | 0 <= k < i :: pool[k] == Tails(start)[k]
        invariant forall k | i <= k < |pool| :: pool[k] == start[k]
        invariant packets == Heads(start[..i]) && speaker == SpeakerSeen(start[..i])
      {
        TakeStep(start, i);
        var s := pool[i];
        if s.packets != [] {
          if |s.packets| == 1 {
            speaker := Id(s.id);
          }
          packets := packets + [s.packets[0].packet];
          pool := pool[i := Speaker(s.id, s.packets[1..])];
        }
        i := i + 1;
      }
      assert start[..i] == start;
    }

    /** The branch for a single speaker. */
    method BroadcastAlone() returns (sent: seq<Message>, freed: seq<Packet>)
      requires |pool| == 1
      ensures sent == AloneMessages(pool[0]) && freed == AlonePackets(pool[0].packets)
    {
      sent, freed := [], [];
      var packets := pool[0].packets;
      var i := 0;
      while i < |packets|
        invariant 0 <= i <= |packets|
        invariant sent == AloneMessages(pool[0])[..i] && freed == AlonePackets(packets)[..i]
      {
        sent := sent + [Raw(packets[i].packet, Id(pool[0].id))];
        freed := freed + [packets[i].packet];
        i := i + 1;
      }
    }

    /** The loop that retrieves the size of the longest queue. */
    method LongestQueue() returns (max: nat)
      ensures max == MaxLength(pool)
    {
      hide MaxLength;
      max := 0;
      var i := 0;
      while i < |pool|
        invariant 0 <= i <= |pool|
        invariant forall k | 0 <= k < i :: |pool[k].packets| <= max
        invariant max > 0 ==> exists k :: 0 <= k < i && |pool[k].packets| == max
      {
        if |pool[i].packets| > max {
          max := |pool[i].packets|;
        }
        i := i + 1;
      }
      ghost var m := MaxLength(pool);
      if m > 0 {
        ghost var k :| 0 <= k < |pool| && |pool[k].packets| == m;
      }
    }

    /** do_mix_and_broadcast_S: what is sent and freed is decided by the pool, which is empty afterwards. */
    method MixAndBroadcast() returns (sent: seq<Message>, freed: seq<Packet>)
      requires Valid()
      modifies this
      ensures Valid() && pool == []
      ensures sent == Sent(old(pool)) && freed == Freed(old(pool))
      ensures multiset(freed) == AllPackets(old(pool)) && forall p | p in freed :: multiset(freed)[p] == 1
    {
      hide Messages, Joined, MaxLength, Rounds;
      FreedOnce(pool);
      if |pool| == 0 {
        NothingSent();
        return [], [];
      }
      if |pool| == 1 {
        sent, freed := BroadcastAlone();
      } else {
        SomethingToDrain(pool);
        sent, freed := Drain();
      }
      pool := [];
    }

    /** The loop over the rounds.  With no packet at all it would count past its end. */
    method Drain() returns (sent: seq<Message>, freed: seq<Packet>)
      requires MaxLength(pool) > 0
      modifies this
      ensures sent == Messages(old(pool), MaxLength(old(pool)))
      ensures freed == Joined(Rounds(old(pool), MaxLength(old(pool))))
    {
      hide Heads, SpeakerSeen, Tails, Messages, Joined, MaxLength, Rounds, Draining;
      sent, freed := [], [];
      assert Draining(pool, MaxLength(pool), pool, MaxLength(pool), [], []) by { DrainStarts(pool); }
      ghost var start := pool;
      var max := LongestQueue();
      var count := 0;
      while true
        invariant 0 <= count < max
        invariant Draining(start, max, pool, max - count, sent, freed)
        decreases max - count
      {
        DrainRound(start, max, pool, max - count, sent, freed);
        var packets, speaker := TakeRound();
        if packets != [] {
          sent := sent + [MessageOf(packets, speaker)];
          freed := freed + packets;
        }
        count := count + 1;
        if count == max {
          break;
        }
      }
      DrainEnds(start, max, pool, sent, freed);
    }
  }

  lemma NothingSent()
    ensures Joined(Rounds([], MaxLength([]))) == []
  {
  }

  /** What has been sent and freed, and what the rounds left to make will send and free. */
  ghost predicate Draining(start: seq<Speaker>, max: nat, pool: seq<Speaker>, left: nat,
                           sent: seq<Message>, freed: seq<Packet>) {
    && sent + Messages(pool, left) == Messages(start, max)
    && freed + Joined(Rounds(pool, left)) == Joined(Rounds(start, max))
  }

  lemma DrainStarts(pool: seq<Speaker>)
    ensures Draining(pool, MaxLength(pool), pool, MaxLength(pool), [], [])
  {
    hide Messages, Joined, Rounds, MaxLength;
  }

  lemma DrainEnds(start: seq<Speaker>, max: nat, pool: seq<Speaker>, sent: seq<Message>, freed: seq<Packet>)
    requires Draining(start, max, pool, 0, sent, freed)
    ensures sent == Messages(start, max) && freed == Joined(Rounds(start, max))
  {
    assert Messages(pool, 0) == [] && Joined(Rounds(pool, 0)) == [];
  }

  /** `size_type` of 64 bits. */
  const SIZE_TYPES: nat := 0x1_0000_0000_0000_0000

  /** How many rounds the loop makes from `count` on: it counts first, and then compares with `max`. */
  function RoundsMade(count: nat, max: nat): (n: nat)
    requires count < SIZE_TYPES && max < SIZE_TYPES
    ensures n == if count < max then max - count else SIZE_TYPES - count + max
    decreases if count < max then max - count else SIZE_TYPES - count + max
  {
    var next := (count + 1) % SIZE_TYPES;
    if next == max then 1 else 1 + RoundsMade(next, max)
  }

  /**
   The loop makes as many rounds as the longest queue is long if and only if some
   queue holds a packet; over empty queues alone it counts once around its type.
   */
  lemma DrainLength(pool: seq<Speaker>)
    requires MaxLength(pool) < SIZE_TYPES
    ensures RoundsMade(0, MaxLength(pool)) == MaxLength(pool) <==> exists i | 0 <= i < |pool| :: pool[i].packets != []
    ensures (forall i | 0 <= i < |pool| :: pool[i].packets == []) ==> RoundsMade(0, MaxLength(pool)) == SIZE_TYPES
  {
    hide MaxLength;
    if MaxLength(pool) > 0 {
      var i :| 0 <= i < |pool| && |pool[i].packets| == MaxLength(pool);
      assert pool[i].packets != [];
    }
  }

  /** Because no queue is empty on entry, there is a round to make, and the loop's counter meets its end. */
  lemma SomethingToDrain(pool: seq<Speaker>)
    requires pool != [] && ValidPool(pool)
    ensures MaxLength(pool) > 0
  {
    hide MaxLength;
    assert |pool[0].packets| > 0;
  }

  lemma DrainRound(start: seq<Speaker>, max: nat, pool: seq<Speaker>, left: nat, sent: seq<Message>, freed: seq<Packet>)
    requires left > 0 && Draining(start, max, pool, left, sent, freed)
    ensures var packets := Heads(pool);
            Draining(start, max, Tails(pool), left - 1,
                     if packets == [] then sent else sent + [MessageOf(packets, SpeakerSeen(pool))],
                     if packets == [] then freed else freed + packets)
  {
    hide Heads, SpeakerSeen, Tails, Messages, Rounds, Joined;
    MessagesStep(pool, left);
    RoundsStep(pool, left);
    var packets, later := Heads(pool), Messages(Tails(pool), left - 1);
    if packets != [] {
      var m := MessageOf(packets, SpeakerSeen(pool));
      assert sent + ([m] + later) == sent + [m] + later;
      var rest := Joined(Rounds(Tails(pool), left - 1));
      assert freed + (packets + rest) == freed + packets + rest;
    }
  }

  lemma MessagesStep(pool: seq<Speaker>, left: nat)
    requires left > 0
    ensures var later := Messages(Tails(pool), left - 1);
            Messages(pool, left) ==
            if Heads(pool) == [] then later else [MessageOf(Heads(pool), SpeakerSeen(pool))] + later
  {
    hide Heads, SpeakerSeen, Tails;
  }

  lemma RoundsStep(pool: seq<Speaker>, left: nat)
    requires left > 0
    ensures var later := Joined(Rounds(Tails(pool), left - 1));
            Joined(Rounds(pool, left)) == if Heads(pool) == [] then later else Heads(pool) + later
  {
    hide Heads, Tails;
    var rounds := Rounds(pool, left);
    assert rounds[1..] == Rounds(Tails(pool), left - 1);
  }

  lemma NothingTaken()
    ensures Heads([]) == [] && SpeakerSeen([]) == Placeholder
  {
  }

  /** One more queue looked at. */
  lemma {:induction false} TakeStep(pool: seq<Speaker>, i: nat)
    requires i < |pool|
    ensures Heads(pool[..i + 1]) == Heads(pool[..i]) + if pool[i].packets == [] then [] else [pool[i].packets[0].packet]
    ensures SpeakerSeen(pool[..i + 1]) == if |pool[i].packets| == 1 then Id(pool[i].id) else SpeakerSeen(pool[..i])
  {
    if i > 0 {
      TakeStep(pool[1..], i - 1);
      assert pool[..i + 1][1..] == pool[1..][..i] && pool[..i][1..] == pool[1..][..i - 1];
    } else {
      assert pool[..1] == [pool[0]] && pool[..0] == [];
    }
  }
}
