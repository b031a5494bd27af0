/**
 FLV tags as a camera writes them (Adobe FLV specification 10.1, Annex E.4),
 and that they are what the receiver takes off the stream.
 */
module FlvTags {
  import opened Basics
  import opened FlvStreams
  import opened ViewerQueues

  /**
   A tag: its type byte, the seven bytes of time stamp and stream id, its data,
   and the four bytes of the size field behind it, which the receiver ignores.
   */
  datatype FlvTag = FlvTag(kind: Byte, stamp: Bytes, data: Bytes, behind: Bytes)

  ghost predicate IsTag(t: FlvTag) {
    |t.stamp| == 7 && |t.data| < 0x100_0000 && |t.behind| == 4
  }

  /** The bytes of a tag: the length of the data goes in front as three bytes, the highest first. */
  function Rendered(t: FlvTag): Bytes
    requires |t.data| < 0x100_0000
  {
    [t.kind, |t.data| / 0x1_0000, |t.data| / 0x100 % 0x100, |t.data| % 0x100] + t.stamp + t.data + t.behind
  }

  ghost predicate AreTags(ts: seq<FlvTag>) {
    forall i | 0 <= i < |ts| :: IsTag(ts[i])
  }

  function AllRendered(ts: seq<FlvTag>): (ps: seq<Bytes>)
    requires AreTags(ts)
    ensures |ps| == |ts| && forall i | 0 <= i < |ts| :: ps[i] == Rendered(ts[i])
  {
    seq(|ts|, i requires 0 <= i < |ts| => Rendered(ts[i]))
  }

  lemma ThreeBytes(n: nat)
    requires n < 0x100_0000
    ensures n / 0x1_0000 * 65536 + n / 0x100 % 0x100 * 256 + n % 0x100 == n
  {
    assert n / 0x100 / 0x100 == n / 0x1_0000;
  }

  lemma BytesOf(a: Byte, b: Byte, c: Byte)
    ensures var n: nat := a as int * 65536 + b as int * 256 + c as int;
            n < 0x100_0000 && n / 0x1_0000 == a && n / 0x100 % 0x100 == b && n % 0x100 == c
  {
    var m: nat := a as int * 256 + b as int;
    var n: nat := m * 256 + c as int;
    assert n / 0x100 == m && n % 0x100 == c as int;
    assert n / 0x1_0000 == n / 0x100 / 0x100;
  }

  /** A whole tag in front of anything is the first packet. */
  lemma TagIsPacket(t: FlvTag, rest: Bytes)
    requires IsTag(t)
    ensures HasPacket(Rendered(t) + rest) && PacketSize(Rendered(t) + rest) == |Rendered(t)|
  {
    ThreeBytes(|t.data|);
    var s := Rendered(t) + rest;
    assert s[1] == |t.data| / 0x1_0000 && s[2] == |t.data| / 0x100 % 0x100 && s[3] == |t.data| % 0x100;
  }

  /** A part of a tag is no packet. */
  lemma PartIsNoPacket(t: FlvTag, k: nat)
    requires IsTag(t) && k < |Rendered(t)|
    ensures !HasPacket(Rendered(t)[..k])
  {
    ThreeBytes(|t.data|);
    var s := Rendered(t)[..k];
    if k >= 11 {
      assert s[1] == |t.data| / 0x1_0000 && s[2] == |t.data| / 0x100 % 0x100 && s[3] == |t.data| % 0x100;
    }
  }

  /**
   Whatever tags the stream holds, with a part of another one behind them, the
   packets taken off it are those tags, and the part is the rest.
   */
  lemma {:induction false} TagsArePackets(ts: seq<FlvTag>, last: FlvTag, k: nat)
    requires AreTags(ts) && IsTag(last) && k < |Rendered(last)|
    ensures Packets(Flatten(AllRendered(ts)) + Rendered(last)[..k]) == AllRendered(ts)
    ensures Rest(Flatten(AllRendered(ts)) + Rendered(last)[..k]) == Rendered(last)[..k]
    decreases |ts|
  {
    hide Rendered, HasPacket, PacketSize;
    var part := Rendered(last)[..k];
    if ts == [] {
      PartIsNoPacket(last, k);
      assert Flatten(AllRendered(ts)) + part == part;
    } else {
      var first, later := Rendered(ts[0]), Flatten(AllRendered(ts[1..])) + part;
      TagIsPacket(ts[0], later);
      TagsArePackets(ts[1..], last, k);
      assert AllRendered(ts) == [first] + AllRendered(ts[1..]);
      assert Flatten(AllRendered(ts)) + part == first + later;
      assert (first + later)[..|first|] == first && (first + later)[|first|..] == later;
    }
  }

  /** Conversely, every packet taken off any stream is a tag. */
  lemma PacketIsTag(s: Bytes) returns (t: FlvTag)
    requires HasPacket(s)
    ensures IsTag(t) && Rendered(t) == s[..PacketSize(s)]
  {
    var n: nat := s[1] as int * 65536 + s[2] as int * 256 + s[3] as int;
    t := FlvTag(s[0], s[4..11], s[11..11 + n], s[11 + n..15 + n]);
    BytesOf(s[1], s[2], s[3]);
    assert s[..15 + n] == [s[0], s[1], s[2], s[3]] + s[4..11] + s[11..11 + n] + s[11 + n..15 + n];
  }

  // ---------------------------------------------------------- what viewers are given

  /** The low five bits of the type byte are the tag's type; the others are flags. */
  lemma AudioTags(t: FlvTag, flags: nat, soundFormat: nat, low: nat)
    requires IsTag(t) && flags < 8 && t.kind == flags * 32 + 8
    requires |t.data| >= 2 && soundFormat < 16 && low < 16 && t.data[0] == soundFormat * 16 + low
    ensures KindOf(Rendered(t)) == if soundFormat == 10 && t.data[1] == 0 then AacHeader else Frame(false)
  {
    DataStarts(t);
  }

  lemma VideoTags(t: FlvTag, flags: nat, frameType: nat, codec: nat)
    requires IsTag(t) && flags < 8 && t.kind == flags * 32 + 9
    requires |t.data| >= 2 && frameType < 16 && codec < 16 && t.data[0] == frameType * 16 + codec
    ensures KindOf(Rendered(t)) == if codec == 7 && t.data[1] == 0 then AvcHeader else Frame(frameType == 1)
  {
    DataStarts(t);
  }

  lemma OtherTags(t: FlvTag, flags: nat, kind: nat)
    requires IsTag(t) && flags < 8 && kind < 32 && kind != 8 && kind != 9 && t.kind == flags * 32 + kind
    ensures |Rendered(t)| >= 15
    ensures KindOf(Rendered(t)) == if kind == 18 then Script else Frame(false)
  {
  }

  lemma DataStarts(t: FlvTag)
    requires IsTag(t) && |t.data| >= 2
    ensures |Rendered(t)| >= 17 && Rendered(t)[0] == t.kind
    ensures Rendered(t)[11] == t.data[0] && Rendered(t)[12] == t.data[1]
  {
  }

  /** A tag for the viewers holds all bytes of the tag of the stream. */
  lemma FrameHoldsTag(t: FlvTag)
    requires IsTag(t)
    ensures |Rendered(t)| >= 15
    ensures KindOf(Rendered(t)).Frame? ==>
              FrameOf(Rendered(t)) == [Tag(KindOf(Rendered(t)).isKeyFrame, Rendered(t))]
    ensures !KindOf(Rendered(t)).Frame? ==> FrameOf(Rendered(t)) == []
  {
    hide KindOf;
  }
}
