/**
 An FLV stream as bytes: how it falls into packets (Adobe FLV specification
 10.1, Annex E), and which packets are frames for the viewers.
 */
module FlvStreams {
  import opened Basics
  import opened ViewerQueues

  const FLV_HEADER_SIZE: nat := 9
  const PREVIOUS_TAG_SIZE: nat := 4
  const TAG_HEADER_SIZE: nat := 11
  const STREAM_START: nat := FLV_HEADER_SIZE + PREVIOUS_TAG_SIZE

  const AUDIO_TAG: int := 8
  const VIDEO_TAG: int := 9
  const SCRIPT_TAG: int := 18

  /** The size of a tag's data with the PreviousTagSize field behind it, from its header. */
  function TagDataSize(header: Bytes): nat
    requires |header| >= TAG_HEADER_SIZE
  {
    header[1] * 65536 + header[2] * 256 + header[3] + PREVIOUS_TAG_SIZE
  }

  /** `s` begins with a whole packet: a tag header, its data and the size field. */
  predicate HasPacket(s: Bytes) {
    |s| >= TAG_HEADER_SIZE && |s| >= TAG_HEADER_SIZE + TagDataSize(s)
  }

  function PacketSize(s: Bytes): (n: nat)
    requires HasPacket(s)
    ensures TAG_HEADER_SIZE + PREVIOUS_TAG_SIZE <= n <= |s|
  {
    TAG_HEADER_SIZE + TagDataSize(s)
  }

  /** The whole packets at the front of `s`. */
  function Packets(s: Bytes): seq<Bytes> {
    if HasPacket(s) then [s[..PacketSize(s)]] + Packets(s[PacketSize(s)..]) else []
  }

  /** What is left behind the last whole packet. */
  function Rest(s: Bytes): Bytes {
    if HasPacket(s) then Rest(s[PacketSize(s)..]) else s
  }

  function Flatten(ps: seq<Bytes>): Bytes {
    if ps == [] then [] else ps[0] + Flatten(ps[1..])
  }

  /** Splitting into packets loses nothing. */
  lemma {:induction false} PacketsConserve(s: Bytes)
    ensures Flatten(Packets(s)) + Rest(s) == s
    ensures !HasPacket(Rest(s))
    decreases |s|
  {
    if HasPacket(s) {
      var n := PacketSize(s);
      PacketsConserve(s[n..]);
      assert Packets(s)[1..] == Packets(s[n..]);
      assert s == s[..n] + s[n..];
    }
  }

  /** More bytes only continue where the rest stopped. */
  lemma {:induction false} PacketsContinue(a: Bytes, b: Bytes)
    ensures Packets(a + b) == Packets(a) + Packets(Rest(a) + b)
    ensures Rest(a + b) == Rest(Rest(a) + b)
    decreases |a|
  {
    if HasPacket(a) {
      var n := PacketSize(a);
      assert HasPacket(a + b) && PacketSize(a + b) == n;
      assert (a + b)[..n] == a[..n] && (a + b)[n..] == a[n..] + b;
      PacketsContinue(a[n..], b);
    } else {
      assert Packets(a) == [] && Rest(a) == a;
    }
  }

  lemma NoPacket(s: Bytes)
    requires !HasPacket(s)
    ensures Packets(s) == [] && Rest(s) == s
  {
  }

  /** Taking packets off after every chunk, as the receiver does. */
  function PacketsByChunk(rest: Bytes, chunks: seq<Bytes>): (seq<Bytes>, Bytes)
    decreases |chunks|
  {
    if chunks == [] then (Packets(rest), Rest(rest))
    else
      var (later, end) := PacketsByChunk(Rest(rest + chunks[0]), chunks[1..]);
      (Packets(rest + chunks[0]) + later, end)
  }

  /** Packets taken off chunk by chunk are the packets of the whole stream, however it was cut. */
  lemma {:induction false} ChunksDoNotMatter(rest: Bytes, chunks: seq<Bytes>)
    ensures PacketsByChunk(rest, chunks) == (Packets(rest + Flatten(chunks)), Rest(rest + Flatten(chunks)))
    decreases |chunks|
  {
    hide Packets, Rest, HasPacket;
    if chunks == [] {
      assert rest + Flatten(chunks) == rest;
    } else {
      ChunksDoNotMatter(Rest(rest + chunks[0]), chunks[1..]);
      PacketsContinue(rest + chunks[0], Flatten(chunks[1..]));
      assert rest + Flatten(chunks) == rest + chunks[0] + Flatten(chunks[1..]);
    }
  }

  /** A rest that has just become one whole packet. */
  lemma OnePacket(s: Bytes)
    requires HasPacket(s) && PacketSize(s) == |s|
    ensures Packets(s) == [s] && Rest(s) == []
  {
    assert s[..|s|] == s && s[|s|..] == [];
  }

  // ---------------------------------------------------------- what packets are

  /** Sequence headers and script tags are kept for later viewers; all else is a frame. */
  datatype Kind = AacHeader | AvcHeader | Script | Frame(isKeyFrame: bool)

  function KindOf(p: Bytes): Kind
    requires |p| >= TAG_HEADER_SIZE + PREVIOUS_TAG_SIZE
  {
    var tagType := p[0] % 0x20;
    var d0, d1 := p[TAG_HEADER_SIZE], p[TAG_HEADER_SIZE + 1];
    if tagType == AUDIO_TAG && d0 / 16 == 10 && d1 == 0 then AacHeader
    else if tagType == VIDEO_TAG && d0 % 16 == 7 && d1 == 0 then AvcHeader
    else if tagType == SCRIPT_TAG then Script
    else Frame(tagType == VIDEO_TAG && d0 / 16 == 1)
  }

  /** The tag a packet becomes for the viewers, if it is a frame. */
  function FrameOf(p: Bytes): (ts: seq<Tag>)
    ensures forall t | t in ts :: t.data != []
  {
    if |p| >= TAG_HEADER_SIZE + PREVIOUS_TAG_SIZE && KindOf(p).Frame? then [Tag(KindOf(p).isKeyFrame, p)] else []
  }

  /** The frames among packets, as tags for the viewers. */
  function Frames(ps: seq<Bytes>): (ts: seq<Tag>)
    ensures forall t | t in ts :: t.data != []
  {
    if ps == [] then [] else FrameOf(ps[0]) + Frames(ps[1..])
  }

  lemma {:induction false} FramesJoin(ps: seq<Bytes>, qs: seq<Bytes>)
    ensures Frames(ps + qs) == Frames(ps) + Frames(qs)
  {
    hide FrameOf;
    if ps == [] {
      assert ps + qs == qs;
    } else {
      FramesOfFirst(ps + qs);
      assert (ps + qs)[1..] == ps[1..] + qs;
      FramesJoin(ps[1..], qs);
      FramesOfFirst(ps);
    }
  }

  lemma FramesOfFirst(ps: seq<Bytes>)
    requires ps != []
    ensures Frames(ps) == FrameOf(ps[0]) + Frames(ps[1..])
  {
  }
}
