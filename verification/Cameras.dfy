/**
 The receiving end of one live stream: a callback that may be woken with any
 number of bytes available, and that goes on where the last call stopped.
 */
module Cameras {
  import opened Basics
  import opened ViewerQueues
  import opened Viewers
  import opened FlvStreams
  import opened FlvTags

  /** A socket with the bytes still to come; how many a read finds is open. */
  class Socket {
    var incoming: Bytes

    /** read_specify_size: some of the next `total` bytes, or none for an error or the end. */
    method ReadSpecifySize(total: nat) returns (chunk: Bytes)
      modifies this
      ensures |chunk| <= total && old(incoming) == chunk + incoming
    {
      var k: nat :| k <= total && k <= |incoming|;
      chunk := incoming[..k];
      incoming := incoming[k..];
    }
  }

  lemma JoinsOn(received: Bytes, chunk: Bytes, incoming: Bytes)
    requires chunk != []
    ensures received + chunk + incoming == received + (chunk + incoming) && received < received + chunk
  {
  }

  /** `memcpy(a + off, chunk, |chunk|)`. */
  method CopyInto(a: array<Byte>, off: nat, chunk: Bytes)
    requires off + |chunk| <= a.Length
    modifies a
    ensures a[..off + |chunk|] == old(a[..off]) + chunk
    ensures a[off + |chunk|..] == old(a[off + |chunk|..])
  {
    forall i | 0 <= i < |chunk| {
      a[off + i] := chunk[i];
    }
  }

  /** The stream behind the file header goes on with the bytes that come in. */
  lemma StreamGrows(received: Bytes, chunk: Bytes)
    requires |received| >= STREAM_START
    ensures var a, b := received[STREAM_START..], (received + chunk)[STREAM_START..];
            && (received + chunk)[..STREAM_START] == received[..STREAM_START]
            && Packets(b) == Packets(a) + Packets(Rest(a) + chunk)
            && Rest(b) == Rest(Rest(a) + chunk)
  {
    assert (received + chunk)[STREAM_START..] == received[STREAM_START..] + chunk;
    PacketsContinue(received[STREAM_START..], chunk);
  }

  /** Bytes that complete no packet only add to the rest. */
  lemma PartGrows(received: Bytes, chunk: Bytes, part: Bytes)
    requires |received| >= STREAM_START && part == Rest(received[STREAM_START..]) && !HasPacket(part + chunk)
    ensures var grown := received + chunk;
            && grown[..STREAM_START] == received[..STREAM_START]
            && Packets(grown[STREAM_START..]) == Packets(received[STREAM_START..])
            && Rest(grown[STREAM_START..]) == part + chunk
  {
    hide Packets, Rest, HasPacket;
    StreamGrows(received, chunk);
    NoPacket(part + chunk);
  }

  /** Bytes that complete exactly one packet add it. */
  lemma PartCompletes(received: Bytes, chunk: Bytes, part: Bytes)
    requires |received| >= STREAM_START && part == Rest(received[STREAM_START..])
    requires HasPacket(part + chunk) && PacketSize(part + chunk) == |part + chunk|
    ensures var grown := received + chunk;
            && grown[..STREAM_START] == received[..STREAM_START]
            && Packets(grown[STREAM_START..]) == Packets(received[STREAM_START..]) + [part + chunk]
            && Rest(grown[STREAM_START..]) == []
  {
    hide Packets, Rest, HasPacket, PacketSize;
    StreamGrows(received, chunk);
    OnePacket(part + chunk);
  }

  lemma NotYetAPacket(s: Bytes)
    requires |s| <= TAG_HEADER_SIZE
    ensures !HasPacket(s)
  {
  }

  /** A tag header alone is no packet, and neither is one with less data than it says. */
  lemma HeaderDecides(s: Bytes, header: Bytes)
    requires |header| == TAG_HEADER_SIZE && header <= s
    ensures HasPacket(s) <==> |s| >= TAG_HEADER_SIZE + TagDataSize(header)
    ensures HasPacket(s) ==> PacketSize(s) == TAG_HEADER_SIZE + TagDataSize(header)
  {
    assert forall i | 0 <= i < TAG_HEADER_SIZE :: s[i] == header[i];
  }

  /** Bytes of a tag's data complete the packet when they are the last, and else only grow it. */
  lemma TagDataArrives(received: Bytes, chunk: Bytes, part: Bytes, header: Bytes, total: nat)
    requires |received| >= STREAM_START && part == Rest(received[STREAM_START..])
    requires |header| == TAG_HEADER_SIZE && header <= part && |chunk| <= total
    requires |part| + total == TAG_HEADER_SIZE + TagDataSize(header)
    ensures (received + chunk)[..STREAM_START] == received[..STREAM_START]
    ensures |chunk| == total ==>
              && HasPacket(part + chunk) && PacketSize(part + chunk) == |part + chunk|
              && Packets((received + chunk)[STREAM_START..]) == Packets(received[STREAM_START..]) + [part + chunk]
              && Rest((received + chunk)[STREAM_START..]) == []
    ensures |chunk| < total ==>
              && Packets((received + chunk)[STREAM_START..]) == Packets(received[STREAM_START..])
              && Rest((received + chunk)[STREAM_START..]) == part + chunk
  {
    hide Packets, Rest, HasPacket, PacketSize, TagDataSize;
    HeaderDecides(part + chunk, header);
    if |chunk| == total {
      PartCompletes(received, chunk, part);
    } else {
      PartGrows(received, chunk, part);
    }
  }

  /** No object of one viewer belongs to another. */
  ghost predicate Separate(viewers: seq<Viewer>) {
    forall i, j | 0 <= i < j < |viewers| :: viewers[i].Repr() !! viewers[j].Repr()
  }

  ghost function ReprOf(viewers: seq<Viewer>): set<object> {
    set v, o | v in viewers && o in v.Repr() :: o
  }

  /** The loop over the viewers: each is offered the tag. */
  method Distribute(viewers: seq<Viewer>, tag: Tag)
    requires Separate(viewers) && tag.data != []
    requires forall v | v in viewers :: v.Valid()
    modifies ReprOf(viewers)
    ensures forall v | v in viewers :: v.Valid() && v.offered == old(v.offered) + [tag]
  {
    hide InOrder, Ring;
    var i := 0;
    while i < |viewers|
      invariant 0 <= i <= |viewers|
      invariant forall v | v in viewers :: v.Valid()
      invariant forall k | 0 <= k < i :: viewers[k].offered == old(viewers[k].offered) + [tag]
      invariant forall k | i <= k < |viewers| :: viewers[k].offered == old(viewers[k].offered)
    {
      assert viewers[i] in viewers;
      assert forall k | 0 <= k < |viewers| && k != i :: viewers[k].Repr() !! viewers[i].Repr();
      viewers[i].Offer(tag);
      i := i + 1;
    }
  }

  datatype Status = Done | Waiting | Gone

  class Camera {
    var receiveFirst: bool
    const flvHeader: array<Byte>
    var notReceivedFlvHeaderDone: bool
    var flvHeaderReceivedBytes: nat
    const tagHeader: array<Byte>
    var notReceivedTagHeaderDone: bool
    var tagHeaderReceivedBytes: nat
    var tagData: array<Byte>
    var notReceivedTagDataDone: bool
    var tagDataSize: nat
    var tagDataReceivedBytes: nat
    /** The packets kept for viewers that come later; empty when there is none. */
    var flvScriptTag: Bytes
    var aacSequenceHeader: Bytes
    var avcSequenceHeader: Bytes

    /** All bytes received, and all packets put together from them. */
    ghost var received: Bytes
    ghost var emitted: seq<Bytes>

    /** The bytes of a packet that is not complete yet. */
    ghost function Partial(): Bytes
      requires tagHeader.Length == TAG_HEADER_SIZE && tagHeaderReceivedBytes <= TAG_HEADER_SIZE
      requires tagDataReceivedBytes <= tagData.Length
      reads this, tagHeader, tagData
    {
      if notReceivedTagHeaderDone then tagHeader[..tagHeaderReceivedBytes]
      else tagHeader[..] + tagData[..tagDataReceivedBytes]
    }

    /** The fields are in range and say which part of which packet comes next. */
    ghost predicate InRange()
      reads this, tagHeader
    {
      && flvHeader.Length == STREAM_START && tagHeader.Length == TAG_HEADER_SIZE
      && flvHeader != tagHeader && tagData != flvHeader && tagData != tagHeader
      && notReceivedTagDataDone
      && (receiveFirst ==> notReceivedFlvHeaderDone && flvHeaderReceivedBytes < STREAM_START
                           && notReceivedTagHeaderDone && tagHeaderReceivedBytes == 0)
      && (if notReceivedTagHeaderDone then
            tagHeaderReceivedBytes < TAG_HEADER_SIZE && tagDataReceivedBytes == 0
          else
            && tagHeaderReceivedBytes == 0
            && tagDataSize == tagData.Length == TagDataSize(tagHeader[..])
            && tagDataReceivedBytes < tagDataSize)
    }

    /** The state is a function of the bytes received so far. */
    ghost predicate Valid()
      reads this, flvHeader, tagHeader, tagData
    {
      && InRange()
      && (if receiveFirst then
            received == flvHeader[..flvHeaderReceivedBytes] && emitted == []
          else
            && |received| >= STREAM_START && received[..STREAM_START] == flvHeader[..]
            && emitted == Packets(received[STREAM_START..])
            && Partial() == Rest(received[STREAM_START..]))
    }

    constructor ()
      ensures Valid() && received == [] && emitted == []
      ensures fresh(flvHeader) && fresh(tagHeader) && fresh(tagData)
    {
      flvHeader := new Byte[STREAM_START];
      tagHeader := new Byte[TAG_HEADER_SIZE];
      tagData := new Byte[0];
      receiveFirst, notReceivedFlvHeaderDone := true, true;
      notReceivedTagHeaderDone, notReceivedTagDataDone := true, true;
      flvHeaderReceivedBytes, tagHeaderReceivedBytes, tagDataReceivedBytes := 0, 0, 0;
      tagDataSize := 0;
      flvScriptTag, aacSequenceHeader, avcSequenceHeader := [], [], [];
      received, emitted := [], [];
    }

    /** The first 13 bytes: the file header and the first size field. */
    method ReceiveFlvHeader(sock: Socket) returns (status: Status)
      requires Valid() && receiveFirst
      modifies this, flvHeader, sock
      ensures status != Gone ==> Valid() && old(received) < received
      ensures status != Gone ==> received + sock.incoming == old(received) + old(sock.incoming)
      ensures status == Done <==> !receiveFirst
      ensures status == Done ==> notReceivedTagHeaderDone && emitted == []
      ensures status != Gone ==> emitted == old(emitted)
      ensures tagData == old(tagData)
    {
      var total := STREAM_START - flvHeaderReceivedBytes;
      var chunk := sock.ReadSpecifySize(total);
      if |chunk| == 0 {
        return Gone;
      }
      CopyInto(flvHeader, flvHeaderReceivedBytes, chunk);
      flvHeaderReceivedBytes := flvHeaderReceivedBytes + |chunk|;
      JoinsOn(received, chunk, sock.incoming);
      received := received + chunk;
      if |chunk| != total {
        return Waiting;
      }
      notReceivedFlvHeaderDone := false;
      receiveFirst := false;
      assert received[STREAM_START..] == [];
      status := Done;
    }

    /** The next bytes of a tag header; with its end the data block is allocated. */
    method ReceiveTagHeader(sock: Socket) returns (status: Status)
      requires Valid() && !receiveFirst && notReceivedTagHeaderDone
      modifies this, tagHeader, sock
      ensures status != Gone ==> Valid() && !receiveFirst
      ensures status != Gone ==> old(received) < received
      ensures status != Gone ==> received + sock.incoming == old(received) + old(sock.incoming)
      ensures status != Gone ==> emitted == old(emitted)
      ensures status == Done ==> !notReceivedTagHeaderDone && fresh(tagData)
      ensures status != Done ==> tagData == old(tagData)
    {
      hide Packets, Rest, HasPacket, PacketSize, TagDataSize;
      var total := TAG_HEADER_SIZE - tagHeaderReceivedBytes;
      var chunk := sock.ReadSpecifySize(total);
      if |chunk| == 0 {
        return Gone;
      }
      ghost var part := Partial();
      NotYetAPacket(part + chunk);
      PartGrows(received, chunk, part);
      CopyInto(tagHeader, tagHeaderReceivedBytes, chunk);
      tagHeaderReceivedBytes := tagHeaderReceivedBytes + |chunk|;
      JoinsOn(received, chunk, sock.incoming);
      received := received + chunk;
      if |chunk| != total {
        return Waiting;
      }
      assert tagHeader[..] == tagHeader[..tagHeaderReceivedBytes];
      ExpectTagData();
      assert tagHeader[..] + tagData[..0] == tagHeader[..];
      status := Done;
    }

    /** With a whole tag header the size of the data is known. */
    method ExpectTagData()
      requires flvHeader.Length == STREAM_START && tagHeader.Length == TAG_HEADER_SIZE
      modifies this`notReceivedTagHeaderDone, this`tagHeaderReceivedBytes, this`tagDataSize, this`tagData
      ensures !notReceivedTagHeaderDone && tagHeaderReceivedBytes == 0
      ensures PREVIOUS_TAG_SIZE <= tagDataSize == tagData.Length == TagDataSize(tagHeader[..]) && fresh(tagData)
    {
      notReceivedTagHeaderDone := false;
      tagHeaderReceivedBytes := 0;
      tagDataSize := tagHeader[1] * 65536 + tagHeader[2] * 256 + tagHeader[3] + PREVIOUS_TAG_SIZE;
      tagData := new Byte[tagDataSize];
    }

    /** The next bytes of a tag's data; with their end the packet is put together. */
    method ReceiveTagData(sock: Socket) returns (status: Status, packet: Bytes)
      requires Valid() && !receiveFirst && !notReceivedTagHeaderDone
      modifies this, tagData, sock
      ensures tagData == old(tagData)
      ensures status == Waiting ==> Valid()
      ensures status != Gone ==> old(received) < received && !receiveFirst
      ensures status != Gone ==> received + sock.incoming == old(received) + old(sock.incoming)
      ensures status != Gone ==> emitted == old(emitted)
      ensures status == Done ==>
                && |received| >= STREAM_START && received[..STREAM_START] == flvHeader[..]
                && HasPacket(packet) && PacketSize(packet) == |packet|
                && Packets(received[STREAM_START..]) == emitted + [packet]
                && Rest(received[STREAM_START..]) == []
                && InRangeDone()
    {
      hide Packets, Rest, HasPacket, PacketSize, TagDataSize;
      packet := [];
      var total := tagDataSize - tagDataReceivedBytes;
      var chunk := sock.ReadSpecifySize(total);
      if |chunk| == 0 {
        return Gone, packet;
      }
      ghost var part := Partial();
      TagDataArrives(received, chunk, part, tagHeader[..], total);
      CopyInto(tagData, tagDataReceivedBytes, chunk);
      tagDataReceivedBytes := tagDataReceivedBytes + |chunk|;
      JoinsOn(received, chunk, sock.incoming);
      received := received + chunk;
      assert tagHeader[..] + tagData[..tagDataReceivedBytes] == part + chunk;
      if |chunk| != total {
        return Waiting, packet;
      }
      assert tagData[..] == tagData[..tagDataReceivedBytes];
      packet := tagHeader[..] + tagData[..];
      notReceivedTagDataDone := false;
      tagDataReceivedBytes := 0;
      status := Done;
    }

    /** A whole packet is kept for later, or offered to every viewer. */
    method Handle(packet: Bytes, viewers: seq<Viewer>)
      requires Separate(viewers) && forall v | v in viewers :: v.Valid()
      requires HasPacket(packet) && PacketSize(packet) == |packet| && this !in ReprOf(viewers)
      modifies this`flvScriptTag, this`aacSequenceHeader, this`avcSequenceHeader, ReprOf(viewers)
      ensures forall v | v in viewers :: v.Valid() && v.offered == old(v.offered) + Frames([packet])
      ensures aacSequenceHeader == if KindOf(packet) == AacHeader then packet else old(aacSequenceHeader)
      ensures avcSequenceHeader == if KindOf(packet) == AvcHeader then packet else old(avcSequenceHeader)
      ensures flvScriptTag == if KindOf(packet) == Script then packet else old(flvScriptTag)
    {
      assert Frames([packet]) == if KindOf(packet).Frame? then [Tag(KindOf(packet).isKeyFrame, packet)] else [];
      match KindOf(packet) {
        case AacHeader => aacSequenceHeader := packet;
        case AvcHeader => avcSequenceHeader := packet;
        case Script => flvScriptTag := packet;
        case Frame(isKeyFrame) => Distribute(viewers, Tag(isKeyFrame, packet));
      }
    }

    /** The last steps for a whole packet, after which the next header is awaited. */
    method AwaitNext(ghost packet: Bytes)
      requires InRangeDone()
      requires |received| >= STREAM_START && received[..STREAM_START] == flvHeader[..]
      requires Packets(received[STREAM_START..]) == emitted + [packet]
      requires Rest(received[STREAM_START..]) == []
      modifies this`emitted, this`notReceivedTagHeaderDone, this`notReceivedTagDataDone, tagHeader
      ensures Valid() && notReceivedTagHeaderDone && emitted == old(emitted) + [packet]
    {
      hide Packets, Rest;
      emitted := emitted + [packet];
      forall i | 0 <= i < tagHeader.Length {
        tagHeader[i] := 0;
      }
      notReceivedTagHeaderDone := true;
      notReceivedTagDataDone := true;
    }

    /** The reading half of receive_stream_cb: up to three reads, each going on where the last call stopped. */
    method Receive(sock: Socket) returns (status: Status, packet: Bytes)
      requires Valid()
      modifies this, flvHeader, tagHeader, tagData, sock
      ensures status != Gone ==> old(received) < received
      ensures status != Gone ==> received + sock.incoming == old(received) + old(sock.incoming)
      ensures status != Gone ==> emitted == old(emitted)
      ensures status == Waiting ==> Valid()
      ensures status == Done ==>
                && InRangeDone() && |received| >= STREAM_START && received[..STREAM_START] == flvHeader[..]
                && HasPacket(packet) && PacketSize(packet) == |packet|
                && Packets(received[STREAM_START..]) == emitted + [packet]
                && Rest(received[STREAM_START..]) == []
      ensures tagData == old(tagData) || fresh(tagData)
    {
      hide Packets, Rest;
      status, packet := Done, [];
      if receiveFirst {
        status := ReceiveFlvHeader(sock);
        if status != Done {
          return;
        }
      }
      if notReceivedTagHeaderDone {
        status := ReceiveTagHeader(sock);
        if status != Done {
          return;
        }
      }
      status, packet := ReceiveTagData(sock);
    }

    /** The fields once a packet is complete. */
    ghost predicate InRangeDone()
      reads this
    {
      && flvHeader.Length == STREAM_START && tagHeader.Length == TAG_HEADER_SIZE
      && tagHeader != flvHeader && tagData != flvHeader && tagData != tagHeader
      && !receiveFirst && tagHeaderReceivedBytes == 0 && tagDataReceivedBytes == 0
    }

    /**
     receive_stream_cb.  Whatever the reads return, no byte is lost or made up
     between the socket and `received`, and every viewer is offered exactly the
     frames of the packets completed.
     */
    method ReceiveStreamCb(sock: Socket, viewers: seq<Viewer>) returns (gone: bool)
      requires Valid() && Separate(viewers) && forall v | v in viewers :: v.Valid()
      requires {this, flvHeader, tagHeader, tagData, sock} !! ReprOf(viewers)
      modifies this, flvHeader, tagHeader, tagData, sock, ReprOf(viewers)
      ensures !gone ==> Valid() && old(received) < received
      ensures !gone ==> received + sock.incoming == old(received) + old(sock.incoming)
      ensures !gone ==> old(emitted) <= emitted
      ensures !gone ==> forall v | v in viewers ::
                v.Valid() && v.offered == old(v.offered) + Frames(emitted[|old(emitted)|..])
      ensures gone ==> forall v | v in viewers :: v.Valid() && v.offered == old(v.offered)
      ensures tagData == old(tagData) || fresh(tagData)
    {
      hide Packets, Rest, Frames, KindOf, HasPacket, PacketSize, TagDataSize, Flatten, Separate, InRange, Partial;
      var status, packet := Receive(sock);
      if status != Done {
        NoFrames(emitted);
        return status == Gone;
      }
      assert (emitted + [packet])[|emitted|..] == [packet];
      Handle(packet, viewers);
      AwaitNext(packet);
      gone := false;
    }

    lemma NoFrames(ps: seq<Bytes>)
      ensures ps[|ps|..] == [] && Frames(ps[|ps|..]) == []
    {
    }

    /** The bytes of the stream are the file header, the packets and the part of the next one. */
    lemma BytesConserved()
      requires Valid() && !receiveFirst
      ensures received == flvHeader[..] + Flatten(emitted) + Partial()
    {
      PacketsConserve(received[STREAM_START..]);
      assert received == received[..STREAM_START] + received[STREAM_START..];
    }
  }

  /**
   Whatever tags a camera has sent behind the 13 bytes of its file header, with a
   part of another one: those tags have been put together, and the part waits.
   */
  lemma TagsArrive(c: Camera, ts: seq<FlvTag>, last: FlvTag, k: nat)
    requires c.Valid() && AreTags(ts) && IsTag(last) && k < |Rendered(last)|
    requires |c.received| >= 13 && c.received[13..] == Flatten(AllRendered(ts)) + Rendered(last)[..k]
    ensures !c.receiveFirst && c.emitted == AllRendered(ts) && c.Partial() == Rendered(last)[..k]
  {
    hide Packets, Rest, Rendered;
    TagsArePackets(ts, last, k);
  }

  /** How reads split the stream makes no difference: the bytes alone decide what was put together. */
  lemma ChunkingIsInvisible(a: Camera, b: Camera)
    requires a.Valid() && b.Valid() && a.received == b.received
    ensures a.receiveFirst == b.receiveFirst && a.emitted == b.emitted
    ensures !a.receiveFirst ==> a.Partial() == b.Partial()
  {
  }

  /** `v` has been offered every frame of the stream since the first `joined` packets. */
  ghost predicate Watches(v: Viewer, c: Camera, joined: nat)
    reads v, v.queue, v.queue.tags, c
  {
    v.Valid() && joined <= |c.emitted| && v.offered == Frames(c.emitted[joined..])
  }

  /** A viewer that watches goes on watching when more packets are offered. */
  lemma WatchingContinues(before: seq<Bytes>, after: seq<Bytes>, joined: nat, offered: seq<Tag>)
    requires joined <= |before| && before <= after && offered == Frames(before[joined..])
    ensures offered + Frames(after[|before|..]) == Frames(after[joined..])
  {
    FramesJoin(before[joined..], after[|before|..]);
    assert before[joined..] + after[|before|..] == after[joined..];
  }

  // --------------------------------------------- what the event loop makes happen

  /** A new viewer joins: it watches from the next packet on. */
  method Join(c: Camera) returns (v: Viewer)
    requires c.Valid()
    ensures fresh(v.Repr()) && c.Valid() && Watches(v, c, |c.emitted|)
  {
    hide Packets, Rest, Frames;
    v := new Viewer();
    NothingSince(c.emitted);
  }

  lemma NothingSince(ps: seq<Bytes>)
    ensures Frames(ps[|ps|..]) == []
  {
  }

  /** The camera's socket is readable: every viewer goes on watching. */
  method Readable(c: Camera, sock: Socket, viewers: seq<Viewer>, ghost joined: seq<nat>) returns (gone: bool)
    requires c.Valid() && Separate(viewers) && |joined| == |viewers|
    requires {c, c.flvHeader, c.tagHeader, c.tagData, sock} !! ReprOf(viewers)
    requires forall i | 0 <= i < |viewers| :: Watches(viewers[i], c, joined[i])
    modifies c, c.flvHeader, c.tagHeader, c.tagData, sock, ReprOf(viewers)
    ensures !gone ==> c.Valid() && forall i | 0 <= i < |viewers| :: Watches(viewers[i], c, joined[i])
  {
    hide Packets, Rest, Frames, Separate;
    ghost var before := c.emitted;
    gone := c.ReceiveStreamCb(sock, viewers);
    if !gone {
      forall i | 0 <= i < |viewers| ensures Watches(viewers[i], c, joined[i]) {
        assert viewers[i] in viewers;
        WatchingContinues(before, c.emitted, joined[i], old(viewers[i].offered));
      }
    }
  }

  /** A viewer's socket is writable: unless it is closed, the viewer goes on watching. */
  method Writable(v: Viewer, written: int, c: Camera, ghost joined: nat) returns (closed: bool)
    requires Watches(v, c, joined) && v.active && c !in v.Repr()
    requires !v.queue.empty ==>
               -1 <= written <= |v.queue.Contents()[0].tag.data| - v.queue.Contents()[0].sent
    modifies v.Repr()
    ensures !closed ==> Watches(v, c, joined)
  {
    hide Frames;
    closed := v.SendTags(written);
  }

  /**
   End to end: what a viewer was sent is a subsequence, in order, of the frames
   in the bytes the camera sent since the viewer joined, it begins with a key
   frame, and at most 79 tags wait.
   */
  lemma DeliveredFromStream(v: Viewer, c: Camera, joined: nat)
    requires c.Valid() && !c.receiveFirst && Watches(v, c, joined)
    ensures var packets := Packets(c.received[STREAM_START..]);
            joined <= |packets| && Subsequence(v.delivered, Frames(packets[joined..]))
    ensures v.delivered != [] ==> v.delivered[0].isKeyFrame
    ensures |v.queue.Contents()| <= 79
  {
    SubsequencePrefix(v.delivered, Tags(v.queue.Contents()), v.offered);
  }
}
