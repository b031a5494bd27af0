/**
 The byte pool: requests are cut from the front of a chunk, and a chunk that
 cannot serve a request is followed by a new one.
 */
module BytePool {

  const DEFAULT_CHUNK_SIZE: nat := 4096

  class MemoryChunk {
    const next: MemoryChunk?
    const chunkSize: nat
    var bytesAlreadyAllocated: nat

    constructor (next: MemoryChunk?, chunkSize: nat)
      ensures this.next == next && bytesAlreadyAllocated == 0
      ensures this.chunkSize == if DEFAULT_CHUNK_SIZE > chunkSize then DEFAULT_CHUNK_SIZE else chunkSize
    {
      this.next := next;
      this.chunkSize := if DEFAULT_CHUNK_SIZE > chunkSize then DEFAULT_CHUNK_SIZE else chunkSize;
      bytesAlreadyAllocated := 0;
    }

    ghost predicate Valid()
      reads this
    {
      bytesAlreadyAllocated <= chunkSize
    }

    function SpaceAvailable(): (space: nat)
      requires Valid()
      reads this
    {
      chunkSize - bytesAlreadyAllocated
    }

    /** MemoryChunk::alloc checks nothing: its caller has. */
    method Alloc(requestSize: nat) returns (offset: nat)
      requires Valid() && requestSize <= SpaceAvailable()
      modifies this
      ensures Valid() && offset == old(bytesAlreadyAllocated)
      ensures bytesAlreadyAllocated == old(bytesAlreadyAllocated) + requestSize
    {
      offset := bytesAlreadyAllocated;
      bytesAlreadyAllocated := bytesAlreadyAllocated + requestSize;
    }
  }

  /** Memory that was handed out: `size` bytes of a chunk. */
  datatype Range = Range(chunk: MemoryChunk, offset: nat, size: nat)

  ghost predicate Disjoint(a: Range, b: Range) {
    a.chunk != b.chunk || a.offset + a.size <= b.offset || b.offset + b.size <= a.offset
  }

  class ByteMemoryPool {
    var listOfMemoryChunks: MemoryChunk

    /** All chunks, and everything that was ever handed out. */
    ghost var chunks: set<MemoryChunk>
    ghost var ranges: seq<Range>

    /** Every range lies in the used part of its chunk, and no two overlap. */
    ghost predicate Valid()
      reads this, chunks
    {
      && listOfMemoryChunks in chunks
      && (forall c | c in chunks :: c.Valid())
      && (forall r | r in ranges :: r.chunk in chunks && r.offset + r.size <= r.chunk.bytesAlreadyAllocated)
      && (forall i, j | 0 <= i < j < |ranges| :: Disjoint(ranges[i], ranges[j]))
    }

    constructor (initSize: nat)
      ensures Valid() && ranges == [] && fresh(chunks)
      ensures listOfMemoryChunks.SpaceAvailable() >= initSize
    {
      var chunk := new MemoryChunk(null, initSize);
      listOfMemoryChunks := chunk;
      chunks, ranges := {chunk}, [];
    }

    /** expandStorage: a chunk of at least the requested size, in front of the others. */
    method ExpandStorage(requestSize: nat)
      requires Valid()
      modifies this
      ensures Valid() && ranges == old(ranges) && fresh(listOfMemoryChunks)
      ensures listOfMemoryChunks.next == old(listOfMemoryChunks)
      ensures chunks == old(chunks) + {listOfMemoryChunks}
      ensures listOfMemoryChunks.bytesAlreadyAllocated == 0
      ensures listOfMemoryChunks.chunkSize == if requestSize <= 4096 then 4096 else requestSize
    {
      listOfMemoryChunks := new MemoryChunk(listOfMemoryChunks, requestSize);
      chunks := chunks + {listOfMemoryChunks};
    }

    /** alloc: a range of exactly the requested size that overlaps nothing handed out before. */
    method Alloc(requestSize: nat) returns (r: Range)
      requires Valid()
      modifies this, chunks
      ensures Valid() && ranges == old(ranges) + [r] && r.size == requestSize
      ensures r.chunk in chunks && r.offset + r.size <= r.chunk.chunkSize
      ensures forall a | a in old(ranges) :: Disjoint(a, r)
      ensures old(listOfMemoryChunks.SpaceAvailable()) >= requestSize ==>
                r.chunk == old(listOfMemoryChunks) && r.offset == old(listOfMemoryChunks.bytesAlreadyAllocated) && chunks == old(chunks)
      ensures old(listOfMemoryChunks.SpaceAvailable()) < requestSize ==>
                fresh(r.chunk) && r.offset == 0 && chunks == old(chunks) + {r.chunk}
                && r.chunk.chunkSize == if requestSize <= 4096 then 4096 else requestSize
    {
      if listOfMemoryChunks.SpaceAvailable() < requestSize {
        ExpandStorage(requestSize);
      }
      var offset := listOfMemoryChunks.Alloc(requestSize);
      r := Range(listOfMemoryChunks, offset, requestSize);
      ranges := ranges + [r];
    }
  }
}
