/**
 The fixed-size memory pool: free blocks hang in a chain through their first
 bytes, which belong to the user once a block is handed out.
 */
module FreeListPool {

  const EXPANSION_SIZE: nat := 32

  /** A block of memory, seen as the link it holds while it is free. */
  class Block {
    var next: Block?

    constructor ()
      ensures next == null
    {
      next := null;
    }
  }

  /** The chain from `head` runs through `list` and ends there. */
  ghost predicate Chained(head: Block?, list: seq<Block>)
    reads list
  {
    && (list == [] ==> head == null)
    && (list != [] ==> head == list[0] && list[|list| - 1].next == null)
    && forall i | 0 <= i < |list| - 1 :: list[i].next == list[i + 1]
  }

  ghost predicate NoRepeats(list: seq<Block>) {
    forall i, j | 0 <= i < j < |list| :: list[i] != list[j]
  }

  ghost function Elements(list: seq<Block>): set<Block> {
    set b | b in list
  }

  /** Of a list without repeats, the first element is not among the others. */
  lemma WithoutFirst(list: seq<Block>)
    requires list != [] && NoRepeats(list)
    ensures NoRepeats(list[1..]) && Elements(list[1..]) == Elements(list) - {list[0]}
  {
    assert list == [list[0]] + list[1..];
  }

  /** As many blocks as a list without repeats is long. */
  lemma {:induction false} CountElements(list: seq<Block>)
    requires NoRepeats(list)
    ensures |Elements(list)| == |list|
  {
    if list != [] {
      WithoutFirst(list);
      CountElements(list[1..]);
      assert Elements(list) == Elements(list[1..]) + {list[0]};
    }
  }

  class MemoryPool {
    var next: Block?

    /** The free blocks in the order of the chain, and the blocks in use. */
    ghost var free: seq<Block>
    ghost var live: set<Block>

    /** Every block ever made. */
    ghost var all: set<Block>

    /** Nothing is said of the links of live blocks: their users may overwrite them. */
    ghost predicate Valid()
      reads this, free
    {
      Chained(next, free) && NoRepeats(free) && Elements(free) !! live && Elements(free) + live == all
    }

    constructor (size: int)
      ensures Valid() && live == {} && fresh(all)
      ensures |free| == if size < 0 then 1 else size + 1
    {
      next, free, live, all := null, [], {}, {};
      new;
      ExpandTheFreeList(size);
    }

    /** expandTheFreeList: a new chain, one block longer than asked for.  It is made only when there is no chain. */
    method ExpandTheFreeList(howMany: int)
      requires Valid() && free == []
      modifies this
      ensures Valid() && live == old(live) && fresh(Elements(free)) && all == old(all) + Elements(free)
      ensures |free| == if howMany < 0 then 1 else howMany + 1
    {
      var runner: Block := new Block();
      next := runner;
      ghost var made: seq<Block> := [runner];
      var index := 0;
      while index < howMany
        invariant 0 <= index && (index <= howMany || index == 0) && |made| == index + 1
        invariant fresh(runner) && next == made[0] && runner == made[index] && NoRepeats(made)
        invariant forall b | b in made :: fresh(b)
        invariant forall i | 0 <= i < index :: made[i].next == made[i + 1]
        invariant live == old(live) && all == old(all) && forall b | b in made :: b !in live
      {
        var block := new Block();
        runner.next := block;
        made := made + [block];
        runner := block;
        index := index + 1;
      }
      runner.next := null;
      free, all := made, all + Elements(made);
    }

    /** alloc: the first free block, made on the spot when there is none. */
    method Alloc() returns (head: Block)
      requires Valid()
      modifies this
      ensures Valid() && head !in old(live) && live == old(live) + {head}
      ensures old(free) != [] ==> head == old(free)[0] && free == old(free)[1..] && all == old(all)
      ensures old(free) == [] ==> |free| == 32 && fresh(all - old(all)) && all > old(all)
    {
      if next == null {
        ExpandTheFreeList(EXPANSION_SIZE);
      }
      WithoutFirst(free);
      assert free[0] in free && forall b | b in free[1..] :: b in free;
      head := next;
      next := next.next;
      free, live := free[1..], live + {head};
    }

    /** free: the block becomes the first free one. */
    method Free(doomed: Block)
      requires Valid() && doomed in live
      modifies this, doomed
      ensures Valid() && free == [doomed] + old(free) && live == old(live) - {doomed}
      ensures all == old(all)
    {
      doomed.next := next;
      next := doomed;
      free, live := [doomed] + free, live - {doomed};
    }
  }

  /** Free and live blocks make up all blocks, and none is counted twice. */
  lemma Conservation(pool: MemoryPool)
    requires pool.Valid()
    ensures |pool.all| == |pool.free| + |pool.live|
  {
    CountElements(pool.free);
  }

  /** The user of a block may write over its link: the pool does not look at it. */
  method Overwrite(pool: MemoryPool, block: Block, content: Block?)
    requires pool.Valid() && block in pool.live
    modifies block
    ensures pool.Valid()
  {
    block.next := content;
  }

  /** A freed block is the next one to be handed out, and until then nobody has it. */
  method FreeThenAlloc(pool: MemoryPool, doomed: Block) returns (again: Block)
    requires pool.Valid() && doomed in pool.live
    modifies pool, doomed
    ensures pool.Valid() && again == doomed
    ensures pool.free == old(pool.free) && pool.live == old(pool.live)
  {
    pool.Free(doomed);
    again := pool.Alloc();
  }
}
