/**
  The slab: a buffered channel of byte blocks that are handed out and pushed back
  (dht/slab.go, dht/node.go). A channel of capacity n is a queue of at most n blocks.
 */
module Slab {
  import opened Bytes

  /** A Go slice: a window on an array, whose capacity reaches to the end of the array. */
  datatype Slice = Slice(block: array<Byte>, off: nat, len: nat)

  predicate WellFormed(x: Slice) {
    x.off + x.len <= x.block.Length
  }

  function Cap(x: Slice): (n: nat)
    requires WellFormed(x)
  {
    x.block.Length - x.off
  }

  /** `x[:n]`, for n up to the capacity. */
  function Resliced(x: Slice, n: nat): (r: Slice)
    requires WellFormed(x) && n <= Cap(x)
    ensures WellFormed(r)
  {
    x.(len := n)
  }

  /** A receive from the channel either gets a block or waits for one. */
  datatype Received = Waits | Got(x: Slice)

  class Pool {
    const blockSize: nat
    const numBlocks: nat
    var queue: seq<Slice>
    /** Blocks handed out and not yet returned. */
    ghost var outstanding: set<array<Byte>>

    /** Every block is in one place only, queued once or outstanding, and none is missing. */
    ghost predicate Balanced()
      reads this
    {
      && (forall i :: 0 <= i < |queue| ==>
            && WellFormed(queue[i]) && queue[i].block.Length == blockSize
            && queue[i].block !in outstanding)
      && (forall i, j :: 0 <= i < j < |queue| ==> queue[i].block != queue[j].block)
      && (forall b :: b in outstanding ==> b.Length == blockSize)
      && |queue| + |outstanding| == numBlocks
    }

    /** Every queued slice is the whole of its block. */
    ghost predicate Whole()
      reads this
    {
      forall i :: 0 <= i < |queue| ==> queue[i].off == 0 && queue[i].len == blockSize
    }

    ghost predicate Valid()
      reads this
    {
      Balanced() && Whole()
    }

    constructor (blockSize: nat, numBlocks: nat)
      ensures Valid() && this.blockSize == blockSize && this.numBlocks == numBlocks
      ensures outstanding == {} && |queue| == numBlocks
    {
      this.blockSize := blockSize;
      this.numBlocks := numBlocks;
      this.outstanding := {};
      this.queue := [];
      new;
      var i := 0;
      while i < numBlocks
        invariant 0 <= i <= numBlocks && |queue| == i
        invariant forall k :: 0 <= k < i ==> queue[k].block.Length == blockSize
        invariant forall k :: 0 <= k < i ==> queue[k].off == 0 && queue[k].len == blockSize
        invariant forall j, k :: 0 <= j < k < i ==> queue[j].block != queue[k].block
        invariant outstanding == {}
        modifies this
      {
        var block := new Byte[blockSize];
        queue := queue + [Slice(block, 0, blockSize)];
        i := i + 1;
      }
    }

    /** A receive from the channel, which waits exactly while all blocks are outstanding. */
    method Alloc() returns (r: Received)
      requires Valid()
      modifies this
      ensures Valid()
      ensures r.Waits? <==> |old(outstanding)| == numBlocks
      ensures r.Waits? ==> queue == old(queue) && outstanding == old(outstanding)
      ensures r.Got? ==>
                && r.x == old(queue)[0] && queue == old(queue)[1..]
                && r.x.off == 0 && r.x.len == r.x.block.Length == blockSize
                && outstanding == old(outstanding) + {r.x.block} && r.x.block !in old(outstanding)
    {
      if |queue| == 0 {
        return Waits;
      }
      var x := queue[0];
      queue := queue[1..];
      outstanding := outstanding + {x.block};
      return Got(x);
    }

    /**
      A send to the channel of a slice of an outstanding block, stretched to its capacity.
      There is always room for it. What comes back is the whole block exactly if the slice
      started at the block's first byte, as every prefix does.
     */
    method Free(x: Slice)
      requires Valid() && WellFormed(x) && x.block in outstanding
      modifies this
      ensures Balanced() && old(|queue|) < numBlocks
      ensures outstanding == old(outstanding) - {x.block}
      ensures queue == old(queue) + [Slice(x.block, x.off, blockSize - x.off)]
      ensures Valid() <==> x.off == 0
    {
      var whole := Resliced(x, Cap(x));
      queue := queue + [whole];
      outstanding := outstanding - {x.block};
      assert queue[|queue| - 1] == whole;
    }
  }
}
