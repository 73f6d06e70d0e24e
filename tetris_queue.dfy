/** The Tetris block queue: a one-slot lookahead over a fixed pool of seven block
    objects, one per kind. A draw hands out a pool object itself, never a copy, so the
    same object comes back every time its kind is drawn again. The random generator is
    modelled as a nondeterministic choice. */
module TetrisQueue {
  import opened TetrisBlocks

  /** A block kind: its rotation table and its start offset. */
  datatype Kind = Kind(tiles: seq<seq<Pos>>, startOffset: Pos)

  class BlockQueue {
    /** The pool, in the order I, J, L, O, S, T, Z; the block at index i has id i + 1. */
    const blocks: seq<Block>
    var nextBlock: Block

    ghost predicate Valid()
      reads this
    {
      && |blocks| == 7
      && (forall i :: 0 <= i < 7 ==> blocks[i].id == i + 1 && |blocks[i].tiles| > 0)
      && nextBlock in blocks
    }

    constructor (kinds: seq<Kind>)
      requires |kinds| == 7 && forall i :: 0 <= i < 7 ==> |kinds[i].tiles| > 0
      ensures Valid() && fresh(blocks)
      ensures forall i :: 0 <= i < 7 ==>
                && blocks[i].tiles == kinds[i].tiles
                && blocks[i].startOffset == kinds[i].startOffset
    {
      // The pool initializer: one block per kind, in table order.
      var pool: seq<Block> := [];
      for k := 0 to 7
        invariant |pool| == k && fresh(pool)
        invariant forall m :: 0 <= m < k ==>
                    && pool[m].id == m + 1 && pool[m].Valid()
                    && pool[m].tiles == kinds[m].tiles
                    && pool[m].startOffset == kinds[m].startOffset
      {
        var b := new Block(kinds[k].tiles, kinds[k].startOffset, k + 1);
        pool := pool + [b];
      }
      blocks := pool;
      nextBlock := pool[0];
      new;
      nextBlock := RandomBlock();
    }

    /** Any block of the pool. */
    method RandomBlock() returns (b: Block)
      requires |blocks| == 7
      ensures b in blocks
    {
      var k :| 0 <= k < |blocks|;
      b := blocks[k];
    }

    /** Hands out the lookahead block and replaces it by a pool block of another kind.
        The game redraws until the kind differs; every run of that loop that ends picks
        such a block, and the model picks one directly. */
    method GetAndUpdate() returns (block: Block)
      requires Valid()
      modifies this`nextBlock
      ensures Valid()
      ensures block == old(nextBlock)
      ensures nextBlock.id != block.id
    {
      block := nextBlock;
      var k :| 0 <= k < 7 && blocks[k].id != block.id by {
        if block.id == 1 {
          assert blocks[1].id != block.id;
        } else {
          assert blocks[0].id != block.id;
        }
      }
      nextBlock := blocks[k];
    }
  }

  /** Blocks of the same kind drawn from one queue are the very same object. */
  lemma SameKindSameBlock(q: BlockQueue, a: Block, b: Block)
    requires q.Valid() && a in q.blocks && b in q.blocks && a.id == b.id
    ensures a == b
  {
    var i :| 0 <= i < 7 && q.blocks[i] == a;
    var j :| 0 <= j < 7 && q.blocks[j] == b;
  }
}
