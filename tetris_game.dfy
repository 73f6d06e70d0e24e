/** The Tetris game state. It owns the grid, the block queue, the current block, the
    optional held block, the hold gate, the score and the game-over flag. Moves and
    rotations are applied to the current block and undone when it no longer fits. A
    block that cannot go further down is written into the grid; then full rows are
    cleared and scored, and the game ends if anything is left in the two hidden top
    rows. Otherwise the queue supplies the next block. */
module TetrisGame {
  import opened TetrisGrid
  import opened TetrisBlocks
  import opened TetrisQueue

  const Rows: nat := 22
  const Columns: nat := 10

  /** The first rotation state of a kind, placed at its start offset, lies within the two
      top rows and the columns of the grid. This holds for the standard kind tables, and
      without it a freshly activated block could stick out of the grid. */
  predicate SpawnsOnTop(tiles: seq<seq<Pos>>, start: Pos)
  {
    |tiles| > 0 && OnTop(Shifted(tiles[0], start))
  }

  /** Every tile lies within the two top rows and the columns of the grid. */
  predicate OnTop(ps: seq<Pos>)
  {
    forall i :: 0 <= i < |ps| ==> 0 <= ps[i].row < 2 && 0 <= ps[i].column < Columns
  }

  /** The seven kind tables a game is built from, in the order I, J, L, O, S, T, Z. */
  predicate WellFormedKinds(kinds: seq<Kind>)
  {
    |kinds| == 7 && forall i :: 0 <= i < 7 ==> SpawnsOnTop(kinds[i].tiles, kinds[i].startOffset)
  }

  /** Tile positions moved k rows down. */
  function Lowered(ps: seq<Pos>, k: int): (qs: seq<Pos>)
  {
    seq(|ps|, i requires 0 <= i < |ps| => Pos(ps[i].row + k, ps[i].column))
  }

  lemma LoweredShifted(tiles: seq<Pos>, off: Pos, k: int)
    ensures Shifted(tiles, Pos(off.row + k, off.column)) == Lowered(Shifted(tiles, off), k)
  {
  }

  /** The position lies inside the Rows x Columns grid. */
  predicate Inside(p: Pos)
  {
    0 <= p.row < Rows && 0 <= p.column < Columns
  }

  predicate AllInside(ps: seq<Pos>)
  {
    forall i :: 0 <= i < |ps| ==> Inside(ps[i])
  }

  /** Every tile lies on a free cell of the grid `cells`. */
  predicate Fits(cells: seq<seq<int>>, ps: seq<Pos>)
  {
    forall i :: 0 <= i < |ps| ==> FreeAt(cells, ps[i].row, ps[i].column)
  }

  /** Tiles that fit lie inside the grid. */
  lemma FitsInside(cells: seq<seq<int>>, ps: seq<Pos>)
    requires Shaped(cells) && Fits(cells, ps)
    ensures AllInside(ps)
  {
    forall i | 0 <= i < |ps| ensures Inside(ps[i]) {
      assert FreeAt(cells, ps[i].row, ps[i].column);
    }
  }

  /** A grid of the game's dimensions. */
  predicate Shaped(cells: seq<seq<int>>)
  {
    |cells| == Rows && Rectangular(cells, Columns)
  }

  /** Both hidden top rows are free. */
  predicate TopRowsEmpty(cells: seq<seq<int>>)
    requires |cells| >= 2
  {
    RowEmpty(cells[0]) && RowEmpty(cells[1])
  }

  /** How far a block whose first rotation state is `tiles` has sunk from `start` after
      k one-row attempts, each kept only when the block still fits. */
  function Nudged(cells: seq<seq<int>>, tiles: seq<Pos>, start: Pos, k: nat): (d: nat)
    ensures d <= k
  {
    if k == 0 then 0
    else
      var d := Nudged(cells, tiles, start, k - 1);
      if Fits(cells, Shifted(tiles, Pos(start.row + d + 1, start.column))) then d + 1 else d
  }

  /** A block placed by activation lies inside the grid, and fits when the two top rows
      are free. */
  lemma {:induction false} NudgedLands(cells: seq<seq<int>>, tiles: seq<Pos>, start: Pos, k: nat)
    requires Shaped(cells) && OnTop(Shifted(tiles, start))
    ensures AllInside(Shifted(tiles, Pos(start.row + Nudged(cells, tiles, start, k), start.column)))
    ensures TopRowsEmpty(cells) ==>
              Fits(cells, Shifted(tiles, Pos(start.row + Nudged(cells, tiles, start, k), start.column)))
  {
    var d := Nudged(cells, tiles, start, k);
    if d == 0 {
      assert Pos(start.row + 0, start.column) == start;
      var ps := Shifted(tiles, start);
      if TopRowsEmpty(cells) {
        forall i | 0 <= i < |ps| ensures FreeAt(cells, ps[i].row, ps[i].column) {
          assert RowEmpty(cells[ps[i].row]);
        }
      }
    } else if d == Nudged(cells, tiles, start, k - 1) {
      NudgedLands(cells, tiles, start, k - 1);
    }
  }

  /** The number of free cells directly below p, counted until the first occupied or
      out-of-bounds cell. */
  function FreeBelow(cells: seq<seq<int>>, p: Pos): nat
    decreases |cells| - p.row
  {
    if FreeAt(cells, p.row + 1, p.column) then 1 + FreeBelow(cells, Pos(p.row + 1, p.column)) else 0
  }

  /** FreeBelow counts exactly the run of free cells under p: all of them are free. */
  lemma {:induction false} FreeBelowRun(cells: seq<seq<int>>, p: Pos)
    decreases |cells| - p.row
    ensures forall r :: p.row < r <= p.row + FreeBelow(cells, p) ==> FreeAt(cells, r, p.column)
  {
    if FreeAt(cells, p.row + 1, p.column) {
      FreeBelowRun(cells, Pos(p.row + 1, p.column));
    }
  }

  /** The cell right after the run of free cells under p is not free. */
  lemma {:induction false} FreeBelowEnd(cells: seq<seq<int>>, p: Pos)
    decreases |cells| - p.row
    ensures !FreeAt(cells, p.row + FreeBelow(cells, p) + 1, p.column)
  {
    if FreeAt(cells, p.row + 1, p.column) {
      FreeBelowEnd(cells, Pos(p.row + 1, p.column));
    }
  }

  /** The running minimum of FreeBelow over the tiles, starting from `cap`. */
  function MinDrop(cells: seq<seq<int>>, ps: seq<Pos>, cap: int): int
  {
    if ps == [] then cap
    else
      var n := FreeBelow(cells, ps[0]);
      MinDrop(cells, ps[1..], if n < cap then n else cap)
  }

  /** MinDrop is at most `cap` and at most the FreeBelow of every tile. */
  lemma {:induction false} MinDropLeast(cells: seq<seq<int>>, ps: seq<Pos>, cap: int)
    ensures MinDrop(cells, ps, cap) <= cap
    ensures forall i :: 0 <= i < |ps| ==> MinDrop(cells, ps, cap) <= FreeBelow(cells, ps[i])
  {
    if ps != [] {
      var n := FreeBelow(cells, ps[0]);
      MinDropLeast(cells, ps[1..], if n < cap then n else cap);
      assert forall i :: 1 <= i < |ps| ==> ps[i] == ps[1..][i - 1];
    }
  }

  /** MinDrop is `cap` or the FreeBelow of one of the tiles. */
  lemma {:induction false} MinDropAttained(cells: seq<seq<int>>, ps: seq<Pos>, cap: int)
    ensures MinDrop(cells, ps, cap) == cap
            || exists i :: 0 <= i < |ps| && MinDrop(cells, ps, cap) == FreeBelow(cells, ps[i])
  {
    if ps != [] {
      var n := FreeBelow(cells, ps[0]);
      MinDropAttained(cells, ps[1..], if n < cap then n else cap);
      if MinDrop(cells, ps, cap) != cap && MinDrop(cells, ps, cap) != n {
        var j :| 0 <= j < |ps| - 1 && MinDrop(cells, ps, cap) == FreeBelow(cells, ps[1..][j]);
        assert ps[1..][j] == ps[j + 1];
      }
    }
  }

  /** Below an inside tile there are fewer free cells than rows. */
  lemma FreeBelowBound(cells: seq<seq<int>>, p: Pos)
    requires Shaped(cells) && Inside(p)
    ensures p.row + FreeBelow(cells, p) < Rows
  {
    var n := FreeBelow(cells, p);
    FreeBelowRun(cells, p);
    if n > 0 {
      assert FreeAt(cells, p.row + n, p.column);
    }
  }

  /** The hard-drop distance is where repeated one-row moves would stop: one row further
      the block no longer fits. */
  lemma DropStops(cells: seq<seq<int>>, ps: seq<Pos>)
    requires Shaped(cells) && AllInside(ps) && 0 < |ps|
    ensures 0 <= MinDrop(cells, ps, Rows) < Rows
    ensures !Fits(cells, Lowered(ps, MinDrop(cells, ps, Rows) + 1))
  {
    var d := MinDrop(cells, ps, Rows);
    MinDropLeast(cells, ps, Rows);
    MinDropAttained(cells, ps, Rows);
    FreeBelowBound(cells, ps[0]);
    assert d <= FreeBelow(cells, ps[0]);
    var i :| 0 <= i < |ps| && d == FreeBelow(cells, ps[i]);
    FreeBelowEnd(cells, ps[i]);
    var q := Lowered(ps, d + 1)[i];
    assert q == Pos(ps[i].row + d + 1, ps[i].column);
    assert !FreeAt(cells, q.row, q.column);
  }

  /** Every position on the way down to the hard-drop distance fits, if the start does. */
  lemma DropPath(cells: seq<seq<int>>, ps: seq<Pos>, k: int)
    requires Fits(cells, ps) && 0 <= k <= MinDrop(cells, ps, Rows)
    ensures Fits(cells, Lowered(ps, k))
  {
    MinDropLeast(cells, ps, Rows);
    forall i | 0 <= i < |ps| ensures FreeAt(cells, ps[i].row + k, ps[i].column) {
      FreeBelowRun(cells, ps[i]);
      if k > 0 {
        assert ps[i].row < ps[i].row + k <= ps[i].row + FreeBelow(cells, ps[i]);
      }
    }
  }

  /** The dropped block stays inside the grid, whether or not it fits where it starts. */
  lemma DropInside(cells: seq<seq<int>>, ps: seq<Pos>)
    requires Shaped(cells) && AllInside(ps)
    ensures 0 <= MinDrop(cells, ps, Rows)
    ensures AllInside(Lowered(ps, MinDrop(cells, ps, Rows)))
  {
    var d := MinDrop(cells, ps, Rows);
    if 0 < |ps| {
      DropStops(cells, ps);
    }
    MinDropLeast(cells, ps, Rows);
    forall i | 0 <= i < |ps| ensures Inside(Lowered(ps, d)[i]) {
      FreeBelowRun(cells, ps[i]);
      if d > 0 {
        assert FreeAt(cells, ps[i].row + d, ps[i].column);
      }
    }
  }

  /** The grid with `id` written into the cell of every tile. */
  function Stamp(g: seq<seq<int>>, ps: seq<Pos>, id: int): (h: seq<seq<int>>)
    ensures |h| == |g|
    ensures forall r :: 0 <= r < |g| ==> |h[r]| == |g[r]|
    ensures forall r, c :: 0 <= r < |g| && 0 <= c < |g[r]| ==>
              h[r][c] == if Pos(r, c) in ps then id else g[r][c]
  {
    seq(|g|, r requires 0 <= r < |g| =>
      seq(|g[r]|, c requires 0 <= c < |g[r]| => if Pos(r, c) in ps then id else g[r][c]))
  }

  /** Writing one more tile into the grid. */
  lemma StampStep(g: seq<seq<int>>, ps: seq<Pos>, i: nat, id: int)
    requires i < |ps| && 0 <= ps[i].row < |g| && 0 <= ps[i].column < |g[ps[i].row]|
    ensures Stamp(g, ps[..i + 1], id)
            == Stamp(g, ps[..i], id)[ps[i].row := Stamp(g, ps[..i], id)[ps[i].row][ps[i].column := id]]
  {
    var a := Stamp(g, ps[..i + 1], id);
    var b := Stamp(g, ps[..i], id);
    var r0, c0 := ps[i].row, ps[i].column;
    var b' := b[r0 := b[r0][c0 := id]];
    assert ps[..i + 1] == ps[..i] + [ps[i]];
    forall r | 0 <= r < |g| ensures a[r] == b'[r] {
      assert |a[r]| == |b'[r]|;
      forall c | 0 <= c < |g[r]| ensures a[r][c] == b'[r][c] {
        assert Pos(r, c) in ps[..i + 1] <==> Pos(r, c) in ps[..i] || Pos(r, c) == ps[i];
      }
    }
  }

  lemma StampNone(g: seq<seq<int>>, ps: seq<Pos>, id: int)
    requires ps == []
    ensures Stamp(g, ps, id) == g
  {
    var h := Stamp(g, ps, id);
    forall r | 0 <= r < |g| ensures h[r] == g[r] {
    }
  }

  class GameState {
    const gameGrid: GameGrid
    const blockQueue: BlockQueue
    var currentBlock: Block
    var heldBlock: Block?
    var canHold: bool
    var score: int
    var gameOver: bool

    /** The game's invariant. The current and the held block are pool objects, and may be
        one and the same. The current block always lies inside the grid, and while the
        game runs the two top rows are free and the current block fits. */
    ghost predicate Valid()
      reads this, gameGrid.grid, blockQueue, currentBlock
    {
      && Sound()
      && (!gameOver ==> TopRowsEmpty(gameGrid.Cells()) && Fits(gameGrid.Cells(), currentBlock.TilePositions()))
    }

    /** The part of the invariant that does not depend on the grid's contents. */
    ghost predicate Sound()
      reads this, gameGrid.grid, blockQueue, currentBlock
    {
      && gameGrid.Valid() && gameGrid.rows == Rows && gameGrid.columns == Columns
      && blockQueue.Valid()
      && (forall i :: 0 <= i < 7 ==> SpawnsOnTop(blockQueue.blocks[i].tiles, blockQueue.blocks[i].startOffset))
      && currentBlock in blockQueue.blocks
      && (heldBlock != null ==> heldBlock in blockQueue.blocks)
      && (heldBlock == null ==> blockQueue.nextBlock != currentBlock)
      && currentBlock.Valid() && AllInside(currentBlock.TilePositions())
      && 0 <= score
    }

    /** The state a block is left in when it becomes the current block: reset, then
        nudged down by up to two rows. */
    ghost predicate Activated(b: Block)
      reads b, gameGrid.grid
    {
      && |b.tiles| > 0
      && b.rotationState == 0
      && b.offset == Pos(b.startOffset.row + Nudged(gameGrid.Cells(), b.tiles[0], b.startOffset, 2), b.startOffset.column)
    }

    /** An activated block lies inside the grid, and fits when the two top rows are free. */
    lemma ActivatedLands(b: Block)
      requires gameGrid.Valid() && gameGrid.rows == Rows && gameGrid.columns == Columns
      requires Activated(b) && SpawnsOnTop(b.tiles, b.startOffset)
      ensures b.Valid() && AllInside(b.TilePositions())
      ensures TopRowsEmpty(gameGrid.Cells()) ==> Fits(gameGrid.Cells(), b.TilePositions())
    {
      NudgedLands(gameGrid.Cells(), b.tiles[0], b.startOffset, 2);
    }

    constructor (kinds: seq<Kind>)
      requires WellFormedKinds(kinds)
      ensures Valid()
      ensures fresh(gameGrid) && fresh(gameGrid.grid) && fresh(blockQueue) && fresh(blockQueue.blocks)
      ensures gameGrid.Cells() == ZeroRows(Rows, Columns)
      ensures score == 0 && !gameOver && canHold && heldBlock == null
      ensures Activated(currentBlock) && blockQueue.nextBlock.id != currentBlock.id
    {
      gameGrid := new GameGrid(Rows, Columns);
      var queue := new BlockQueue(kinds);
      blockQueue := queue;
      // A placeholder until the object is complete; TakeNextBlock sets the real one.
      currentBlock := queue.nextBlock;
      heldBlock := null;
      canHold := true;
      score := 0;
      gameOver := false;
      new;
      TakeNextBlock();
    }

    /** The property setter of the current block: reset the block, then try twice to move
        it one row down, keeping each move only when the block still fits. */
    method SetCurrentBlock(value: Block)
      requires gameGrid.Valid() && |value.tiles| > 0
      modifies this`currentBlock, value`rotationState, value`offset
      ensures currentBlock == value && Activated(value)
    {
      currentBlock := value;
      currentBlock.Reset();
      ghost var cells := gameGrid.Cells();
      for i := 0 to 2
        invariant currentBlock == value && value.Valid() && value.rotationState == 0
        invariant value.offset == Pos(value.startOffset.row + Nudged(cells, value.tiles[0], value.startOffset, i), value.startOffset.column)
      {
        currentBlock.Move(1, 0);
        var fits := BlockFits();
        if !fits {
          currentBlock.Move(-1, 0);
        }
      }
    }

    /** Making the queue's next block the current block: the block is drawn from the
        queue, which looks ahead to a block of another kind, and activated. */
    method TakeNextBlock()
      requires gameGrid.Valid() && gameGrid.rows == Rows && gameGrid.columns == Columns
      requires blockQueue.Valid()
      requires forall i :: 0 <= i < 7 ==> SpawnsOnTop(blockQueue.blocks[i].tiles, blockQueue.blocks[i].startOffset)
      modifies this`currentBlock, blockQueue`nextBlock, blockQueue.nextBlock
      ensures blockQueue.Valid() && currentBlock in blockQueue.blocks
      ensures currentBlock == old(blockQueue.nextBlock) && blockQueue.nextBlock.id != currentBlock.id
      ensures Activated(currentBlock) && AllInside(currentBlock.TilePositions())
      ensures TopRowsEmpty(gameGrid.Cells()) ==> Fits(gameGrid.Cells(), currentBlock.TilePositions())
    {
      var next := blockQueue.GetAndUpdate();
      SetCurrentBlock(next);
      ActivatedLands(next);
    }

    method RotateBlockCW()
      requires Valid()
      modifies currentBlock`rotationState
      ensures Valid()
      ensures var turned := NextState(old(currentBlock.rotationState), |currentBlock.tiles|);
              currentBlock.rotationState
              == if Fits(gameGrid.Cells(), currentBlock.TilesAt(turned, currentBlock.offset)) then turned
                 else old(currentBlock.rotationState)
    {
      currentBlock.RotateCW();
      var fits := BlockFits();
      if !fits {
        currentBlock.RotateCCW();
        TurnBack(old(currentBlock.rotationState), |currentBlock.tiles|);
      }
    }

    method RotateBlockCCW()
      requires Valid()
      modifies currentBlock`rotationState
      ensures Valid()
      ensures var turned := PrevState(old(currentBlock.rotationState), |currentBlock.tiles|);
              currentBlock.rotationState
              == if Fits(gameGrid.Cells(), currentBlock.TilesAt(turned, currentBlock.offset)) then turned
                 else old(currentBlock.rotationState)
    {
      currentBlock.RotateCCW();
      var fits := BlockFits();
      if !fits {
        currentBlock.RotateCW();
        TurnBack(old(currentBlock.rotationState), |currentBlock.tiles|);
      }
    }

    method MoveBlockLeft()
      requires Valid()
      modifies currentBlock`offset
      ensures Valid()
      ensures var moved := Pos(old(currentBlock.offset).row, old(currentBlock.offset).column - 1);
              currentBlock.offset
              == if Fits(gameGrid.Cells(), currentBlock.TilesAt(currentBlock.rotationState, moved)) then moved
                 else old(currentBlock.offset)
    {
      currentBlock.Move(0, -1);
      var fits := BlockFits();
      if !fits {
        currentBlock.Move(0, 1);
      } else {
        FitsInside(gameGrid.Cells(), currentBlock.TilePositions());
      }
    }

    method MoveBlockRight()
      requires Valid()
      modifies currentBlock`offset
      ensures Valid()
      ensures var moved := Pos(old(currentBlock.offset).row, old(currentBlock.offset).column + 1);
              currentBlock.offset
              == if Fits(gameGrid.Cells(), currentBlock.TilesAt(currentBlock.rotationState, moved)) then moved
                 else old(currentBlock.offset)
    {
      currentBlock.Move(0, 1);
      var fits := BlockFits();
      if !fits {
        currentBlock.Move(0, -1);
      } else {
        FitsInside(gameGrid.Cells(), currentBlock.TilePositions());
      }
    }

    /** The effect of placing a block whose tiles are `ps` and whose kind is `id`: the
        tiles are written into the grid, full rows are cleared and counted into the score,
        and then either the game is over (something is left in the two top rows) or the
        queue's next block becomes the current block and holding is allowed again. */
    twostate predicate Placed(ps: seq<Pos>, id: int)
      reads this, currentBlock, gameGrid.grid, blockQueue
      requires gameGrid.Valid() && gameGrid.rows == Rows
    {
      var written := Stamp(old(gameGrid.Cells()), ps, id);
      && gameGrid.Cells() == Compacted(written, Columns)
      && score == old(score) + FullCount(written)
      && heldBlock == old(heldBlock)
      && if !TopRowsEmpty(gameGrid.Cells()) then
           && gameOver
           && currentBlock == old(currentBlock) && canHold == old(canHold)
           && blockQueue.nextBlock == old(blockQueue.nextBlock)
         else
           && gameOver == old(gameOver) && canHold
           && currentBlock == old(blockQueue.nextBlock) && blockQueue.nextBlock.id != currentBlock.id
           && Activated(currentBlock)
    }

    /** One row down; a block that cannot go down is moved back and placed. */
    method MoveBlockDown()
      requires Valid()
      modifies this, gameGrid.grid, blockQueue, currentBlock, blockQueue.nextBlock
      ensures Valid()
      ensures old(Fits(gameGrid.Cells(), Lowered(currentBlock.TilePositions(), 1))) ==>
                && unchanged(this, gameGrid.grid, blockQueue)
                && (blockQueue.nextBlock != currentBlock ==> unchanged(blockQueue.nextBlock))
                && currentBlock.rotationState == old(currentBlock.rotationState)
                && currentBlock.offset == Pos(old(currentBlock.offset).row + 1, old(currentBlock.offset).column)
      ensures !old(Fits(gameGrid.Cells(), Lowered(currentBlock.TilePositions(), 1))) ==>
                Placed(old(currentBlock.TilePositions()), old(currentBlock.id))
      // A placement that ends the game leaves the block where it was before the attempt.
      ensures !old(Fits(gameGrid.Cells(), Lowered(currentBlock.TilePositions(), 1))) && !TopRowsEmpty(gameGrid.Cells()) ==>
                && currentBlock == old(currentBlock)
                && currentBlock.rotationState == old(currentBlock.rotationState)
                && currentBlock.offset == old(currentBlock.offset)
    {
      ghost var lowered := Lowered(currentBlock.TilePositions(), 1);
      LoweredShifted(currentBlock.tiles[currentBlock.rotationState], currentBlock.offset, 1);
      currentBlock.Move(1, 0);
      assert currentBlock.TilePositions() == lowered;
      var fits := BlockFits();
      if !fits {
        currentBlock.Move(-1, 0);
        assert currentBlock.TilePositions() == old(currentBlock.TilePositions());
        PlaceBlock();
      }
    }

    /** Holding is allowed once per placed block. With nothing held, the current block is
        put aside and the queue supplies a new one; otherwise the current and the held
        block change places. The block that becomes current is activated. */
    method HoldBlock()
      requires Valid()
      modifies this, blockQueue, blockQueue.nextBlock, heldBlock
      ensures Valid() && !canHold
      ensures score == old(score) && gameOver == old(gameOver)
      ensures !old(canHold) ==>
                && unchanged(this, blockQueue, blockQueue.nextBlock)
                && (heldBlock != null ==> unchanged(heldBlock))
      ensures old(canHold) && old(heldBlock) == null ==>
                && heldBlock == old(currentBlock)
                && currentBlock == old(blockQueue.nextBlock) && blockQueue.nextBlock.id != currentBlock.id
                && Activated(currentBlock)
      ensures old(canHold) && old(heldBlock) != null ==>
                && heldBlock == old(currentBlock) && currentBlock == old(heldBlock)
                && blockQueue.nextBlock == old(blockQueue.nextBlock)
                && Activated(currentBlock)
    {
      if !canHold {
        return;
      }
      if heldBlock == null {
        heldBlock := currentBlock;
        TakeNextBlock();
      } else {
        var temp := currentBlock;
        var held: Block := heldBlock;
        SetCurrentBlock(held);
        ActivatedLands(held);
        heldBlock := temp;
      }
      canHold := false;
    }

    /** Hard drop: down by the drop distance, then placed. */
    method DropBlock()
      requires Valid()
      modifies this, gameGrid.grid, blockQueue, currentBlock, blockQueue.nextBlock
      ensures Valid()
      ensures Placed(old(Lowered(currentBlock.TilePositions(), MinDrop(gameGrid.Cells(), currentBlock.TilePositions(), Rows))),
                     old(currentBlock.id))
      // A placement that ends the game leaves the block at the bottom of its drop.
      ensures !TopRowsEmpty(gameGrid.Cells()) ==>
                && currentBlock == old(currentBlock)
                && currentBlock.rotationState == old(currentBlock.rotationState)
                && currentBlock.offset
                   == Pos(old(currentBlock.offset).row + old(MinDrop(gameGrid.Cells(), currentBlock.TilePositions(), Rows)),
                          old(currentBlock.offset).column)
    {
      var d := BlockDropDistance();
      ghost var dropped := Lowered(currentBlock.TilePositions(), d);
      DropInside(gameGrid.Cells(), currentBlock.TilePositions());
      if !gameOver {
        DropPath(gameGrid.Cells(), currentBlock.TilePositions(), d);
      }
      LoweredShifted(currentBlock.tiles[currentBlock.rotationState], currentBlock.offset, d);
      currentBlock.Move(d, 0);
      assert currentBlock.TilePositions() == dropped;
      PlaceBlock();
    }

    method TileDropDistance(position: Pos) returns (drop: int)
      requires gameGrid.Valid()
      ensures drop == FreeBelow(gameGrid.Cells(), position)
    {
      ghost var cells := gameGrid.Cells();
      drop := 0;
      while gameGrid.IsEmpty(position.row + drop + 1, position.column)
        invariant 0 <= drop
        invariant FreeBelow(cells, position) == drop + FreeBelow(cells, Pos(position.row + drop, position.column))
        decreases gameGrid.rows - position.row - drop
      {
        drop := drop + 1;
      }
    }

    method BlockDropDistance() returns (drop: int)
      requires gameGrid.Valid() && currentBlock.Valid()
      ensures drop == MinDrop(gameGrid.Cells(), currentBlock.TilePositions(), gameGrid.rows)
    {
      ghost var cells := gameGrid.Cells();
      drop := gameGrid.rows;
      var ps := currentBlock.TilePositions();
      assert ps[0..] == ps;
      for i := 0 to |ps|
        invariant MinDrop(cells, ps, gameGrid.rows) == MinDrop(cells, ps[i..], drop)
      {
        var t := TileDropDistance(ps[i]);
        assert ps[i..][1..] == ps[i + 1..];
        drop := if t < drop then t else drop;
      }
    }

    method BlockFits() returns (fits: bool)
      requires gameGrid.Valid() && currentBlock.Valid()
      ensures fits <==> Fits(gameGrid.Cells(), currentBlock.TilePositions())
    {
      var ps := currentBlock.TilePositions();
      for i := 0 to |ps|
        invariant forall j :: 0 <= j < i ==> gameGrid.IsEmpty(ps[j].row, ps[j].column)
      {
        if !gameGrid.IsEmpty(ps[i].row, ps[i].column) {
          return false;
        }
      }
      return true;
    }

    method IsGameOver() returns (over: bool)
      requires gameGrid.Valid() && gameGrid.rows == Rows
      ensures over <==> !TopRowsEmpty(gameGrid.Cells())
    {
      var top := gameGrid.IsRowEmpty(0);
      var second := gameGrid.IsRowEmpty(1);
      over := !(top && second);
    }

    /** The loop at the start of a placement: the id of the current block is written
        into the cell of each of its tiles. */
    method WriteTiles()
      requires gameGrid.Valid() && gameGrid.rows == Rows && gameGrid.columns == Columns
      requires currentBlock.Valid() && AllInside(currentBlock.TilePositions())
      modifies gameGrid.grid
      ensures gameGrid.Cells() == Stamp(old(gameGrid.Cells()), currentBlock.TilePositions(), currentBlock.id)
    {
      var ps := currentBlock.TilePositions();
      ghost var before := gameGrid.Cells();
      StampNone(before, ps[..0], currentBlock.id);
      for i := 0 to |ps|
        invariant gameGrid.Cells() == Stamp(before, ps[..i], currentBlock.id)
      {
        StampStep(before, ps, i, currentBlock.id);
        gameGrid.Set(ps[i].row, ps[i].column, currentBlock.id);
      }
      assert ps[..|ps|] == ps;
    }

    method PlaceBlock()
      requires Valid()
      modifies this, gameGrid.grid, blockQueue, blockQueue.nextBlock
      ensures Valid()
      ensures Placed(old(currentBlock.TilePositions()), old(currentBlock.id))
      ensures !TopRowsEmpty(gameGrid.Cells()) ==> unchanged(currentBlock)
    {
      WriteTiles();
      var cleared := gameGrid.ClearFullRows();
      score := score + cleared;
      Conclude();
    }

    /** The end of a placement, once the rows are cleared: the game ends if anything is
        left in the two top rows; otherwise the queue's next block becomes current and
        holding is allowed again. */
    method Conclude()
      requires Sound()
      modifies this`gameOver, this`currentBlock, this`canHold, blockQueue`nextBlock, blockQueue.nextBlock
      ensures Valid()
      ensures !TopRowsEmpty(gameGrid.Cells()) ==>
                && gameOver && currentBlock == old(currentBlock) && canHold == old(canHold)
                && blockQueue.nextBlock == old(blockQueue.nextBlock)
                && unchanged(currentBlock)
      ensures TopRowsEmpty(gameGrid.Cells()) ==>
                && gameOver == old(gameOver) && canHold
                && currentBlock == old(blockQueue.nextBlock) && blockQueue.nextBlock.id != currentBlock.id
                && Activated(currentBlock)
    {
      var over := IsGameOver();
      if over {
        gameOver := true;
      } else {
        TakeNextBlock();
        canHold := true;
      }
    }
  }
}
