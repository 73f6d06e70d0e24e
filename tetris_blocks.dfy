/** Tetris blocks. A block kind is a table of rotation states, each an ordered list of
    tile positions relative to the block's offset, plus a start offset. A block object
    carries its current rotation state and offset and turns them into absolute tile
    positions; it does no collision checking of its own. */
module TetrisBlocks {

  /** A grid coordinate; also used for relative tile positions and for offsets. The
      block's offset is private to the block and never shared, so the in-place update of
      its row and column is modelled by reassigning a value. */
  datatype Pos = Pos(row: int, column: int)

  /** The tiles of one rotation state translated by `offset`, in table order. */
  function Shifted(tiles: seq<Pos>, offset: Pos): (ps: seq<Pos>)
  {
    seq(|tiles|, i requires 0 <= i < |tiles| => Pos(tiles[i].row + offset.row, tiles[i].column + offset.column))
  }

  /** The rotation state after a clockwise turn, among n states. */
  function NextState(s: nat, n: nat): (t: nat)
    requires s < n
    ensures t < n && t == (s + 1) % n
  {
    if s + 1 < n then s + 1 else 0
  }

  /** The rotation state after a counter-clockwise turn, among n states. */
  function PrevState(s: nat, n: nat): (t: nat)
    requires s < n
    ensures t < n
  {
    if s == 0 then n - 1 else s - 1
  }

  /** A clockwise and a counter-clockwise turn undo each other, in either order. */
  lemma TurnBack(s: nat, n: nat)
    requires s < n
    ensures PrevState(NextState(s, n), n) == s
    ensures NextState(PrevState(s, n), n) == s
  {
  }

  /** The rotation state after k clockwise turns. */
  function Turns(s: nat, n: nat, k: nat): (t: nat)
    requires s < n
    ensures t < n
  {
    if k == 0 then s else NextState(Turns(s, n, k - 1), n)
  }

  lemma {:induction false} TurnsBelow(s: nat, n: nat, k: nat)
    requires s + k < n
    ensures Turns(s, n, k) == s + k
  {
    if k > 0 {
      TurnsBelow(s, n, k - 1);
    }
  }

  lemma {:induction false} TurnsAdd(s: nat, n: nat, a: nat, b: nat)
    requires s < n
    ensures Turns(s, n, a + b) == Turns(Turns(s, n, a), n, b)
  {
    if b > 0 {
      TurnsAdd(s, n, a, b - 1);
    }
  }

  /** As many clockwise turns as there are rotation states bring a block back to the
      state it started in. */
  lemma FullTurn(s: nat, n: nat)
    requires s < n
    ensures Turns(s, n, n) == s
  {
    TurnsBelow(s, n, n - s - 1);
    assert Turns(s, n, n - s) == 0;
    TurnsAdd(s, n, n - s, s);
    if s > 0 {
      TurnsBelow(0, n, s);
    }
  }

  class Block {
    const tiles: seq<seq<Pos>>
    const startOffset: Pos
    const id: int
    var rotationState: nat
    var offset: Pos

    ghost predicate Valid()
      reads this
    {
      rotationState < |tiles|
    }

    constructor (tiles: seq<seq<Pos>>, startOffset: Pos, id: int)
      requires |tiles| > 0
      ensures Valid()
      ensures this.tiles == tiles && this.startOffset == startOffset && this.id == id
      ensures rotationState == 0 && offset == startOffset
    {
      this.tiles := tiles;
      this.startOffset := startOffset;
      this.id := id;
      rotationState := 0;
      offset := Pos(startOffset.row, startOffset.column);
    }

    /** Absolute tile positions in rotation state `state` at offset `off`. */
    function TilesAt(state: nat, off: Pos): seq<Pos>
      requires state < |tiles|
    {
      Shifted(tiles[state], off)
    }

    /** Absolute tile positions of the block as it stands. */
    function TilePositions(): (ps: seq<Pos>)
      reads this
      requires Valid()
      ensures |ps| == |tiles[rotationState]|
      ensures forall i :: 0 <= i < |ps| ==>
                Pos(ps[i].row - offset.row, ps[i].column - offset.column) == tiles[rotationState][i]
    {
      TilesAt(rotationState, offset)
    }

    method RotateCW()
      requires Valid()
      modifies this`rotationState
      ensures Valid() && rotationState == NextState(old(rotationState), |tiles|)
    {
      rotationState := (rotationState + 1) % |tiles|;
    }

    method RotateCCW()
      requires Valid()
      modifies this`rotationState
      ensures Valid() && rotationState == PrevState(old(rotationState), |tiles|)
    {
      if rotationState == 0 {
        rotationState := |tiles| - 1;
      } else {
        rotationState := rotationState - 1;
      }
    }

    method Move(rows: int, columns: int)
      modifies this`offset
      ensures offset == Pos(old(offset).row + rows, old(offset).column + columns)
    {
      offset := Pos(offset.row + rows, offset.column + columns);
    }

    method Reset()
      requires |tiles| > 0
      modifies this`rotationState, this`offset
      ensures Valid() && rotationState == 0 && offset == startOffset
    {
      rotationState := 0;
      offset := Pos(startOffset.row, startOffset.column);
    }
  }
}
