/** The Snake state machine. The body is a list of positions, head first, kept in step
    with a grid of cell values; direction changes are buffered, at most two at a time;
    each step either ends the game (wall or body), moves the snake (empty cell or its own
    tail) or grows it (food), and food is put on a free cell chosen at random, modelled
    here as a nondeterministic choice. */
module SnakeGame {
  import opened SnakePosition
  import opened SnakeBoard

  class GameState {
    const rows: nat
    const columns: nat
    const grid: array2<GridValue>
    /** Pending direction changes, oldest first. */
    var dirChanges: seq<Direction>
    /** The body, head first. */
    var snakePositions: seq<Position>
    var direction: Direction
    var score: int
    var gameOver: bool

    /** The grid's contents, row by row. */
    ghost var cells: Board

    /** `cells` has the game's dimensions and mirrors the grid cell by cell. */
    ghost predicate Mirrored()
      reads this`cells, grid
    {
      && grid.Length0 == rows && grid.Length1 == columns && Shaped(cells, rows, columns)
      && forall r, c :: 0 <= r < rows && 0 <= c < columns ==> grid[r, c] == cells[r][c]
    }

    /** The grid has the game's dimensions and is in step with the body. */
    ghost predicate BoardValid()
      reads this`cells, this`snakePositions, grid
    {
      Mirrored() && Coherent(cells, snakePositions, rows, columns) && |snakePositions| >= 1
    }

    /** The state invariant. Besides the board, it bounds the direction buffer; it says the
        oldest pending change never reverses the current direction; and, while the game is
        on, the head is one step past the neck in the current direction. */
    ghost predicate Valid()
      reads this, grid
    {
      && BoardValid()
      && |dirChanges| <= 2
      && (|dirChanges| > 0 ==> dirChanges[0] != direction.Opposite())
      && (!gameOver && |snakePositions| >= 2 ==> snakePositions[0] == snakePositions[1].Translate(direction))
      && 0 <= score
    }

    constructor (rows: nat, columns: nat)
      requires rows >= 1 && columns >= 4
      ensures Valid() && this.rows == rows && this.columns == columns && fresh(grid)
      ensures snakePositions == StartBody(rows) && direction == Right && dirChanges == []
      ensures score == 0 && !gameOver
      ensures FoodPlaced(Seeded(rows, columns, 4), cells, rows, columns)
    {
      this.rows := rows;
      this.columns := columns;
      grid := new GridValue[rows, columns]((r, c) => Empty);
      direction := Right;
      dirChanges := [];
      snakePositions := [];
      score := 0;
      gameOver := false;
      cells := Seeded(rows, columns, 1);
      new;
      Populate();
    }

    /** The second half of the constructor: lays the snake on the empty grid, then puts
        the first food. */
    method Populate()
      requires rows >= 1 && columns >= 4 && Mirrored()
      requires cells == Seeded(rows, columns, 1) && snakePositions == []
      modifies this`snakePositions, this`cells, grid
      ensures BoardValid() && snakePositions == StartBody(rows)
      ensures FoodPlaced(Seeded(rows, columns, 4), cells, rows, columns)
    {
      AddSnake();
      StartCoherent(rows, columns);
      AddFood();
    }

    /** Lays the three starting cells of the middle row, each new one becoming the head. */
    method AddSnake()
      requires rows >= 1 && columns >= 4 && Mirrored()
      requires cells == Seeded(rows, columns, 1) && snakePositions == []
      modifies this`snakePositions, this`cells, grid
      ensures Mirrored() && cells == Seeded(rows, columns, 4) && snakePositions == StartBody(rows)
    {
      var midRow := rows / 2;
      for c := 1 to 4
        invariant Mirrored() && cells == Seeded(rows, columns, c)
        invariant snakePositions == seq(c - 1, i requires 0 <= i < c - 1 => Position(midRow, c - 1 - i))
      {
        SeedStep(rows, columns, c);
        Write(Position(midRow, c), Snake);
        snakePositions := [Position(midRow, c)] + snakePositions;
      }
    }

    /** Stores v in the grid cell at p. */
    method Write(p: Position, v: GridValue)
      requires Mirrored() && InBounds(p, rows, columns)
      modifies this`cells, grid
      ensures Mirrored() && cells == Put(old(cells), p, v)
    {
      grid[p.row, p.column] := v;
      PutAt(cells, p, v);
      cells := Put(cells, p, v);
    }

    /** The head lies on the board, on a Snake cell. */
    function HeadPosition(): (p: Position)
      reads this`cells, this`snakePositions, grid
      requires BoardValid()
      ensures InBounds(p, rows, columns) && cells[p.row][p.column] == Snake
    {
      snakePositions[0]
    }

    /** The tail lies on the board, on a Snake cell. */
    function TailPosition(): (p: Position)
      reads this`cells, this`snakePositions, grid
      requires BoardValid()
      ensures InBounds(p, rows, columns) && cells[p.row][p.column] == Snake
    {
      Last(snakePositions)
    }

    /** The direction the snake will be heading after the last pending change. */
    function GetLastDirection(): (d: Direction)
      reads this`dirChanges, this`direction
      ensures |dirChanges| == 0 ==> d == direction
      ensures |dirChanges| > 0 ==> d == dirChanges[|dirChanges| - 1]
    {
      if |dirChanges| == 0 then direction else dirChanges[|dirChanges| - 1]
    }

    /** A change is accepted only while fewer than two are pending, and only when it turns
        a quarter away from the last heading: its step is at right angles to that one's. */
    function CanChangeDirection(newDir: Direction): (ok: bool)
      reads this`dirChanges, this`direction
      ensures ok <==> && |dirChanges| != 2
                      && newDir.RowOffset() * GetLastDirection().RowOffset()
                         + newDir.ColumnOffset() * GetLastDirection().ColumnOffset() == 0
    {
      if |dirChanges| == 2 then false
      else
        var lastDir := GetLastDirection();
        newDir != lastDir && newDir != lastDir.Opposite()
    }

    method ChangeDirection(newDir: Direction)
      requires Valid()
      modifies this`dirChanges
      ensures Valid()
      ensures dirChanges == if old(CanChangeDirection(newDir)) then old(dirChanges) + [newDir] else old(dirChanges)
    {
      if CanChangeDirection(newDir) {
        dirChanges := dirChanges + [newDir];
      }
    }

    /** Whether p lies off the board, that is, names no cell of it. */
    function IsOutside(p: Position): (outside: bool)
      reads this`cells
      ensures Shaped(cells, rows, columns) ==>
                (outside <==> !(0 <= p.row < |cells| && 0 <= p.column < |cells[p.row]|))
    {
      p.row < 0 || p.row >= rows || p.column < 0 || p.column >= columns
    }

    /** What the head would meet at p (see Hit and HitMeaning). */
    function WillHit(p: Position): (hit: GridValue)
      reads this`cells, this`snakePositions, grid
      requires BoardValid()
      ensures hit == Hit(cells, snakePositions, p, rows, columns)
    {
      if IsOutside(p) then Outside
      else if p == TailPosition() then Empty
      else grid[p.row, p.column]
    }

    /** The part of the state a step can change. */
    ghost function Snap(): Snapshot
      reads this`cells, this`snakePositions, this`score, this`gameOver
    {
      Snapshot(cells, snakePositions, score, gameOver)
    }

    /** The heading of the next step: the oldest pending change if there is one. */
    ghost function NextDirection(): Direction
      reads this`dirChanges, this`direction
    {
      if |dirChanges| > 0 then dirChanges[0] else direction
    }

    /** Where the head goes on the next step. */
    ghost function NextHead(): Position
      reads this`dirChanges, this`direction, this`snakePositions
      requires |snakePositions| >= 1
    {
      snakePositions[0].Translate(NextDirection())
    }

    /** One step. The heading becomes the oldest pending change while the newest one is
        dropped; then the snake steps that way (see Stepped). */
    method Move()
      requires Valid()
      modifies this, grid
      ensures Valid()
      ensures direction == old(NextDirection()) && direction != old(direction).Opposite()
      ensures dirChanges == old(if |dirChanges| > 0 then dirChanges[..|dirChanges| - 1] else [])
      ensures old(!gameOver && |snakePositions| >= 2) ==> old(NextHead() != snakePositions[1])
      ensures Stepped(old(Snap()), old(NextHead()), Snap(), rows, columns)
    {
      if !gameOver && |snakePositions| >= 2 {
        NoStepBack(snakePositions[1], direction, NextDirection());
      }
      OppositeInvolution(direction);
      if |dirChanges| > 0 {
        direction := dirChanges[0];
        dirChanges := dirChanges[..|dirChanges| - 1];
        OppositeInvolution(direction);
      }
      ghost var before := Snap();
      Step();
      StepInvariant(before, before.body[0].Translate(direction), Snap(), rows, columns);
    }

    /** The second half of Move: the head moves one cell in the current direction and
        the step's outcome follows from what it meets there. */
    method Step()
      requires BoardValid()
      modifies this`snakePositions, this`cells, grid, this`score, this`gameOver
      ensures BoardValid()
      ensures Stepped(old(Snap()), old(snakePositions[0].Translate(direction)), Snap(), rows, columns)
    {
      var newHeadPosition := HeadPosition().Translate(direction);
      var hit := WillHit(newHeadPosition);
      HitMeaning(cells, snakePositions, newHeadPosition, rows, columns);
      if hit == Outside || hit == Snake {
        gameOver := true;
      } else if hit == Empty {
        RemoveTail();
        AddHead(newHeadPosition);
      } else if hit == Food {
        AddHead(newHeadPosition);
        score := score + 1;
        AddFood();
      }
    }

    /** All empty cells, in row-major order. */
    method EmptyPositions() returns (ps: seq<Position>)
      requires Mirrored()
      ensures forall p :: p in ps <==> InBounds(p, rows, columns) && cells[p.row][p.column] == Empty
      ensures forall i, j :: 0 <= i < j < |ps| ==> RowMajorBefore(ps[i], ps[j])
    {
      ps := [];
      for r := 0 to rows
        invariant forall p :: p in ps <==> InBounds(p, r, columns) && cells[p.row][p.column] == Empty
        invariant forall i, j :: 0 <= i < j < |ps| ==> RowMajorBefore(ps[i], ps[j])
        invariant forall i :: 0 <= i < |ps| ==> ps[i].row < r
      {
        for c := 0 to columns
          invariant forall p :: p in ps <==>
                      && InBounds(p, r + 1, columns) && cells[p.row][p.column] == Empty
                      && (p.row < r || p.column < c)
          invariant forall i, j :: 0 <= i < j < |ps| ==> RowMajorBefore(ps[i], ps[j])
          invariant forall i :: 0 <= i < |ps| ==> RowMajorBefore(ps[i], Position(r, c))
        {
          if grid[r, c] == Empty {
            ps := ps + [Position(r, c)];
          }
        }
      }
    }

    /** Puts food on an empty cell, if there is one. */
    method AddFood()
      requires BoardValid()
      modifies this`cells, grid
      ensures BoardValid() && FoodPlaced(old(cells), cells, rows, columns)
    {
      var emptyPositions := EmptyPositions();
      if |emptyPositions| == 0 {
        forall r, c | 0 <= r < rows && 0 <= c < columns ensures cells[r][c] != Empty {
          assert Position(r, c) !in emptyPositions;
        }
        return;
      }
      var k :| 0 <= k < |emptyPositions|;
      var position := emptyPositions[k];
      ghost var before := cells;
      Write(position, Food);
      FoodCoherent(before, cells, snakePositions, rows, columns);
    }

    method AddHead(position: Position)
      requires Mirrored() && Coherent(cells, snakePositions, rows, columns)
      requires InBounds(position, rows, columns) && position !in snakePositions
      modifies this`snakePositions, this`cells, grid
      ensures Mirrored() && Coherent(cells, snakePositions, rows, columns)
      ensures snakePositions == [position] + old(snakePositions)
      ensures cells == Put(old(cells), position, Snake)
    {
      HeadTaken(cells, snakePositions, position, rows, columns);
      snakePositions := [position] + snakePositions;
      Write(position, Snake);
    }

    method RemoveTail()
      requires Mirrored() && Coherent(cells, snakePositions, rows, columns) && |snakePositions| >= 1
      modifies this`snakePositions, this`cells, grid
      ensures Mirrored() && Coherent(cells, snakePositions, rows, columns)
      ensures snakePositions == Front(old(snakePositions))
      ensures cells == Put(old(cells), Last(old(snakePositions)), Empty)
    {
      var tail := Last(snakePositions);
      TailFreed(cells, snakePositions, rows, columns);
      Write(tail, Empty);
      snakePositions := Front(snakePositions);
    }
  }
}
