/** Value-level view of the Snake board: cell values, boards as sequences of rows, the
    invariant that ties a board to the snake's body, and the facts about how one step
    changes both. */
module SnakeBoard {
  import opened SnakePosition

  datatype GridValue = Empty | Snake | Food | Outside

  /** A snapshot of the grid, row by row. */
  type Board = seq<seq<GridValue>>

  predicate InBounds(p: Position, rows: int, columns: int) {
    0 <= p.row < rows && 0 <= p.column < columns
  }

  /** The board has `rows` rows of `columns` cells. */
  predicate Shaped(cells: Board, rows: int, columns: int) {
    |cells| == rows && forall r :: 0 <= r < rows ==> |cells[r]| == columns
  }

  /** The board with cell p set to v. */
  function Put(cells: Board, p: Position, v: GridValue): (b: Board)
    requires 0 <= p.row < |cells| && 0 <= p.column < |cells[p.row]|
    ensures |b| == |cells| && forall r :: 0 <= r < |b| ==> |b[r]| == |cells[r]|
  {
    cells[p.row := cells[p.row][p.column := v]]
  }

  /** Put changes cell p to v and leaves the shape and every other cell alone. */
  lemma PutAt(cells: Board, p: Position, v: GridValue)
    requires 0 <= p.row < |cells| && 0 <= p.column < |cells[p.row]|
    ensures forall r, c :: 0 <= r < |cells| && 0 <= c < |cells[r]| ==>
              Put(cells, p, v)[r][c] == if r == p.row && c == p.column then v else cells[r][c]
  {
  }

  predicate Distinct(body: seq<Position>) {
    forall i, j :: 0 <= i < j < |body| ==> body[i] != body[j]
  }

  /** The body lies on the board without overlapping itself, the cells holding Snake are
      exactly the body's positions, and no cell holds Outside (that value only describes
      positions beyond the edge). */
  predicate Coherent(cells: Board, body: seq<Position>, rows: int, columns: int) {
    && Shaped(cells, rows, columns)
    && (forall i :: 0 <= i < |body| ==> InBounds(body[i], rows, columns))
    && Distinct(body)
    && (forall r, c {:trigger cells[r][c]} :: 0 <= r < rows && 0 <= c < columns ==>
          (cells[r][c] == Snake <==> Position(r, c) in body))
    && (forall r, c :: 0 <= r < rows && 0 <= c < columns ==> cells[r][c] != Outside)
  }

  predicate HasEmpty(cells: Board, rows: int, columns: int)
    requires Shaped(cells, rows, columns)
  {
    exists r, c :: 0 <= r < rows && 0 <= c < columns && cells[r][c] == Empty
  }

  /** `after` is `before` with food put on one of its empty cells, or `before` itself
      when it has no empty cell. */
  ghost predicate FoodPlaced(before: Board, after: Board, rows: int, columns: int)
    requires Shaped(before, rows, columns)
  {
    if HasEmpty(before, rows, columns) then
      exists p :: InBounds(p, rows, columns) && before[p.row][p.column] == Empty && after == Put(before, p, Food)
    else
      after == before
  }

  /** The last element of the body: its tail. */
  function Last(body: seq<Position>): Position
    requires |body| >= 1
  {
    body[|body| - 1]
  }

  /** All of the body but its tail. */
  function Front(body: seq<Position>): seq<Position>
    requires |body| >= 1
  {
    body[..|body| - 1]
  }

  /** Freeing the tail cell and dropping the tail keeps the board and the body in step. */
  lemma TailFreed(cells: Board, body: seq<Position>, rows: int, columns: int)
    requires Coherent(cells, body, rows, columns) && |body| >= 1
    ensures Coherent(Put(cells, Last(body), Empty), Front(body), rows, columns)
  {
    var tail, rest := Last(body), Front(body);
    PutAt(cells, tail, Empty);
    assert body == rest + [tail];
  }

  /** Taking a free cell for the new head keeps the board and the body in step. */
  lemma HeadTaken(cells: Board, body: seq<Position>, h: Position, rows: int, columns: int)
    requires Coherent(cells, body, rows, columns)
    requires InBounds(h, rows, columns) && h !in body
    ensures Coherent(Put(cells, h, Snake), [h] + body, rows, columns)
  {
    var grown := [h] + body;
    PutAt(cells, h, Snake);
    forall i, j | 0 <= i < j < |grown| ensures grown[i] != grown[j] {
      if i > 0 {
        assert grown[i] == body[i - 1] && grown[j] == body[j - 1];
      }
    }
  }

  /** Putting food on an empty cell does not disturb the body. */
  lemma FoodCoherent(before: Board, after: Board, body: seq<Position>, rows: int, columns: int)
    requires Coherent(before, body, rows, columns) && FoodPlaced(before, after, rows, columns)
    ensures Coherent(after, body, rows, columns)
  {
    if HasEmpty(before, rows, columns) {
      var p :| InBounds(p, rows, columns) && before[p.row][p.column] == Empty && after == Put(before, p, Food);
      PutAt(before, p, Food);
    }
  }

  /** What a head moving to p meets: Outside beyond the edge, Empty on the tail's cell
      (the tail moves on in the same step), and otherwise the cell's own value. */
  function Hit(cells: Board, body: seq<Position>, p: Position, rows: int, columns: int): GridValue
    requires Shaped(cells, rows, columns) && |body| >= 1
  {
    if !InBounds(p, rows, columns) then Outside
    else if p == Last(body) then Empty
    else cells[p.row][p.column]
  }

  /** On a coherent board the head meets the body exactly on the body's front (the tail
      excluded), food exactly on a food cell, and Empty exactly on the tail or a free cell. */
  lemma HitMeaning(cells: Board, body: seq<Position>, p: Position, rows: int, columns: int)
    requires Coherent(cells, body, rows, columns) && |body| >= 1
    ensures Hit(cells, body, p, rows, columns) == Outside <==> !InBounds(p, rows, columns)
    ensures Hit(cells, body, p, rows, columns) == Snake <==> p in Front(body)
    ensures Hit(cells, body, p, rows, columns) == Food <==>
              InBounds(p, rows, columns) && cells[p.row][p.column] == Food
    ensures Hit(cells, body, p, rows, columns) == Empty <==>
              p == Last(body) || (InBounds(p, rows, columns) && cells[p.row][p.column] == Empty)
  {
    assert body == Front(body) + [Last(body)];
    if p in Front(body) {
      var i :| 0 <= i < |body| - 1 && body[i] == p;
      assert body[i] != body[|body| - 1];
    }
  }

  /** The part of the game state one step can change. */
  datatype Snapshot = Snapshot(cells: Board, body: seq<Position>, score: int, over: bool)

  /** t is what one step toward head position h makes of s: the edge or the body ends
      the game and changes nothing else; an empty cell or the tail's cell moves the snake,
      freeing the tail's cell and taking h; food grows the snake onto h, adds one to the
      score and puts new food on a free cell, if there is one. */
  ghost predicate Stepped(s: Snapshot, h: Position, t: Snapshot, rows: int, columns: int)
    requires Coherent(s.cells, s.body, rows, columns) && |s.body| >= 1
  {
    match Hit(s.cells, s.body, h, rows, columns)
    case Outside => t == s.(over := true)
    case Snake => t == s.(over := true)
    case Empty =>
      t == s.(cells := Put(Put(s.cells, Last(s.body), Empty), h, Snake), body := [h] + Front(s.body))
    case Food =>
      && t.over == s.over && t.score == s.score + 1 && t.body == [h] + s.body
      && FoodPlaced(Put(s.cells, h, Snake), t.cells, rows, columns)
  }

  /** A step keeps the board and the body in step, never lowers the score, and, unless
      the game is over, leaves the head on h with the old head right behind it. */
  lemma {:induction false} StepInvariant(s: Snapshot, h: Position, t: Snapshot, rows: int, columns: int)
    requires Coherent(s.cells, s.body, rows, columns) && |s.body| >= 1
    requires Stepped(s, h, t, rows, columns)
    ensures Coherent(t.cells, t.body, rows, columns) && |t.body| >= 1
    ensures t.score >= s.score
    ensures !t.over ==> t.body[0] == h && (|t.body| >= 2 ==> t.body[1] == s.body[0])
  {
    HitMeaning(s.cells, s.body, h, rows, columns);
    match Hit(s.cells, s.body, h, rows, columns)
    case Outside =>
    case Snake =>
    case Empty =>
      TailFreed(s.cells, s.body, rows, columns);
      assert h !in Front(s.body);
      HeadTaken(Put(s.cells, Last(s.body), Empty), Front(s.body), h, rows, columns);
    case Food =>
      HeadTaken(s.cells, s.body, h, rows, columns);
      FoodCoherent(Put(s.cells, h, Snake), t.cells, [h] + s.body, rows, columns);
  }

  /** The starting board while the first k - 1 body cells are laid: columns 1 .. k - 1 of
      the middle row hold Snake, everything else is empty. */
  function Seeded(rows: nat, columns: nat, k: int): (b: Board)
    ensures Shaped(b, rows, columns)
  {
    seq(rows, r => seq(columns, c => if r == rows / 2 && 1 <= c < k then Snake else Empty))
  }

  /** The starting body: three cells of the middle row, head at column 3. */
  function StartBody(rows: nat): seq<Position> {
    [Position(rows / 2, 3), Position(rows / 2, 2), Position(rows / 2, 1)]
  }

  lemma SeedStep(rows: nat, columns: nat, k: int)
    requires rows >= 1 && 1 <= k < columns
    ensures Put(Seeded(rows, columns, k), Position(rows / 2, k), Snake) == Seeded(rows, columns, k + 1)
  {
    var a, b := Put(Seeded(rows, columns, k), Position(rows / 2, k), Snake), Seeded(rows, columns, k + 1);
    PutAt(Seeded(rows, columns, k), Position(rows / 2, k), Snake);
    forall r | 0 <= r < rows ensures a[r] == b[r] {
      assert forall c :: 0 <= c < columns ==> a[r][c] == b[r][c];
    }
  }

  /** The starting board and body are in step, and column 0 of the middle row is free. */
  lemma StartCoherent(rows: nat, columns: nat)
    requires rows >= 1 && columns >= 4
    ensures Coherent(Seeded(rows, columns, 4), StartBody(rows), rows, columns)
    ensures HasEmpty(Seeded(rows, columns, 4), rows, columns)
  {
    assert Seeded(rows, columns, 4)[rows / 2][0] == Empty;
  }

  /** p comes strictly before q in row-major order. */
  predicate RowMajorBefore(p: Position, q: Position) {
    p.row < q.row || (p.row == q.row && p.column < q.column)
  }
}
