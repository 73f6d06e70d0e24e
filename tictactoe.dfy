/** The Tic-Tac-Toe state machine. Two players take turns marking the squares of a
    3 x 3 grid; a move that completes the mover's row, column or diagonal wins, and a move
    that fills the ninth square without winning ends in a tie. The events the game fires
    for a move, an ending and a restart are modelled as return values. */
module TicTacToe {
  import Wrappers

  /** The occupant of a square; `None` is also the value of a fresh grid. */
  datatype Player = None | X | O

  datatype WinType = Row | Column | MainDiagonal | AntiDiagonal

  /** The winning line: its kind and, for a row or a column, its index. A diagonal keeps
      the default index 0. */
  datatype WinInfo = WinInfo(kind: WinType, number: int)

  /** How a game ended: the winner (`None` for a tie) and the winning line, if any. */
  datatype GameResult = GameResult(winner: Player, winInfo: Wrappers.Option<WinInfo>)

  /** A snapshot of the grid, row by row. */
  type Board = seq<seq<Player>>

  type Square = (int, int)

  predicate ThreeByThree(b: Board) {
    |b| == 3 && forall r :: 0 <= r < 3 ==> |b[r]| == 3
  }

  predicate OnGrid(squares: seq<Square>) {
    forall i :: 0 <= i < |squares| ==> 0 <= squares[i].0 < 3 && 0 <= squares[i].1 < 3
  }

  /** The squares of row r, column c and the two diagonals, each in the order the game checks its squares. */
  function RowLine(r: int): (line: seq<Square>)
    requires 0 <= r < 3
    ensures |line| == 3 && OnGrid(line)
  {
    [(r, 0), (r, 1), (r, 2)]
  }

  function ColumnLine(c: int): (line: seq<Square>)
    requires 0 <= c < 3
    ensures |line| == 3 && OnGrid(line)
  {
    [(0, c), (1, c), (2, c)]
  }

  function MainLine(): (line: seq<Square>)
    ensures |line| == 3 && OnGrid(line)
  {
    [(0, 0), (1, 1), (2, 2)]
  }

  function AntiLine(): (line: seq<Square>)
    ensures |line| == 3 && OnGrid(line)
  {
    [(0, 2), (1, 1), (2, 0)]
  }

  /** Player p holds every one of the squares. */
  predicate AllMarked(b: Board, squares: seq<Square>, p: Player)
    requires ThreeByThree(b) && OnGrid(squares)
  {
    forall i :: 0 <= i < |squares| ==> b[squares[i].0][squares[i].1] == p
  }

  /** Player p holds the three squares of a line. */
  predicate Owns(b: Board, line: seq<Square>, p: Player)
    requires ThreeByThree(b) && OnGrid(line) && |line| == 3
  {
    && b[line[0].0][line[0].1] == p
    && b[line[1].0][line[1].1] == p
    && b[line[2].0][line[2].1] == p
  }

  lemma OwnsAllMarked(b: Board, line: seq<Square>, p: Player)
    requires ThreeByThree(b) && OnGrid(line) && |line| == 3
    ensures Owns(b, line, p) <==> AllMarked(b, line, p)
  {
  }

  /** The line a WinInfo names, for a move at (r, c). */
  function LineOf(w: WinInfo): (line: seq<Square>)
    requires 0 <= w.number < 3
    ensures |line| == 3 && OnGrid(line)
  {
    match w.kind
    case Row => RowLine(w.number)
    case Column => ColumnLine(w.number)
    case MainDiagonal => MainLine()
    case AntiDiagonal => AntiLine()
  }

  /** The win a move at (r, c) by p produces on board b: the first of row r, column c,
      the main diagonal and the anti-diagonal that p holds entirely. The reported line is
      one p holds, and no line is reported only when p holds none of the four. */
  function WinOf(b: Board, r: int, c: int, p: Player): (w: Wrappers.Option<WinInfo>)
    requires ThreeByThree(b) && 0 <= r < 3 && 0 <= c < 3
    ensures w.Some? ==> 0 <= w.value.number < 3 && Owns(b, LineOf(w.value), p)
    ensures w.None? <==>
              && !Owns(b, RowLine(r), p) && !Owns(b, ColumnLine(c), p)
              && !Owns(b, MainLine(), p) && !Owns(b, AntiLine(), p)
  {
    if Owns(b, RowLine(r), p) then Wrappers.Some(WinInfo(Row, r))
    else if Owns(b, ColumnLine(c), p) then Wrappers.Some(WinInfo(Column, c))
    else if Owns(b, MainLine(), p) then Wrappers.Some(WinInfo(MainDiagonal, 0))
    else if Owns(b, AntiLine(), p) then Wrappers.Some(WinInfo(AntiDiagonal, 0))
    else Wrappers.None
  }

  /** One player holds the whole line. */
  predicate Complete(b: Board, line: seq<Square>)
    requires ThreeByThree(b) && OnGrid(line) && |line| == 3
  {
    b[line[0].0][line[0].1] != None && Owns(b, line, b[line[0].0][line[0].1])
  }

  /** Nobody holds a whole line. */
  predicate NoLine(b: Board)
    requires ThreeByThree(b)
  {
    && !Complete(b, RowLine(0)) && !Complete(b, RowLine(1)) && !Complete(b, RowLine(2))
    && !Complete(b, ColumnLine(0)) && !Complete(b, ColumnLine(1)) && !Complete(b, ColumnLine(2))
    && !Complete(b, MainLine()) && !Complete(b, AntiLine())
  }

  /** The board with square (r, c) set to p. */
  function Put(b: Board, r: int, c: int, p: Player): (b': Board)
    requires ThreeByThree(b) && 0 <= r < 3 && 0 <= c < 3
    ensures ThreeByThree(b')
  {
    b[r := b[r][c := p]]
  }

  /** The number of squares of s that p holds. */
  function CountIn(s: seq<Player>, p: Player): nat {
    if s == [] then 0 else CountIn(s[..|s| - 1], p) + (if s[|s| - 1] == p then 1 else 0)
  }

  /** The number of squares of the board that p holds. */
  function Tally(b: Board, p: Player): nat {
    if b == [] then 0 else Tally(b[..|b| - 1], p) + CountIn(b[|b| - 1], p)
  }

  /** The player who moves after p. */
  function Other(p: Player): (q: Player)
    ensures q != None && q != p
  {
    if p == X then O else X
  }

  /** Other swaps the two players. */
  lemma OtherSwaps(p: Player)
    requires p != None
    ensures Other(Other(p)) == p
  {
  }

  /** The squares of s split between X, O and the free ones. */
  lemma {:induction false} CountSplit(s: seq<Player>)
    ensures CountIn(s, X) + CountIn(s, O) + CountIn(s, None) == |s|
  {
    if s != [] {
      CountSplit(s[..|s| - 1]);
    }
  }

  lemma {:induction false} TallySplit(b: Board)
    requires forall r :: 0 <= r < |b| ==> |b[r]| == 3
    ensures Tally(b, X) + Tally(b, O) + Tally(b, None) == 3 * |b|
  {
    if b != [] {
      TallySplit(b[..|b| - 1]);
      CountSplit(b[|b| - 1]);
    }
  }

  /** Marking one square changes the count of the old and of the new occupant by one. */
  lemma {:induction false} CountUpdate(s: seq<Player>, i: int, v: Player, q: Player)
    requires 0 <= i < |s|
    ensures CountIn(s[i := v], q) + (if s[i] == q then 1 else 0) == CountIn(s, q) + (if v == q then 1 else 0)
  {
    if i < |s| - 1 {
      assert s[i := v][..|s| - 1] == s[..|s| - 1][i := v];
      CountUpdate(s[..|s| - 1], i, v, q);
    } else {
      assert s[i := v][..|s| - 1] == s[..|s| - 1];
    }
  }

  lemma {:induction false} TallyUpdate(b: Board, r: int, c: int, v: Player, q: Player)
    requires 0 <= r < |b| && 0 <= c < |b[r]|
    ensures Tally(b[r := b[r][c := v]], q) + (if b[r][c] == q then 1 else 0)
            == Tally(b, q) + (if v == q then 1 else 0)
  {
    var b' := b[r := b[r][c := v]];
    if r < |b| - 1 {
      assert b'[..|b| - 1] == b[..|b| - 1][r := b[r][c := v]];
      TallyUpdate(b[..|b| - 1], r, c, v, q);
    } else {
      assert b'[..|b| - 1] == b[..|b| - 1];
      CountUpdate(b[r], c, v, q);
    }
  }

  /** Nobody holds a square of a row of free squares. */
  lemma {:induction false} CountAbsent(s: seq<Player>, p: Player)
    requires forall i :: 0 <= i < |s| ==> s[i] != p
    ensures CountIn(s, p) == 0
  {
    if s != [] {
      CountAbsent(s[..|s| - 1], p);
    }
  }

  lemma {:induction false} TallyAbsent(b: Board, p: Player)
    requires forall r, c :: 0 <= r < |b| && 0 <= c < |b[r]| ==> b[r][c] != p
    ensures Tally(b, p) == 0
  {
    if b != [] {
      TallyAbsent(b[..|b| - 1], p);
      CountAbsent(b[|b| - 1], p);
    }
  }

  /** A row with a free square has a free square at some index. */
  lemma {:induction false} CountFree(s: seq<Player>)
    requires CountIn(s, None) > 0
    ensures exists i :: 0 <= i < |s| && s[i] == None
  {
    if s[|s| - 1] != None {
      CountFree(s[..|s| - 1]);
      var i :| 0 <= i < |s| - 1 && s[..|s| - 1][i] == None;
      assert s[i] == None;
    }
  }

  /** A board on which fewer than nine squares are marked has a free square. */
  lemma {:induction false} TallyFree(b: Board)
    requires Tally(b, None) > 0
    ensures exists r, c :: 0 <= r < |b| && 0 <= c < |b[r]| && b[r][c] == None
  {
    if CountIn(b[|b| - 1], None) > 0 {
      CountFree(b[|b| - 1]);
      var c :| 0 <= c < |b[|b| - 1]| && b[|b| - 1][c] == None;
      assert b[|b| - 1][c] == None;
    } else {
      TallyFree(b[..|b| - 1]);
      var r, c :| 0 <= r < |b| - 1 && 0 <= c < |b[..|b| - 1][r]| && b[..|b| - 1][r][c] == None;
      assert b[r][c] == None;
    }
  }

  /** No square of the board is free. */
  predicate NoneFree(b: Board)
    requires ThreeByThree(b)
  {
    forall r, c :: 0 <= r < 3 && 0 <= c < 3 ==> b[r][c] != None
  }

  /** Nine marks are exactly a board without a free square. */
  lemma FullBoard(b: Board)
    requires ThreeByThree(b)
    ensures Tally(b, X) + Tally(b, O) == 9 <==> NoneFree(b)
  {
    TallySplit(b);
    if NoneFree(b) {
      TallyAbsent(b, None);
    } else if Tally(b, None) == 0 {
      var r, c :| 0 <= r < 3 && 0 <= c < 3 && b[r][c] == None;
      CountPositive(b, r, c);
    }
  }

  /** A free square makes the free count positive. */
  lemma CountPositive(b: Board, r: int, c: int)
    requires ThreeByThree(b) && 0 <= r < 3 && 0 <= c < 3 && b[r][c] == None
    ensures Tally(b, None) > 0
  {
    TallyUpdate(b, r, c, X, None);
  }

  /** A move that does not win cannot complete any line: a line completed by the move
      runs through the moved square and belongs to the mover, and the four lines checked
      for a win are all the lines through that square. */
  lemma {:induction false} NoNewLine(b: Board, r: int, c: int, p: Player)
    requires ThreeByThree(b) && 0 <= r < 3 && 0 <= c < 3 && p != None
    requires NoLine(b) && WinOf(Put(b, r, c, p), r, c, p).None?
    ensures NoLine(Put(b, r, c, p))
  {
    StaysOpen(b, r, c, p, RowLine(0));
    StaysOpen(b, r, c, p, RowLine(1));
    StaysOpen(b, r, c, p, RowLine(2));
    StaysOpen(b, r, c, p, ColumnLine(0));
    StaysOpen(b, r, c, p, ColumnLine(1));
    StaysOpen(b, r, c, p, ColumnLine(2));
    StaysOpen(b, r, c, p, MainLine());
    StaysOpen(b, r, c, p, AntiLine());
  }

  /** An open line stays open under a move, unless the move is on it and the mover then
      holds it. */
  lemma StaysOpen(b: Board, r: int, c: int, p: Player, line: seq<Square>)
    requires ThreeByThree(b) && 0 <= r < 3 && 0 <= c < 3 && p != None
    requires OnGrid(line) && |line| == 3 && !Complete(b, line)
    requires (r, c) in line ==> !Owns(Put(b, r, c, p), line, p)
    ensures !Complete(Put(b, r, c, p), line)
  {
  }

  /** The game invariant on values. The turn count is the number of marked squares; X
      has made the odd-numbered moves and O the even-numbered ones; the player to move
      alternates, and after the game ends it is the player who ended it. While the game
      is on, no line is complete and fewer than nine squares are marked. */
  predicate Consistent(b: Board, turns: int, player: Player, over: bool)
    requires ThreeByThree(b)
  {
    && Tally(b, X) == (turns + 1) / 2
    && Tally(b, O) == turns / 2
    && 0 <= turns <= 9
    && player == (if (turns % 2 == 0) == !over then X else O)
    && (!over ==> turns < 9 && NoLine(b))
  }

  /** A move on a free square of a game that is on keeps the invariant: the mark goes on
      the square, the turn count grows by one, the game ends on a win or on the ninth
      turn, and otherwise the other player is to move. */
  lemma {:induction false} MoveKeeps(b: Board, turns: int, p: Player, r: int, c: int)
    requires ThreeByThree(b) && 0 <= r < 3 && 0 <= c < 3
    requires Consistent(b, turns, p, false) && b[r][c] == None
    ensures var b' := Put(b, r, c, p);
            var over := WinOf(b', r, c, p).Some? || turns + 1 == 9;
            Consistent(b', turns + 1, if over then p else Other(p), over)
  {
    TallyUpdate(b, r, c, p, X);
    TallyUpdate(b, r, c, p, O);
    if WinOf(Put(b, r, c, p), r, c, p).None? {
      NoNewLine(b, r, c, p);
    }
  }

  class GameState {
    var gameGrid: array2<Player>
    var currentPlayer: Player
    var turnsPassed: int
    var gameOver: bool

    /** The grid's contents, row by row. */
    ghost function Cells(): (b: Board)
      reads this, gameGrid
      requires gameGrid.Length0 == 3 && gameGrid.Length1 == 3
      ensures ThreeByThree(b)
    {
      [[gameGrid[0, 0], gameGrid[0, 1], gameGrid[0, 2]],
       [gameGrid[1, 0], gameGrid[1, 1], gameGrid[1, 2]],
       [gameGrid[2, 0], gameGrid[2, 1], gameGrid[2, 2]]]
    }

    /** The invariant: the grid is 3 x 3 and consistent with the counters. */
    ghost predicate Valid()
      reads this, gameGrid
    {
      gameGrid.Length0 == 3 && gameGrid.Length1 == 3 && Consistent(Cells(), turnsPassed, currentPlayer, gameOver)
    }

    /** An empty grid with X to move. */
    predicate Fresh()
      reads this, gameGrid
    {
      && gameGrid.Length0 == 3 && gameGrid.Length1 == 3
      && (forall r, c :: 0 <= r < 3 && 0 <= c < 3 ==> gameGrid[r, c] == None)
      && currentPlayer == X && turnsPassed == 0 && !gameOver
    }

    /** The empty grid satisfies the invariant. */
    lemma FreshValid()
      requires Fresh()
      ensures Valid()
    {
      var b := Cells();
      TallyAbsent(b, X);
      TallyAbsent(b, O);
    }

    constructor ()
      ensures Fresh() && Valid() && fresh(gameGrid)
    {
      gameGrid := new Player[3, 3]((r, c) => None);
      currentPlayer := X;
      turnsPassed := 0;
      gameOver := false;
      new;
      FreshValid();
    }

    /** A new game: a new empty grid, X to move, no turns, not over. The restart event
        becomes the method's return. */
    method Reset()
      modifies this
      ensures Fresh() && Valid() && fresh(gameGrid)
    {
      gameGrid := new Player[3, 3]((r, c) => None);
      currentPlayer := X;
      turnsPassed := 0;
      gameOver := false;
      FreshValid();
    }

    /** A move is allowed on a free square of a game that is still on. */
    function CanMakeMove(row: int, col: int): (ok: bool)
      reads this, gameGrid
      requires gameGrid.Length0 == 3 && gameGrid.Length1 == 3 && 0 <= row < 3 && 0 <= col < 3
      ensures ok <==> !gameOver && Cells()[row][col] == None
    {
      !gameOver && gameGrid[row, col] == None
    }

    /** The grid counts as full after nine turns: when the turn count is the number of
        marks, that is exactly when no square is free. */
    function IsGridFull(): (full: bool)
      reads this, gameGrid
      ensures gameGrid.Length0 == 3 && gameGrid.Length1 == 3 && Tally(Cells(), X) + Tally(Cells(), O) == turnsPassed ==>
                (full <==> NoneFree(Cells()))
    {
      if gameGrid.Length0 == 3 && gameGrid.Length1 == 3 then
        FullBoard(Cells());
        turnsPassed == 9
      else
        turnsPassed == 9
    }

    method SwitchPlayer()
      modifies this`currentPlayer
      ensures currentPlayer == Other(old(currentPlayer))
    {
      currentPlayer := if currentPlayer == X then O else X;
    }

    /** Whether `player` holds every one of the squares; stops at the first square it
        does not hold. */
    method AreSquaresMarked(squares: seq<Square>, player: Player) returns (marked: bool)
      requires gameGrid.Length0 == 3 && gameGrid.Length1 == 3 && OnGrid(squares)
      ensures marked <==> AllMarked(Cells(), squares, player)
    {
      for i := 0 to |squares|
        invariant forall j :: 0 <= j < i ==> gameGrid[squares[j].0, squares[j].1] == player
      {
        if gameGrid[squares[i].0, squares[i].1] != player {
          return false;
        }
      }
      return true;
    }

    /** Checks row r, column c, the main diagonal and the anti-diagonal in that order,
        and reports the first one the current player holds. */
    method DidMoveWin(r: int, c: int) returns (won: bool, winInfo: Wrappers.Option<WinInfo>)
      requires gameGrid.Length0 == 3 && gameGrid.Length1 == 3 && 0 <= r < 3 && 0 <= c < 3
      ensures winInfo == WinOf(Cells(), r, c, currentPlayer)
      ensures won <==> winInfo.Some?
    {
      var row := RowLine(r);
      var col := ColumnLine(c);
      var mainDiag := MainLine();
      var antiDiag := AntiLine();
      OwnsAllMarked(Cells(), row, currentPlayer);
      OwnsAllMarked(Cells(), col, currentPlayer);
      OwnsAllMarked(Cells(), mainDiag, currentPlayer);
      OwnsAllMarked(Cells(), antiDiag, currentPlayer);
      var marked := AreSquaresMarked(row, currentPlayer);
      if marked {
        return true, Wrappers.Some(WinInfo(Row, r));
      }
      marked := AreSquaresMarked(col, currentPlayer);
      if marked {
        return true, Wrappers.Some(WinInfo(Column, c));
      }
      marked := AreSquaresMarked(mainDiag, currentPlayer);
      if marked {
        return true, Wrappers.Some(WinInfo(MainDiagonal, 0));
      }
      marked := AreSquaresMarked(antiDiag, currentPlayer);
      if marked {
        return true, Wrappers.Some(WinInfo(AntiDiagonal, 0));
      }
      return false, Wrappers.None;
    }

    /** The game ends with the current player's win if the move at (r, c) wins, and in a
        tie if it does not win but the ninth turn has passed. */
    method DidMoveEndGame(r: int, c: int) returns (ended: bool, gameResult: Wrappers.Option<GameResult>)
      requires gameGrid.Length0 == 3 && gameGrid.Length1 == 3 && 0 <= r < 3 && 0 <= c < 3
      ensures ended <==> gameResult.Some?
      ensures WinOf(Cells(), r, c, currentPlayer).Some? ==>
                gameResult == Wrappers.Some(GameResult(currentPlayer, WinOf(Cells(), r, c, currentPlayer)))
      ensures WinOf(Cells(), r, c, currentPlayer).None? ==>
                gameResult == if turnsPassed == 9 then Wrappers.Some(GameResult(None, Wrappers.None)) else Wrappers.None
    {
      var won, winInfo := DidMoveWin(r, c);
      if won {
        return true, Wrappers.Some(GameResult(currentPlayer, winInfo));
      }
      if IsGridFull() {
        return true, Wrappers.Some(GameResult(None, Wrappers.None));
      }
      return false, Wrappers.None;
    }

    /** A move at (r, c). It is ignored when the game is over or the square is taken.
        Otherwise the current player's mark goes on the square and the turn count grows
        by one; the move is reported (`moved`); if it ends the game, the game is over
        and the result is reported too, and if not, the other player is to move. */
    method MakeMove(r: int, c: int) returns (moved: bool, ended: Wrappers.Option<GameResult>)
      requires Valid() && 0 <= r < 3 && 0 <= c < 3
      modifies gameGrid, this`currentPlayer, this`turnsPassed, this`gameOver
      ensures Valid()
      ensures moved <==> old(CanMakeMove(r, c))
      ensures !moved ==> ended == Wrappers.None && unchanged(this, gameGrid)
      ensures moved ==>
                && Cells() == Put(old(Cells()), r, c, old(currentPlayer))
                && turnsPassed == old(turnsPassed) + 1
                && (gameOver <==> ended.Some?)
                && (gameOver ==> currentPlayer == old(currentPlayer))
                && (!gameOver ==> currentPlayer == Other(old(currentPlayer)))
      ensures moved && WinOf(Cells(), r, c, old(currentPlayer)).Some? ==>
                ended == Wrappers.Some(GameResult(old(currentPlayer), WinOf(Cells(), r, c, old(currentPlayer))))
      ensures moved && WinOf(Cells(), r, c, old(currentPlayer)).None? ==>
                ended == if turnsPassed == 9 then Wrappers.Some(GameResult(None, Wrappers.None)) else Wrappers.None
    {
      if !CanMakeMove(r, c) {
        return false, Wrappers.None;
      }
      MoveKeeps(Cells(), turnsPassed, currentPlayer, r, c);
      Mark(r, c);
      var over, gameResult := DidMoveEndGame(r, c);
      if over {
        gameOver := true;
      } else {
        SwitchPlayer();
      }
      return true, gameResult;
    }

    /** The start of a move: the current player's mark goes on square (r, c) and one
        more turn has passed. */
    method Mark(r: int, c: int)
      requires gameGrid.Length0 == 3 && gameGrid.Length1 == 3 && 0 <= r < 3 && 0 <= c < 3
      modifies gameGrid, this`turnsPassed
      ensures Cells() == Put(old(Cells()), r, c, currentPlayer) && turnsPassed == old(turnsPassed) + 1
    {
      ghost var before := Cells();
      gameGrid[r, c] := currentPlayer;
      turnsPassed := turnsPassed + 1;
      forall i | 0 <= i < 3 ensures Cells()[i] == Put(before, r, c, currentPlayer)[i] {
      }
    }

    /** While the game is on, some square is free, so a move is always possible. */
    lemma OnGameHasMove()
      requires Valid() && !gameOver
      ensures exists r, c :: 0 <= r < 3 && 0 <= c < 3 && CanMakeMove(r, c)
    {
      var b := Cells();
      TallySplit(b);
      TallyFree(b);
      var r, c :| 0 <= r < 3 && 0 <= c < 3 && b[r][c] == None;
      assert CanMakeMove(r, c);
    }
  }
}
