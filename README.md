# Three grid games: Tetris, Snake and Tic-Tac-Toe

This project models the game logic of three small C# desktop games and proves
properties of it in Dafny. It covers the state machines behind the windows and
leaves out the windows themselves.

- **Tetris** (`tetris_grid.dfy`, `tetris_blocks.dfy`, `tetris_queue.dfy`, `tetris_game.dfy`).
  - A 22 x 10 grid of cell ids (0 is free). Full rows are cleared with a bottom-up pass
    that works in place.
  - A block has a rotation table, a rotation state and an offset.
  - The block queue draws from a fixed pool of seven block objects. The held block and
    the current block can therefore be the same object.
  - The game state moves, rotates, holds, drops and places the current block.
- **Snake** (`snake_position.dfy`, `snake_board.dfy`, `snake_game.dfy`).
  - Positions and directions are values.
  - The body is a list of positions, head first. It is kept in step with a grid of cell
    values.
  - Direction changes wait in a buffer of at most two.
  - Each step ends the game, moves the snake or grows it. Food goes on any free cell.
- **Tic-Tac-Toe** (`tictactoe.dfy`, `wrappers.dfy`).
  - A 3 x 3 grid; X and O take turns.
  - Wins are checked in a fixed order: row, column, main diagonal, anti-diagonal.
  - The game is a tie after nine turns without a win. It can be reset.

Imperative parts of the games are Dafny classes over arrays, with `modifies` and
`reads` frames. Loops are proved with loop invariants against value-level
specification functions, such as:
- `Compacted` for row clearing;
- `MinDrop` and `FreeBelow` for the hard-drop distance;
- `Stepped` for a Snake step;
- `WinOf` for the win check.

Each class has a `Valid()` invariant that every mutator preserves:
- **Tetris:** while the game runs, the two hidden top rows are free and the current
  block fits.
- **Snake:** the Snake cells are exactly the body, which is in bounds and has no
  repeats. While the game runs, the head is one step past the neck.
- **Tic-Tac-Toe:** the turn count equals the number of marks, X has one more mark than
  O or the same number, and the player to move alternates. While the game is on, no
  line is complete.

Random choices are nondeterministic choices (`:|`):
- the queue's next block;
- the cell for new food.

Events become return values.

The queue hands out the same seven block objects again and again. The model keeps
that reuse (`TetrisQueue.SameKindSameBlock`), and `TetrisGame.GameState.Valid` lets
the held block and the current block be one object.

## Model

| member | source | states |
|---|---|---|
| TetrisGrid.GameGrid.constructor | Tetris/Tetris/GameGrid.cs:7-12 | The grid has the given dimensions and every cell is 0. |
| TetrisGrid.GameGrid.Get | Tetris/Tetris/GameGrid.cs:18-20 | Reading the indexer returns the cell's content. |
| TetrisGrid.GameGrid.Set | Tetris/Tetris/GameGrid.cs:18-21 | Writing the indexer changes exactly cell (r, c). |
| TetrisGrid.GameGrid.IsInside | Tetris/Tetris/GameGrid.cs:24-27 | True exactly when (r, c) addresses a cell of the grid's contents. |
| TetrisGrid.GameGrid.IsEmpty | Tetris/Tetris/GameGrid.cs:29-32 | True exactly when (r, c) is inside the grid and holds 0, so every out-of-bounds cell is non-empty. |
| TetrisGrid.GameGrid.IsRowFull | Tetris/Tetris/GameGrid.cs:34-45 | True exactly when every cell of row r is non-zero. |
| TetrisGrid.GameGrid.IsRowEmpty | Tetris/Tetris/GameGrid.cs:47-58 | True exactly when every cell of row r is 0. |
| TetrisGrid.GameGrid.ClearFullRows | Tetris/Tetris/GameGrid.cs:60-77 | Returns the number of rows that were full before the call. The grid becomes `Compacted`: one zero row per full row on top, then the non-full rows in their old order. |
| TetrisGrid.GameGrid.ClearRow | Tetris/Tetris/GameGrid.cs:79-85 | Row r becomes all zeros; no other row changes. |
| TetrisGrid.GameGrid.MoveRowDown | Tetris/Tetris/GameGrid.cs:87-94 | Row r is copied numRows rows down and row r is zeroed. The precondition r + numRows < Rows is what `ClearFullRows` guarantees, so it never writes past the last row. |
| TetrisGrid.FullCount | Tetris/Tetris/GameGrid.cs:60-77 | The number of cleared rows is at most the number of rows. |
| TetrisGrid.Survivors | Tetris/Tetris/GameGrid.cs:60-77 | Survivors and full rows together account for every row. |
| TetrisGrid.SurvivorsFrom | Tetris/Tetris/GameGrid.cs:63-74 | Every surviving row is a non-full row of the old grid. |
| TetrisGrid.SurvivorLands | Tetris/Tetris/GameGrid.cs:63-74 | A non-full row r ends at r plus the number of full rows below it, inside the grid and with its contents unchanged. |
| TetrisGrid.SurvivorOrder | Tetris/Tetris/GameGrid.cs:63-74 | Surviving rows keep their relative order. |
| TetrisGrid.CompactedIdempotent | Tetris/Tetris/GameGrid.cs:60-77 | After clearing no row is full, so clearing again changes nothing. |
| TetrisGrid.StageClear | Tetris/Tetris/GameGrid.cs:65-69 | The pass step for a full row: it is freed and joins the freed rows. |
| TetrisGrid.StageShift | Tetris/Tetris/GameGrid.cs:70-73 | The pass step for a surviving row with cleared > 0: it drops by cleared rows. |
| TetrisGrid.StageKeep | Tetris/Tetris/GameGrid.cs:63-74 | The pass step for a surviving row with no full row below it: nothing moves. |
| TetrisGrid.StageEnds | Tetris/Tetris/GameGrid.cs:62-76 | The pass starts at the old grid and ends at the compacted grid. |
| TetrisBlocks.NextState | Tetris/Tetris/Blocks/Block.cs:27-30 | A clockwise turn gives (s + 1) mod n, which stays in [0, n). |
| TetrisBlocks.PrevState | Tetris/Tetris/Blocks/Block.cs:32-42 | A counter-clockwise turn stays in [0, n); 0 goes to n - 1. |
| TetrisBlocks.TurnBack | Tetris/Tetris/Blocks/Block.cs:27-42 | CW then CCW, or CCW then CW, restores the rotation state. |
| TetrisBlocks.Turns | Tetris/Tetris/Blocks/Block.cs:27-30 | Any number of clockwise turns stays in [0, n). |
| TetrisBlocks.FullTurn | Tetris/Tetris/Blocks/Block.cs:29 | n clockwise turns return to the starting state. |
| TetrisBlocks.Block.constructor | Tetris/Tetris/Blocks/Block.cs:8-11 | A new block has rotation state 0 and offset equal to the start offset. |
| TetrisBlocks.Block.TilePositions | Tetris/Tetris/Blocks/Block.cs:19-25 | One position per tile of the current rotation state, in table order; each minus the offset is that tile's table entry. |
| TetrisBlocks.Block.RotateCW | Tetris/Tetris/Blocks/Block.cs:27-30 | The rotation state becomes NextState of the old one. |
| TetrisBlocks.Block.RotateCCW | Tetris/Tetris/Blocks/Block.cs:32-42 | The rotation state becomes PrevState of the old one. |
| TetrisBlocks.Block.Move | Tetris/Tetris/Blocks/Block.cs:44-48 | The offset moves by (rows, columns); nothing else changes. |
| TetrisBlocks.Block.Reset | Tetris/Tetris/Blocks/Block.cs:50-55 | The rotation state is 0 and the offset is the start offset. |
| TetrisQueue.BlockQueue.constructor | Tetris/Tetris/BlockQueue.cs:7-23 | There are seven pool blocks in kind order with ids 1..7, and NextBlock is one of them. |
| TetrisQueue.BlockQueue.RandomBlock | Tetris/Tetris/BlockQueue.cs:38-41 | Returns a block of the pool. |
| TetrisQueue.BlockQueue.GetAndUpdate | Tetris/Tetris/BlockQueue.cs:27-36 | Returns the old NextBlock. The new NextBlock is a pool block whose id differs from the returned block's. |
| TetrisQueue.SameKindSameBlock | Tetris/Tetris/BlockQueue.cs:7-16 | Two pool blocks of the same kind are the very same object. |
| TetrisGame.LoweredShifted | Tetris/Tetris/Blocks/Block.cs:19-25 | Moving the offset k rows down moves every tile k rows down. |
| TetrisGame.FitsInside | Tetris/Tetris/GameState.cs:141-152 | Tiles that fit are inside the grid. |
| TetrisGame.Nudged | Tetris/Tetris/GameState.cs:25-33 | Activation sinks a block by at most the number of attempts. |
| TetrisGame.NudgedLands | Tetris/Tetris/GameState.cs:20-34 | An activated block is inside the grid. It fits whenever the two top rows are free. |
| TetrisGame.FreeBelowRun | Tetris/Tetris/GameState.cs:179-189 | Every cell counted by the tile drop distance is free. |
| TetrisGame.FreeBelowEnd | Tetris/Tetris/GameState.cs:179-189 | The cell just after the counted run is not free. |
| TetrisGame.FreeBelowBound | Tetris/Tetris/GameState.cs:179-189 | The run below an inside tile ends inside the grid. |
| TetrisGame.MinDropLeast | Tetris/Tetris/GameState.cs:128-139 | The block drop distance is at most Rows and at most every tile's drop distance. |
| TetrisGame.MinDropAttained | Tetris/Tetris/GameState.cs:128-139 | The block drop distance equals Rows or one tile's drop distance. |
| TetrisGame.DropStops | Tetris/Tetris/GameState.cs:122-139 | The hard-drop distance is in [0, Rows). One row further, the block no longer fits. |
| TetrisGame.DropPath | Tetris/Tetris/GameState.cs:122-139 | A block that fits still fits at every depth down to the hard-drop distance. |
| TetrisGame.DropInside | Tetris/Tetris/GameState.cs:122-126 | The dropped block stays inside the grid. |
| TetrisGame.Stamp | Tetris/Tetris/GameState.cs:161-164 | Placing writes the id into exactly the tile cells. |
| TetrisGame.GameState.ActivatedLands | Tetris/Tetris/GameState.cs:20-34 | An activated block is valid and inside the grid, and fits when the top rows are free. |
| TetrisGame.GameState.constructor | Tetris/Tetris/GameState.cs:9-15 | The grid is empty, the score is 0, holding is allowed and nothing is held. The current block is activated, and the queue's next block is of another kind. |
| TetrisGame.GameState.SetCurrentBlock | Tetris/Tetris/GameState.cs:17-35 | The block is reset and then nudged down by up to two rows; each one-row move is kept only if it fits. |
| TetrisGame.GameState.TakeNextBlock | Tetris/Tetris/GameState.cs:13 | The queue's old next block becomes current and is activated, and the new next block is of another kind. |
| TetrisGame.GameState.RotateBlockCW | Tetris/Tetris/GameState.cs:49-57 | The block turns clockwise if the turned block fits; otherwise its rotation state is unchanged. |
| TetrisGame.GameState.RotateBlockCCW | Tetris/Tetris/GameState.cs:59-67 | The block turns counter-clockwise if the turned block fits; otherwise its rotation state is unchanged. |
| TetrisGame.GameState.MoveBlockLeft | Tetris/Tetris/GameState.cs:69-77 | The offset moves one column left if that fits; otherwise it is unchanged. |
| TetrisGame.GameState.MoveBlockRight | Tetris/Tetris/GameState.cs:79-87 | The offset moves one column right if that fits; otherwise it is unchanged. |
| TetrisGame.GameState.MoveBlockDown | Tetris/Tetris/GameState.cs:89-98 | The block moves one row down if that fits, and nothing else changes. Otherwise it stays where it was and is placed; when the placement ends the game, the block keeps its old offset and rotation state. |
| TetrisGame.GameState.HoldBlock | Tetris/Tetris/GameState.cs:100-120 | A no-op when holding is not allowed. With nothing held, the current block is held and the next one drawn; otherwise held and current swap. Holding is not allowed afterwards. |
| TetrisGame.GameState.DropBlock | Tetris/Tetris/GameState.cs:122-126 | The block is placed as lowered by the hard-drop distance. When the placement ends the game, the block is left at that lowered offset with its rotation state. |
| TetrisGame.GameState.TileDropDistance | Tetris/Tetris/GameState.cs:179-189 | Returns FreeBelow of the tile. |
| TetrisGame.GameState.BlockDropDistance | Tetris/Tetris/GameState.cs:128-139 | Returns the minimum of Rows and every tile's drop distance. |
| TetrisGame.GameState.BlockFits | Tetris/Tetris/GameState.cs:141-152 | True exactly when every tile is inside the grid on a free cell. |
| TetrisGame.GameState.IsGameOver | Tetris/Tetris/GameState.cs:154-157 | True exactly when row 0 or row 1 is not empty. |
| TetrisGame.GameState.WriteTiles | Tetris/Tetris/GameState.cs:161-164 | The grid becomes Stamp of the tiles with the block id. |
| TetrisGame.GameState.PlaceBlock | Tetris/Tetris/GameState.cs:159-177 | The grid is the compaction of the stamped grid, and the score grows by exactly the rows cleared. Then the game is over if a top row is occupied, and the current block stays as it is; otherwise the queue's block becomes current and holding is allowed. |
| TetrisGame.GameState.Conclude | Tetris/Tetris/GameState.cs:168-176 | The game is over exactly when a top row is occupied. Otherwise the next block is activated and holding is allowed. |
| SnakePosition.Direction.Opposite | Snake/Snake/GameState.cs:110-111 | The opposite direction negates both offsets. |
| SnakePosition.OppositeInvolution | Snake/Snake/GameState.cs:110-111 | Opposite of opposite is the direction itself, and no direction is its own opposite. |
| SnakePosition.TranslateInjective | Snake/Snake/Position.cs:18-21 | Different directions lead to different neighbours. |
| SnakePosition.Position.Translate | Snake/Snake/Position.cs:18-21 | The result is a new value different from the receiver. |
| SnakePosition.Position.Equals | Snake/Snake/Position.cs:23-28 | Equal exactly when row and column are equal. |
| SnakePosition.Position.NotEquals | Snake/Snake/Position.cs:35-43 | `!=` is the negation of `==`. |
| SnakePosition.TranslateBack | Snake/Snake/Position.cs:18-21 | A step and the opposite step return to the start. |
| SnakePosition.NoStepBack | Snake/Snake/GameState.cs:103-111 | A snake heading `dir` cannot step back onto its neck unless it turns to the opposite of `dir`. |
| SnakeBoard.PutAt | Snake/Snake/GameState.cs:138 | Writing one cell changes only that cell. |
| SnakeBoard.TailFreed | Snake/Snake/GameState.cs:147-152 | Freeing the tail cell and dropping the tail keeps grid and body in step. |
| SnakeBoard.HeadTaken | Snake/Snake/GameState.cs:141-145 | Taking a free in-bounds cell for the head keeps grid and body in step. |
| SnakeBoard.FoodCoherent | Snake/Snake/GameState.cs:128-139 | Putting food on an empty cell does not disturb the body. |
| SnakeBoard.HitMeaning | Snake/Snake/GameState.cs:154-172 | On a consistent board the head meets Outside exactly off the grid and Snake exactly on the body minus its tail. It meets Food exactly on a food cell, and Empty exactly on the tail or a free cell. |
| SnakeBoard.StepInvariant | Snake/Snake/GameState.cs:62-79 | A step keeps grid and body in step and never lowers the score. While the game runs, the head is the new position with the old head right behind it. |
| SnakeBoard.SeedStep | Snake/Snake/GameState.cs:86-90 | Each round of the start loop marks the next cell of the middle row. |
| SnakeBoard.StartCoherent | Snake/Snake/GameState.cs:82-91 | The start body and board are consistent and the board has a free cell. |
| SnakeGame.GameState.constructor | Snake/Snake/GameState.cs:9-17 | The body is the three cells of row Rows/2, head at column 3, heading Right, score 0, not over. Food is on one previously empty cell. |
| SnakeGame.GameState.Populate | Snake/Snake/GameState.cs:15-16 | Lays the start body, then places food on a free cell. |
| SnakeGame.GameState.AddSnake | Snake/Snake/GameState.cs:82-91 | Columns 1..3 of the middle row become Snake, and the body is those cells, head at column 3. |
| SnakeGame.GameState.Write | Snake/Snake/GameState.cs:138 | The grid store changes exactly one cell. |
| SnakeGame.GameState.HeadPosition | Snake/Snake/GameState.cs:31-34 | The head is in bounds on a Snake cell. |
| SnakeGame.GameState.TailPosition | Snake/Snake/GameState.cs:36-39 | The tail is in bounds on a Snake cell. |
| SnakeGame.GameState.GetLastDirection | Snake/Snake/GameState.cs:93-101 | The newest pending change, or the current direction if none is pending. |
| SnakeGame.GameState.CanChangeDirection | Snake/Snake/GameState.cs:103-112 | Accepted exactly when fewer than two changes are pending and the new direction is at right angles to the last one. Equal and opposite directions are rejected. |
| SnakeGame.GameState.ChangeDirection | Snake/Snake/GameState.cs:46-52 | Appends the change exactly when it is accepted, so at most two are ever pending. |
| SnakeGame.GameState.IsOutside | Snake/Snake/GameState.cs:154-157 | On a board of the game's shape, true exactly when p names no cell of the board. |
| SnakeGame.GameState.WillHit | Snake/Snake/GameState.cs:159-172 | Equals Hit, the value-level outcome whose meaning HitMeaning states. |
| SnakeGame.GameState.Move | Snake/Snake/GameState.cs:54-80 | The heading becomes the oldest pending change while the newest change is dropped, and it never reverses the old heading. While the game runs, the snake never steps onto its neck. Board, body, score and game-over flag change as `Stepped` says. |
| SnakeGame.GameState.Step | Snake/Snake/GameState.cs:62-79 | The edge or the body ends the game and changes nothing else. An empty cell or the tail's cell frees the tail and takes the new head. Food grows the snake, adds 1 to the score and puts food on one free cell, or nowhere if none is free. |
| SnakeGame.GameState.EmptyPositions | Snake/Snake/GameState.cs:114-126 | Lists exactly the empty cells, in row-major order. |
| SnakeGame.GameState.AddFood | Snake/Snake/GameState.cs:128-139 | Food goes on one previously empty cell. With no empty cell nothing changes. |
| SnakeGame.GameState.AddHead | Snake/Snake/GameState.cs:141-145 | The position is prepended to the body and its cell becomes Snake. |
| SnakeGame.GameState.RemoveTail | Snake/Snake/GameState.cs:147-152 | The tail is dropped from the body and its cell becomes Empty. |
| TicTacToe.WinOf | Tic-Tac-Toe/Tic-Tac-Toe/GameState.cs:87-120 | The reported line is held entirely by the mover. No win is reported exactly when the mover holds none of row r, column c and the two diagonals. |
| TicTacToe.Other | Tic-Tac-Toe/Tic-Tac-Toe/GameState.cs:69-72 | The next player is X or O and differs from the current one. |
| TicTacToe.OtherSwaps | Tic-Tac-Toe/Tic-Tac-Toe/GameState.cs:69-72 | Switching twice gives the same player back. |
| TicTacToe.OwnsAllMarked | Tic-Tac-Toe/Tic-Tac-Toe/GameState.cs:74-85 | Holding a line is the same as holding all of its squares. |
| TicTacToe.TallyUpdate | Tic-Tac-Toe/Tic-Tac-Toe/GameState.cs:34-35 | Marking a square moves it from its old occupant's count to the new one's. |
| TicTacToe.TallySplit | Tic-Tac-Toe/Tic-Tac-Toe/GameState.cs:64-67 | X's, O's and the free squares together make up the grid. |
| TicTacToe.TallyFree | Tic-Tac-Toe/Tic-Tac-Toe/GameState.cs:59-62 | A grid with fewer than nine marks has a free square. |
| TicTacToe.NoNewLine | Tic-Tac-Toe/Tic-Tac-Toe/GameState.cs:87-120 | A move that does not win completes no line. The four lines checked are all the lines through the moved square. |
| TicTacToe.MoveKeeps | Tic-Tac-Toe/Tic-Tac-Toe/GameState.cs:27-48 | A legal move keeps the invariant: one more mark, the game over exactly on a win or on the ninth turn, and otherwise the other player to move. |
| TicTacToe.GameState.FreshValid | Tic-Tac-Toe/Tic-Tac-Toe/GameState.cs:11-17 | An empty grid with X to move satisfies the invariant. |
| TicTacToe.GameState.constructor | Tic-Tac-Toe/Tic-Tac-Toe/GameState.cs:11-17 | All squares are None, X is to move, 0 turns have passed and the game is not over. |
| TicTacToe.GameState.Reset | Tic-Tac-Toe/Tic-Tac-Toe/GameState.cs:50-57 | A new all-None grid, X to move, 0 turns, not over. |
| TicTacToe.GameState.CanMakeMove | Tic-Tac-Toe/Tic-Tac-Toe/GameState.cs:59-62 | True exactly when the game is on and the square is None. |
| TicTacToe.GameState.SwitchPlayer | Tic-Tac-Toe/Tic-Tac-Toe/GameState.cs:69-72 | The current player becomes Other of the old one. |
| TicTacToe.GameState.IsGridFull | Tic-Tac-Toe/Tic-Tac-Toe/GameState.cs:64-67 | When the turn count equals the number of marks, the grid counts as full exactly when no square is free. |
| TicTacToe.FullBoard | Tic-Tac-Toe/Tic-Tac-Toe/GameState.cs:64-67 | Nine marks on the board are the same as no free square. |
| TicTacToe.GameState.AreSquaresMarked | Tic-Tac-Toe/Tic-Tac-Toe/GameState.cs:74-85 | True exactly when the player holds every listed square. |
| TicTacToe.GameState.DidMoveWin | Tic-Tac-Toe/Tic-Tac-Toe/GameState.cs:87-120 | Reports WinOf: the first of row, column, main diagonal and anti-diagonal the current player holds. |
| TicTacToe.GameState.DidMoveEndGame | Tic-Tac-Toe/Tic-Tac-Toe/GameState.cs:122-138 | A win gives the current player with the winning line. Otherwise a tie (winner None, no line) exactly when 9 turns have passed, and otherwise no result. |
| TicTacToe.GameState.MakeMove | Tic-Tac-Toe/Tic-Tac-Toe/GameState.cs:27-48 | A no-op when the game is over or the square is taken. Otherwise the player's mark goes on exactly that square and TurnsPassed grows by 1. The game is over exactly when a result is reported. The player stays after an ending move and switches otherwise. |
| TicTacToe.GameState.Mark | Tic-Tac-Toe/Tic-Tac-Toe/GameState.cs:34-35 | Exactly square (r, c) changes, to the current player, and one more turn has passed. |
| TicTacToe.GameState.OnGameHasMove | Tic-Tac-Toe/Tic-Tac-Toe/GameState.cs:59-67 | While the game is on, some square accepts a move. |

## Left out

- The windows of all three games are not part of this model: rendering, images, animations, keyboard and mouse input, and the timer loops. The games' guards on GameOver are the only thing taken from them. In Tetris and Snake the mutators do not need a `!GameOver` precondition, because the invariants hold either way.
- The Tetris tick-delay formula belongs to the window's game loop and is not modelled.
- The seven Tetris block kinds' rotation tables and start offsets are not part of this model. The game takes them as a parameter, a sequence of seven kinds. `WellFormedKinds` requires that each kind's first rotation state, at its start offset, lies within the two top rows and the grid's columns.
- Direction.cs (Snake's direction type) and the `GridValue` enum are not part of this model. Direction is a four-valued datatype with unit offsets and `Opposite`; GridValue has the four values Empty, Snake, Food and Outside.
- `System.Random` is not modelled: the queue's draw and the food cell are nondeterministic choices. `TetrisQueue.BlockQueue.GetAndUpdate` picks a block of another kind directly, which is what every terminating run of the redraw loop does.
- The Tetris `Position` class is mutable, and `Block.Move` and `Block.Reset` update it in place. It is modelled as a value that is reassigned, because the offset is private to its block and never shared.
- `GetHashCode` of Snake's `Position`, and the null handling of the C# equality operator, are not modelled (library calls).
- The Tic-Tac-Toe events (`MoveMade`, `GameEnded`, `GameRestarted`) are not modelled as observers. `MakeMove` returns whether a move was made and the game result, if any. `Reset` returns nothing.
- The public `GameOver` setter of Tic-Tac-Toe is not modelled. Nothing in the game logic uses it, and an outside write would break the invariant.
- Tic-Tac-Toe's line-drawing geometry in the window uses floating point and is not modelled.
- Several helper methods are not in the code. Each does one part of a source method, so that each proof stays small:
  - `TetrisGame.GameState.TakeNextBlock` (`CurrentBlock = BlockQueue.GetAndUpdate()`);
  - `TetrisGame.GameState.WriteTiles` (PlaceBlock's loop);
  - `TetrisGame.GameState.Conclude` (the end of PlaceBlock);
  - `SnakeGame.GameState.Write` (one grid store);
  - `SnakeGame.GameState.Populate` (the constructor's two calls);
  - `SnakeGame.GameState.Step` (Move after the direction update);
  - `TicTacToe.GameState.Mark` (MakeMove's store and turn count).
- The Snake game keeps a ghost copy of its grid (`cells`), which `Mirrored()` ties to the array cell by cell. The proofs reason about values instead of the heap.
- The Tetris constructor stores a placeholder current block before the object is complete; `TakeNextBlock` then sets the real one. Dafny requires every field to be assigned before `new;`.
- Three preconditions rule out inputs on which the C# code would throw `IndexOutOfRangeException`; no caller in the games ever passes such an input:
  - `SnakeGame.GameState.constructor` requires at least 1 row and 4 columns, because `AddSnake` writes columns 1 to 3 of the middle row. The window builds a 20 x 20 board.
  - `TicTacToe.GameState.MakeMove` requires 0 <= r, c < 3, because `CanMakeMove` indexes the 3 x 3 grid. The window's buttons pass only those squares.
  - `TetrisGrid.GameGrid.Get` and `TetrisGrid.GameGrid.Set` require `IsInside(r, c)`, because they index the array. Every caller passes tiles proved to be inside the grid.
- Integer overflow is not modelled: scores and turn counts are unbounded integers. The C# `int` counters cannot reach their limits in these games except after billions of moves.
