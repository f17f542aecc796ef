# Falling-block game engine, modelled in Dafny

This project models the engine of a small Tetris game (`tetris.py`). The engine has two parts.

- **Pieces.** A `Tetromino` has a shape family, a rotation index, a colour index and the origin
  `(x, y)` of its 4×4 box. The static table `SHAPES` gives each of the seven families
  (I, Z, S, L, J, T, O) 1, 2 or 4 layouts. A layout is four cell indices `row * 4 + col`
  inside the box.
- **The game.** A `TetrisGame` holds:
  - a `rows × cols` grid of colour indices, where 0 is an empty cell and row 0 is at the top;
  - the falling piece and the next piece;
  - the score;
  - the `isActive` flag, which goes false when a newly spawned piece collides at once.

  Its commands move a piece sideways, move it down one row, and hard-drop it. Landing runs
  the same sequence every time: lock the piece, clear the full rows, spawn the next piece.

The model has five modules, one file each:

| file | module | contents |
|---|---|---|
| `shapes.dfy` | `Shapes` | The layout table, rotation arithmetic, the `Pose` value (shape, rotation, x, y), and which box cells a layout occupies. |
| `tetromino.dfy` | `Pieces` | The `Tetromino` class. Its fields are updated in place, as in the source. |
| `board.dfy` | `Board` | The grid as a value, and the functions that specify the engine. `Collides` is the collision test. `Stamp` writes a piece's colour into the grid. `FullCount`, `Survivors` and `Cleared` describe row clearing. `DropRow` gives where a hard drop lands. The lemmas about these functions are here too. |
| `game.dfy` | `Game` | The `TetrisGame` class. Its methods contain the source's loops, each proved against the `Board` functions. |
| `scenarios.dfy` | `Scenarios` | Worked cases on the 20 × 10 board that the game creates. |

The source draws each new piece's shape and colour with `random.randint`. In the model these
are parameters: a shape in `[0, 6]` and a colour in `[1, 6]` (`len(COLORS) - 1`).

Every command method requires `Valid()` and ensures it again. `Valid()` says:
- the grid has `rows` rows of `cols` cells, each cell in `[0, 6]`;
- both pieces are valid and are different objects;
- the next piece waits at `(3, 0)` in rotation 0;
- the falling piece's `y` is not negative.

A method that can end the game states the new flag as `old(isActive) && !collides`. A
method that cannot end the game leaves the flag unchanged. So once the flag is false it
stays false.

The model follows the code, including where it departs from the usual rules of the game:
- The commands do not check `isActive`. After game over they still move pieces and write
  to the grid.
- `rotate` does no collision test. A rotated piece may therefore overlap locked cells or
  stick out of the grid. The invariant does not claim that the falling piece is always
  collision-free.
- A hard drop moves the piece down until it collides. So an O piece hard-dropped on an empty
  20 × 10 board locks at rows 18–19 (`Scenarios.ODropsToFloor`).

The `Board` functions that write down what the source computes, and that the methods are
proved against:
- `Board.Blocked` (tetris.py:61-64): the four-way test on one cell, in the source's operand order.
- `Board.Collides` (tetris.py:57-66): some occupied cell of the piece is blocked.
- `Board.Stamp` (tetris.py:68-72): the grid with the piece's cells set to its colour.
- `Board.Full` (tetris.py:79): Python's `all(row)`, true of an empty row.
- `Board.Cleared` (tetris.py:76-83): one empty row per full row, then the other rows in order.
- `Board.DropRow` (tetris.py:96-99): the landing row of a hard drop.

## Model

| member | source | states |
|---|---|---|
| Shapes.RotationCount | tetris.py:16-24 | Each family has 1, 2 or 4 layouts, and only the O family has exactly one. |
| Shapes.Layout | tetris.py:16-24 | Every layout in the table is four distinct cell indices, each in `[0, 16)`. |
| Shapes.LayoutIndexOccupies | tetris.py:16-24 | Each index `b` of a layout names box cell `(b / 4, b % 4)`. That cell passes the `i * 4 + j in blocks` test, so every layout occupies at least one cell. |
| Shapes.NextRotation | tetris.py:37-38 | One rotation gives a valid rotation index for the family. It differs from the old index exactly when the family has more than one layout. |
| Shapes.Rotated | tetris.py:37-38 | Any number of successive rotations keeps the rotation index in `[0, RotationCount)`. |
| Shapes.RotatedIsModular | tetris.py:37-38 | `n` rotations advance the rotation index by `n` modulo the number of layouts. |
| Shapes.RotationCycle | tetris.py:37-38 | Rotating as many times as the family has layouts restores the starting rotation. |
| Shapes.OShapeNeverTurns | tetris.py:23 | The O piece stays at rotation 0 however often it is rotated. |
| Pieces.Tetromino.constructor | tetris.py:27-32 | A new piece sits at the given origin, in rotation 0, with the given shape and colour. |
| Pieces.Tetromino.GetBlocks | tetris.py:34-35 | Returns four distinct cells of the box. Box cell `(i, j)` is occupied exactly when `i * 4 + j` is among them. |
| Pieces.Tetromino.Rotate | tetris.py:37-38 | The rotation index becomes the next one, cyclically. Shape, colour and origin do not change. The piece stays valid. |
| Board.EmptyRows | tetris.py:47 | A block of empty rows has the requested number of rows and columns, and its cells are in range. |
| Board.FreeFits | tetris.py:57-66 | If a piece does not collide, every occupied cell is on the grid and over an empty cell. |
| Board.FreeAboveFloor | tetris.py:57-66 | If a piece does not collide, its origin row is above the floor (`y < rows`). This is the bound that makes the hard-drop loop terminate. |
| Board.DropRow | tetris.py:96-99 | The landing row of a hard drop is at most one row above the start. |
| Board.DropRowLands | tetris.py:96-99 | The piece is free at every row from the start down to the landing row, and collides one row below it. |
| Board.DropRowAtFirstCollision | tetris.py:96-99 | Conversely, if `y` is the first colliding row at or below the start, the landing row is `y - 1`. |
| Board.DropFromFreeStart | tetris.py:96-100 | From a collision-free start, the drop lands no higher than the start, in a collision-free position that is on the grid. |
| Board.StampWellFormed | tetris.py:68-72 | Writing a piece colour in `[1, 6]` keeps the grid's dimensions and keeps every cell in `[0, 6]`. |
| Board.FullCount | tetris.py:79 | The number of full rows is at most the number of rows. |
| Board.Survivors | tetris.py:78-82 | Each surviving row is a non-full row of the grid. Survivors plus full rows account for every row. |
| Board.ScanStep | tetris.py:78-82 | One step of the top-to-bottom scan: the working grid's row `i` is still the original row `i`. Deleting it when it is full and inserting an empty row on top keeps the form "`k` empty rows, the earlier survivors, the unscanned rows". |
| Board.ClearedWellFormed | tetris.py:76-83 | Clearing keeps `rows` rows of `cols` cells, with every cell in `[0, 6]`. |
| Board.NoFullRowAfterClear | tetris.py:76-83 | With at least one column, no full row remains after clearing. |
| Board.ZeroColumnRowsAllFull | tetris.py:79 | On a board with no columns every row is empty, so every row counts as full and none survives. |
| Board.ClearIdempotentNoColumns | tetris.py:76-83 | On a board with no columns, clearing again finds the empty rows on top full, replaces them by as many empty rows and keeps the survivors, so nothing changes. |
| Board.ClearIdempotent | tetris.py:76-83 | Clearing a cleared grid changes nothing, for any number of columns, zero included. |
| Board.RowShift | tetris.py:78-81 | A non-full row moves down by exactly the number of full rows below it. Together with the empty rows on top, this means the survivors keep their order. |
| Board.LockedCellPersists | tetris.py:68-81 | A cell written by a lock keeps the piece's colour after the clear, shifted down with its row, unless the lock completed that row. |
| Game.TetrisGame.constructor | tetris.py:42-49 | Builds an all-empty `rows × cols` grid, score 0, active, and two fresh pieces at `(3, 0)` in rotation 0 with the given shapes and colours. |
| Game.TetrisGame.SpawnNewPiece | tetris.py:51-55 | The old next piece becomes the falling piece. A fresh next piece appears at `(3, 0)` in rotation 0. The grid and score do not change. The game ends exactly when the promoted piece collides. |
| Game.TetrisGame.CheckCollision | tetris.py:57-66 | Changes nothing. Returns true exactly when some occupied cell is below the floor, left or right of the walls, or over a non-zero cell. The grid is read only for an in-range cell. |
| Game.TetrisGame.WriteCells | tetris.py:69-72 | The grid becomes the old grid with exactly the piece's cells set to its colour. All other cells keep their value. |
| Game.TetrisGame.ClearRows | tetris.py:76-83 | The grid becomes `k` empty rows followed by the non-full rows in their original order, where `k` is the number of full rows. The score grows by exactly `k * k`. |
| Game.TetrisGame.LockPiece | tetris.py:68-74 | Runs lock, then clear, then spawn. The grid is the cleared stamped grid. The score grows by the square of the number of rows completed. The next piece is promoted, and the game ends exactly when it collides. |
| Game.TetrisGame.MoveSide | tetris.py:91-94 | If the position shifted by `dx` is free, the piece moves there. Otherwise it stays where it was. Nothing else changes. |
| Game.TetrisGame.MoveDown | tetris.py:85-89 | If the row below is free, only `y` increases. Otherwise `y` keeps its value and lock, clear and spawn run, with the stated grid, score, pieces and flag. |
| Game.TetrisGame.HardDrop | tetris.py:96-100 | The loop terminates. The piece locks at `DropRow`, one row above the first colliding row at or below the start. Then clear and spawn run, with the stated grid, score, pieces and flag. |
| Scenarios.OShapeCells | tetris.py:23 | The O layout occupies box rows 0–1, columns 1–2. |
| Scenarios.ODropsToFloor | tetris.py:96-100 | On the empty 20 × 10 board, an O piece spawned at `(3, 0)` lands with its origin on row 18. |

## Left out

- The pygame window, clock and font set-up (tetris.py:103-110): these are I/O in an external library.
- The drawing functions and the event/tick loop (tetris.py:113-176): these are rendering, input and timing. The loop only calls `move_side`, `move_down`, `hard_drop` and `Tetromino.rotate`, which are all modelled.
- The RGB values of `COLORS`: only their number (7) matters, as the bound on colour indices.
- `random.randint`: the random shape and colour become method parameters.
- Game.TetrisGame.LockPiece: requires every cell of the piece to lie on the grid. Outside it, the source raises `IndexError`, or, for a negative index, writes into a cell counted from the other end of the row or grid. That behaviour is not modelled.
- Game.TetrisGame.MoveDown: requires the current position to be on the grid whenever the row below collides, because that is where it locks. The failing case is the one described for `LockPiece`.
- Game.TetrisGame.HardDrop: requires the row above the start to be on the grid when the start already collides. This can happen after an unchecked rotation, and then the drop locks at `y - 1`, which may be row -1.
- Game.TetrisGame.CheckCollision: requires `y >= 0`. The invariant guarantees this, so Python's negative-index wrap in `check_collision` never arises in the model.
- Game.TetrisGame.constructor: takes `rows` and `cols` as natural numbers. Negative board sizes are not modelled.
- Board.NoFullRowAfterClear: requires `cols > 0`. Python's `all([])` is true, so with zero columns every row counts as full, even right after clearing.
