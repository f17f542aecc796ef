/** The game engine: the grid of locked cells, the falling and the next piece, the score and
    the game-over flag, and the commands that move, drop and lock pieces. */
module Game {
  import opened Shapes
  import opened Pieces
  import opened Board

  /** Column and row at which every new piece appears. */
  const SPAWN_X: int := 3
  const SPAWN_Y: int := 0

  class TetrisGame {
    const rows: nat
    const cols: nat
    var score: nat
    var isActive: bool
    var grid: Grid
    var current: Tetromino
    var next: Tetromino

    /** The engine's invariant, except for where the falling piece is: a well-formed grid,
        two distinct valid pieces, and a next piece still waiting at the spawn point. */
    ghost predicate BoardValid()
      reads this, current, next
    {
      && WellFormed(grid, rows, cols)
      && current.Valid() && next.Valid() && current != next
      && next.x == SPAWN_X && next.y == SPAWN_Y && next.rotation == 0
    }

    /** The full invariant: the falling piece is never above row 0, so every grid read of
        check_collision uses a non-negative row index. */
    ghost predicate Valid()
      reads this, current, next
    {
      BoardValid() && current.y >= 0
    }

    /** An empty `rows` × `cols` board with two fresh pieces at the spawn point; their shapes
        and colours, drawn at random by the game, are parameters here. */
    constructor (rows: nat, cols: nat, shape0: int, color0: int, shape1: int, color1: int)
      requires ValidShape(shape0) && ValidColor(color0) && ValidShape(shape1) && ValidColor(color1)
      ensures Valid()
      ensures this.rows == rows && this.cols == cols
      ensures grid == EmptyRows(rows, cols) && score == 0 && isActive
      ensures fresh(current) && current.Position() == Pose(shape0, 0, SPAWN_X, SPAWN_Y) && current.colorIndex == color0
      ensures fresh(next) && next.Position() == Pose(shape1, 0, SPAWN_X, SPAWN_Y) && next.colorIndex == color1
    {
      this.rows := rows;
      this.cols := cols;
      score := 0;
      isActive := true;
      grid := EmptyRows(rows, cols);
      current := new Tetromino(SPAWN_X, SPAWN_Y, shape0, color0);
      next := new Tetromino(SPAWN_X, SPAWN_Y, shape1, color1);
    }

    /** Promotes the next piece and creates a new one at the spawn point; the game is over
        when the promoted piece collides at once. */
    method SpawnNewPiece(shape: int, color: int)
      requires BoardValid()
      requires ValidShape(shape) && ValidColor(color)
      modifies this
      ensures Valid()
      ensures grid == old(grid) && score == old(score)
      ensures current == old(next)
      ensures fresh(next) && next.Position() == Pose(shape, 0, SPAWN_X, SPAWN_Y) && next.colorIndex == color
      ensures isActive == (old(isActive) && !Collides(grid, rows, cols, current.Position()))
    {
      current := next;
      next := new Tetromino(SPAWN_X, SPAWN_Y, shape, color);
      var collides := CheckCollision();
      if collides {
        isActive := false;
      }
    }

    /** Whether the falling piece, where it stands, leaves the grid or overlaps a locked cell. */
    method CheckCollision() returns (collides: bool)
      requires Valid()
      ensures collides == Collides(grid, rows, cols, current.Position())
    {
      var blocks := current.GetBlocks();
      ghost var p := current.Position();
      for i := 0 to 4
        invariant forall i', j :: i' < i && Occupies(p.shape, p.rotation, i', j) ==>
                    !Blocked(grid, rows, cols, p.y + i', p.x + j)
      {
        for j := 0 to 4
          invariant forall i', j' :: (i' < i || (i' == i && j' < j)) && Occupies(p.shape, p.rotation, i', j') ==>
                      !Blocked(grid, rows, cols, p.y + i', p.x + j')
        {
          if i * 4 + j in blocks {
            if current.y + i >= rows || current.x + j < 0 || current.x + j >= cols
               || grid[current.y + i][current.x + j] > 0
            {
              assert Occupies(p.shape, p.rotation, i, j) && Blocked(grid, rows, cols, p.y + i, p.x + j);
              return true;
            }
          }
        }
      }
      return false;
    }

    /** Writes the falling piece's colour into the grid cells it covers (the first half of
        lock_piece); every other cell keeps its value. */
    method WriteCells()
      requires BoardValid() && InBounds(rows, cols, current.Position())
      modifies this`grid
      ensures BoardValid()
      ensures grid == Stamp(old(grid), current.Position(), current.colorIndex)
    {
      var blocks := current.GetBlocks();
      ghost var p := current.Position();
      ghost var color := current.colorIndex;
      for i := 0 to 4
        invariant WellFormed(grid, rows, cols)
        invariant forall r, c :: 0 <= r < rows && 0 <= c < cols ==>
                    grid[r][c] == if Covers(p, r, c) && r - p.y < i then color else old(grid)[r][c]
      {
        for j := 0 to 4
          invariant WellFormed(grid, rows, cols)
          invariant forall r, c :: 0 <= r < rows && 0 <= c < cols ==>
                      grid[r][c] == if Covers(p, r, c) && (r - p.y < i || (r - p.y == i && c - p.x < j))
                                    then color else old(grid)[r][c]
        {
          if i * 4 + j in blocks {
            assert Occupies(p.shape, p.rotation, i, j);
            grid := grid[current.y + i := grid[current.y + i][current.x + j := current.colorIndex]];
          }
        }
      }
      ghost var stamped := Stamp(old(grid), p, color);
      forall r | 0 <= r < rows
        ensures grid[r] == stamped[r]
      {
        assert |grid[r]| == |stamped[r]|;
      }
    }

    /** Removes every full row in one top-to-bottom pass, inserting an empty row on top for
        each, and adds the square of the number of removed rows to the score. */
    method ClearRows()
      requires WellFormed(grid, rows, cols)
      modifies this`grid, this`score
      ensures WellFormed(grid, rows, cols)
      ensures grid == Cleared(old(grid), cols)
      ensures score == old(score) + FullCount(old(grid)) * FullCount(old(grid))
    {
      ghost var g := grid;
      assert |g| == rows;
      var linesCleared: nat := 0;
      for i := 0 to rows
        invariant score == old(score) && |grid| == rows
        invariant linesCleared == FullCount(g[..i])
        invariant grid == EmptyRows(linesCleared, cols) + Survivors(g[..i]) + g[i..]
      {
        ScanStep(g, i, cols);
        if Full(grid[i]) {
          // delete row i, then insert an empty row at index 0
          grid := [EmptyRow(cols)] + (grid[..i] + grid[i + 1..]);
          linesCleared := linesCleared + 1;
        }
      }
      ScanDone(g, cols);
      score := score + linesCleared * linesCleared;
      ClearedWellFormed(g, rows, cols);
    }

    /** Locks the falling piece where it stands, clears full rows, then spawns the next piece
        (the new next piece gets `shape` and `color`). */
    method LockPiece(shape: int, color: int)
      requires BoardValid() && InBounds(rows, cols, current.Position())
      requires ValidShape(shape) && ValidColor(color)
      modifies this
      ensures Valid()
      ensures var stamped := Stamp(old(grid), old(current.Position()), old(current.colorIndex));
        && grid == Cleared(stamped, cols)
        && score == old(score) + FullCount(stamped) * FullCount(stamped)
      ensures current == old(next)
      ensures fresh(next) && next.Position() == Pose(shape, 0, SPAWN_X, SPAWN_Y) && next.colorIndex == color
      ensures isActive == (old(isActive) && !Collides(grid, rows, cols, current.Position()))
    {
      WriteCells();
      ClearRows();
      SpawnNewPiece(shape, color);
    }

    /** Shifts the falling piece `dx` columns when the shifted position is free; otherwise the
        piece stays put. Nothing else changes. */
    method MoveSide(dx: int)
      requires Valid()
      modifies current
      ensures Valid() && unchanged(this) && unchanged(next)
      ensures var moved := old(current.Position()).(x := old(current.x) + dx);
        current.Position() == if Collides(grid, rows, cols, moved) then old(current.Position()) else moved
      ensures current.colorIndex == old(current.colorIndex)
    {
      current.x := current.x + dx;
      var collides := CheckCollision();
      if collides {
        current.x := current.x - dx;
      }
    }

    /** Moves the falling piece one row down when that row is free; otherwise leaves it where
        it is and locks it (the new next piece gets `shape` and `color`). */
    method MoveDown(shape: int, color: int)
      requires Valid() && ValidShape(shape) && ValidColor(color)
      requires Collides(grid, rows, cols, current.Position().(y := current.y + 1)) ==>
                 InBounds(rows, cols, current.Position())
      modifies this, current
      ensures Valid()
      ensures var below := old(current.Position()).(y := old(current.y) + 1);
        if !Collides(old(grid), rows, cols, below) then
          && current == old(current) && next == old(next)
          && current.Position() == below && current.colorIndex == old(current.colorIndex)
          && grid == old(grid) && score == old(score) && isActive == old(isActive)
        else
          var stamped := Stamp(old(grid), old(current.Position()), old(current.colorIndex));
          && old(current).Position() == old(current.Position())
          && grid == Cleared(stamped, cols)
          && score == old(score) + FullCount(stamped) * FullCount(stamped)
          && current == old(next)
          && fresh(next) && next.Position() == Pose(shape, 0, SPAWN_X, SPAWN_Y) && next.colorIndex == color
          && isActive == (old(isActive) && !Collides(grid, rows, cols, current.Position()))
    {
      current.y := current.y + 1;
      var collides := CheckCollision();
      if collides {
        current.y := current.y - 1;
        LockPiece(shape, color);
      }
    }

    /** Moves the falling piece down while it is free, steps back one row and locks it there
        (the new next piece gets `shape` and `color`). */
    method HardDrop(shape: int, color: int)
      requires Valid() && ValidShape(shape) && ValidColor(color)
      requires Collides(grid, rows, cols, current.Position()) ==>
                 InBounds(rows, cols, current.Position().(y := current.y - 1))
      modifies this, current
      ensures Valid()
      ensures var landing := DropRow(old(grid), rows, cols, old(current.Position()));
        var stamped := Stamp(old(grid), old(current.Position()).(y := landing), old(current.colorIndex));
        && old(current).Position() == old(current.Position()).(y := landing)
        && grid == Cleared(stamped, cols)
        && score == old(score) + FullCount(stamped) * FullCount(stamped)
      ensures current == old(next)
      ensures fresh(next) && next.Position() == Pose(shape, 0, SPAWN_X, SPAWN_Y) && next.colorIndex == color
      ensures isActive == (old(isActive) && !Collides(grid, rows, cols, current.Position()))
    {
      ghost var start := current.Position();
      var collides := CheckCollision();
      while !collides
        invariant Valid()
        invariant current.Position() == start.(y := current.y) && current.y >= start.y
        invariant current.colorIndex == old(current.colorIndex)
        invariant collides == Collides(grid, rows, cols, current.Position())
        invariant FreeBetween(grid, rows, cols, start, start.y, current.y)
        modifies current
        decreases rows - current.y
      {
        FreeAboveFloor(grid, rows, cols, current.Position());
        FreeBetweenExtend(grid, rows, cols, start, start.y, current.y);
        current.y := current.y + 1;
        collides := CheckCollision();
      }
      DropRowAtFirstCollision(grid, rows, cols, start, current.y);
      if current.y > start.y {
        FreeFits(grid, rows, cols, start.(y := current.y - 1));
      }
      current.y := current.y - 1;
      ghost var landed := current.Position();
      ghost var g0, color0 := grid, current.colorIndex;
      assert landed == start.(y := DropRow(old(grid), rows, cols, start));
      assert g0 == old(grid) && color0 == old(current.colorIndex);
      LockPiece(shape, color);
      assert grid == Cleared(Stamp(g0, landed, color0), cols);
    }
  }
}
