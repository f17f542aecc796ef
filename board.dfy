/** The playfield as a value: a rows × cols matrix of colour indices (0 = empty, row 0 on top),
    and the functions that specify collision, locking, row clearing and dropping. */
module Board {
  import opened Shapes

  type Grid = seq<seq<int>>

  /** `rows` rows of `cols` cells, each cell an index into the palette. */
  predicate WellFormed(g: Grid, rows: int, cols: int) {
    && |g| == rows
    && forall r :: 0 <= r < rows ==>
         |g[r]| == cols && forall c :: 0 <= c < cols ==> 0 <= g[r][c] < COLOR_COUNT
  }

  function EmptyRow(cols: nat): (row: seq<int>)
    ensures |row| == cols
  {
    seq(cols, _ => 0)
  }

  function EmptyRows(k: nat, cols: nat): (g: Grid)
    ensures WellFormed(g, k, cols)
  {
    seq(k, _ => EmptyRow(cols))
  }

  // ----- collision -------------------------------------------------------------------------

  /** A piece cell at (row, col) is illegal: below the floor, beside the walls, or on a locked
      cell. The grid is read only once the other three tests have failed. */
  predicate Blocked(g: Grid, rows: int, cols: int, row: int, col: int)
    requires WellFormed(g, rows, cols) && row >= 0
  {
    row >= rows || col < 0 || col >= cols || g[row][col] > 0
  }

  /** Some occupied cell of the piece at pose `p` is illegal. */
  ghost predicate Collides(g: Grid, rows: int, cols: int, p: Pose)
    requires WellFormed(g, rows, cols) && ValidPose(p) && p.y >= 0
  {
    exists i, j :: Occupies(p.shape, p.rotation, i, j) && Blocked(g, rows, cols, p.y + i, p.x + j)
  }

  /** Every occupied cell of the piece at pose `p` lies on the grid. */
  ghost predicate InBounds(rows: int, cols: int, p: Pose)
    requires ValidPose(p)
  {
    forall i, j :: Occupies(p.shape, p.rotation, i, j) ==> 0 <= p.y + i < rows && 0 <= p.x + j < cols
  }

  /** A collision-free piece lies on the grid, over empty cells only. */
  lemma FreeFits(g: Grid, rows: int, cols: int, p: Pose)
    requires WellFormed(g, rows, cols) && ValidPose(p) && p.y >= 0
    requires !Collides(g, rows, cols, p)
    ensures InBounds(rows, cols, p)
    ensures forall i, j :: Occupies(p.shape, p.rotation, i, j) ==> g[p.y + i][p.x + j] == 0
  {
  }

  /** A collision-free piece has its origin above the floor, since every layout occupies a cell. */
  lemma FreeAboveFloor(g: Grid, rows: int, cols: int, p: Pose)
    requires WellFormed(g, rows, cols) && ValidPose(p) && p.y >= 0
    requires !Collides(g, rows, cols, p)
    ensures p.y < rows
  {
    LayoutIndexOccupies(p.shape, p.rotation, 0);
    var b := Layout(p.shape, p.rotation)[0];
    assert !Blocked(g, rows, cols, p.y + b / 4, p.x + b % 4);
  }

  // ----- hard drop -------------------------------------------------------------------------

  /** The row at which a hard drop from pose `p` locks the piece: the piece moves down while
      it is free and is then put back one row. */
  ghost function DropRow(g: Grid, rows: int, cols: int, p: Pose): (r: int)
    requires WellFormed(g, rows, cols) && ValidPose(p) && p.y >= 0
    ensures r >= p.y - 1
    decreases rows - p.y
  {
    if Collides(g, rows, cols, p) then p.y - 1
    else
      FreeAboveFloor(g, rows, cols, p);
      DropRow(g, rows, cols, p.(y := p.y + 1))
  }

  /** The piece at pose `p` is free at every row from `lo` up to, not including, `hi`. */
  ghost predicate FreeBetween(g: Grid, rows: int, cols: int, p: Pose, lo: int, hi: int)
    requires WellFormed(g, rows, cols) && ValidPose(p) && lo >= 0
  {
    forall y :: lo <= y < hi ==> !Collides(g, rows, cols, p.(y := y))
  }

  lemma FreeBetweenExtend(g: Grid, rows: int, cols: int, p: Pose, lo: int, hi: int)
    requires WellFormed(g, rows, cols) && ValidPose(p) && 0 <= lo <= hi
    requires FreeBetween(g, rows, cols, p, lo, hi) && !Collides(g, rows, cols, p.(y := hi))
    ensures FreeBetween(g, rows, cols, p, lo, hi + 1)
  {
  }

  /** The hard drop stops one row above the first row, at or below the start, where the piece
      collides: the piece is free at every row from the start down to the landing row and
      collides one row lower. */
  lemma {:induction false} DropRowLands(g: Grid, rows: int, cols: int, p: Pose)
    requires WellFormed(g, rows, cols) && ValidPose(p) && p.y >= 0
    ensures var r := DropRow(g, rows, cols, p);
      FreeBetween(g, rows, cols, p, p.y, r + 1) && Collides(g, rows, cols, p.(y := r + 1))
    decreases rows - p.y
  {
    var r := DropRow(g, rows, cols, p);
    if Collides(g, rows, cols, p) {
      assert p.(y := r + 1) == p;
    } else {
      FreeAboveFloor(g, rows, cols, p);
      var q := p.(y := p.y + 1);
      DropRowLands(g, rows, cols, q);
      assert q.(y := r + 1) == p.(y := r + 1);
      forall y | p.y <= y < r + 1
        ensures !Collides(g, rows, cols, p.(y := y))
      {
        if y > p.y {
          assert q.(y := y) == p.(y := y);
        } else {
          assert p.(y := y) == p;
        }
      }
    }
  }

  /** Conversely, the first colliding row at or below the start determines the landing row. */
  lemma {:induction false} DropRowAtFirstCollision(g: Grid, rows: int, cols: int, p: Pose, y: int)
    requires WellFormed(g, rows, cols) && ValidPose(p) && 0 <= p.y <= y
    requires FreeBetween(g, rows, cols, p, p.y, y) && Collides(g, rows, cols, p.(y := y))
    ensures DropRow(g, rows, cols, p) == y - 1
    decreases y - p.y
  {
    if y == p.y {
      assert p.(y := y) == p;
    } else {
      assert p.(y := p.y) == p;
      var q := p.(y := p.y + 1);
      assert q.(y := y) == p.(y := y);
      forall y' | q.y <= y' < y
        ensures !Collides(g, rows, cols, q.(y := y'))
      {
        assert q.(y := y') == p.(y := y');
      }
      DropRowAtFirstCollision(g, rows, cols, q, y);
    }
  }

  /** From a collision-free start, the hard drop locks the piece in a collision-free, hence
      on-grid, position no higher than where it started. */
  lemma DropFromFreeStart(g: Grid, rows: int, cols: int, p: Pose)
    requires WellFormed(g, rows, cols) && ValidPose(p) && p.y >= 0
    requires !Collides(g, rows, cols, p)
    ensures var r := DropRow(g, rows, cols, p);
      r >= p.y && !Collides(g, rows, cols, p.(y := r)) && InBounds(rows, cols, p.(y := r))
  {
    var r := DropRow(g, rows, cols, p);
    DropRowLands(g, rows, cols, p);
    assert p.(y := p.y) == p;
    FreeFits(g, rows, cols, p.(y := r));
  }

  // ----- locking ---------------------------------------------------------------------------

  /** The grid with every cell covered by the piece at pose `p` set to `color`. */
  function Stamp(g: Grid, p: Pose, color: int): Grid
    requires ValidPose(p)
  {
    seq(|g|, r requires 0 <= r < |g| =>
      seq(|g[r]|, c requires 0 <= c < |g[r]| => if Covers(p, r, c) then color else g[r][c]))
  }

  /** Stamping a piece colour keeps the grid's dimensions and its cell range. */
  lemma StampWellFormed(g: Grid, rows: int, cols: int, p: Pose, color: int)
    requires WellFormed(g, rows, cols) && ValidPose(p) && ValidColor(color)
    ensures WellFormed(Stamp(g, p, color), rows, cols)
  {
  }

  // ----- row clearing ----------------------------------------------------------------------

  /** Every cell of the row is non-zero (Python's `all`, true of an empty row). */
  predicate Full(row: seq<int>) {
    forall c :: 0 <= c < |row| ==> row[c] != 0
  }

  /** Number of full rows. */
  function FullCount(g: Grid): (k: nat)
    ensures k <= |g|
  {
    if |g| == 0 then 0
    else FullCount(g[..|g| - 1]) + (if Full(g[|g| - 1]) then 1 else 0)
  }

  /** The rows that are not full, in their original order. */
  function Survivors(g: Grid): (s: Grid)
    ensures |s| + FullCount(g) == |g|
    ensures forall k :: 0 <= k < |s| ==> !Full(s[k]) && s[k] in g
  {
    if |g| == 0 then []
    else Survivors(g[..|g| - 1]) + (if Full(g[|g| - 1]) then [] else [g[|g| - 1]])
  }

  /** The grid after clear_rows: one empty row on top for every full row removed, then the
      remaining rows in their original order. */
  function Cleared(g: Grid, cols: nat): Grid {
    EmptyRows(FullCount(g), cols) + Survivors(g)
  }

  lemma {:induction false} FullCountAppend(a: Grid, b: Grid)
    ensures FullCount(a + b) == FullCount(a) + FullCount(b)
    decreases |b|
  {
    if |b| > 0 {
      var b' := b[..|b| - 1];
      assert (a + b)[..|a + b| - 1] == a + b';
      FullCountAppend(a, b');
    } else {
      assert a + b == a;
    }
  }

  lemma {:induction false} SurvivorsAppend(a: Grid, b: Grid)
    ensures Survivors(a + b) == Survivors(a) + Survivors(b)
    decreases |b|
  {
    if |b| > 0 {
      var b' := b[..|b| - 1];
      assert (a + b)[..|a + b| - 1] == a + b';
      SurvivorsAppend(a, b');
    } else {
      assert a + b == a;
    }
  }

  /** One step of the top-to-bottom scan of clear_rows. If the first `i` rows have been
      scanned, the working grid holds k empty rows, the survivors among those `i` rows and
      the unscanned rows; its row `i` is the original row `i`, and deleting it when full and
      inserting an empty row on top gives the same shape for `i + 1`. */
  lemma ScanStep(g: Grid, i: nat, cols: nat)
    requires i < |g|
    ensures var before := EmptyRows(FullCount(g[..i]), cols) + Survivors(g[..i]) + g[i..];
      && before[i] == g[i]
      && FullCount(g[..i + 1]) == FullCount(g[..i]) + (if Full(g[i]) then 1 else 0)
      && EmptyRows(FullCount(g[..i + 1]), cols) + Survivors(g[..i + 1]) + g[i + 1..]
         == if Full(g[i]) then [EmptyRow(cols)] + (before[..i] + before[i + 1..]) else before
  {
    var k := FullCount(g[..i]);
    var before := EmptyRows(k, cols) + Survivors(g[..i]) + g[i..];
    assert g[..i + 1][..i] == g[..i];
    assert g[i..] == [g[i]] + g[i + 1..];
    assert |EmptyRows(k, cols) + Survivors(g[..i])| == i;
    if Full(g[i]) {
      assert EmptyRows(k + 1, cols) == [EmptyRow(cols)] + EmptyRows(k, cols);
      assert before[..i] + before[i + 1..] == EmptyRows(k, cols) + Survivors(g[..i]) + g[i + 1..];
    }
  }

  /** Once every row has been scanned, the working grid is the cleared grid. */
  lemma ScanDone(g: Grid, cols: nat)
    ensures FullCount(g[..|g|]) == FullCount(g)
    ensures EmptyRows(FullCount(g[..|g|]), cols) + Survivors(g[..|g|]) + g[|g|..] == Cleared(g, cols)
  {
    assert g[..|g|] == g;
    assert g[|g|..] == [];
  }

  /** Clearing keeps `rows` rows of `cols` cells each and the cell range. */
  lemma ClearedWellFormed(g: Grid, rows: int, cols: nat)
    requires WellFormed(g, rows, cols)
    ensures WellFormed(Cleared(g, cols), rows, cols)
  {
    var s := Survivors(g);
    forall k | 0 <= k < |s|
      ensures |s[k]| == cols && forall c :: 0 <= c < cols ==> 0 <= s[k][c] < COLOR_COUNT
    {
      assert s[k] in g;
    }
  }

  lemma {:induction false} EmptyRowsNotFull(k: nat, cols: nat)
    requires cols > 0
    ensures FullCount(EmptyRows(k, cols)) == 0
  {
    if k > 0 {
      assert EmptyRows(k, cols)[..k - 1] == EmptyRows(k - 1, cols);
      assert !Full(EmptyRows(k, cols)[k - 1]) by {
        assert EmptyRows(k, cols)[k - 1][0] == 0;
      }
      EmptyRowsNotFull(k - 1, cols);
    }
  }

  lemma {:induction false} NoFullSurvivors(g: Grid)
    ensures FullCount(Survivors(g)) == 0
    decreases |g|
  {
    if |g| > 0 {
      var last := g[|g| - 1];
      NoFullSurvivors(g[..|g| - 1]);
      FullCountAppend(Survivors(g[..|g| - 1]), if Full(last) then [] else [last]);
      if !Full(last) {
        assert [last][..0] == [];
      }
    }
  }

  /** With at least one column, no full row is left after clearing. */
  lemma NoFullRowAfterClear(g: Grid, cols: nat)
    requires cols > 0
    ensures FullCount(Cleared(g, cols)) == 0
  {
    FullCountAppend(EmptyRows(FullCount(g), cols), Survivors(g));
    EmptyRowsNotFull(FullCount(g), cols);
    NoFullSurvivors(g);
  }

  lemma {:induction false} SurvivorsOfNoFull(g: Grid)
    requires FullCount(g) == 0
    ensures Survivors(g) == g
    decreases |g|
  {
    if |g| > 0 {
      SurvivorsOfNoFull(g[..|g| - 1]);
      assert g[..|g| - 1] + [g[|g| - 1]] == g;
    }
  }

  /** With zero columns every row is empty and so full: `k` such rows are all counted and
      none survives. */
  lemma {:induction false} ZeroColumnRowsAllFull(k: nat)
    ensures FullCount(EmptyRows(k, 0)) == k && Survivors(EmptyRows(k, 0)) == []
  {
    if k > 0 {
      assert EmptyRows(k, 0)[..k - 1] == EmptyRows(k - 1, 0);
      ZeroColumnRowsAllFull(k - 1);
    }
  }

  /** With zero columns, clearing a cleared grid finds the empty rows on top full again and
      replaces them by as many empty rows; the survivors stay. */
  lemma ClearIdempotentNoColumns(g: Grid)
    ensures Cleared(Cleared(g, 0), 0) == Cleared(g, 0)
  {
    var k, s := FullCount(g), Survivors(g);
    var top := EmptyRows(k, 0);
    var once := Cleared(g, 0);
    assert once == top + s;
    ZeroColumnRowsAllFull(k);
    NoFullSurvivors(g);
    SurvivorsOfNoFull(s);
    FullCountAppend(top, s);
    SurvivorsAppend(top, s);
    assert FullCount(once) == k;
    assert Survivors(once) == s by {
      assert Survivors(once) == [] + s;
    }
  }

  /** Clearing a cleared grid changes nothing, for any number of columns. */
  lemma ClearIdempotent(g: Grid, cols: nat)
    ensures Cleared(Cleared(g, cols), cols) == Cleared(g, cols)
  {
    if cols > 0 {
      NoFullRowAfterClear(g, cols);
      SurvivorsOfNoFull(Cleared(g, cols));
      assert EmptyRows(0, cols) == [];
    } else {
      ClearIdempotentNoColumns(g);
    }
  }

  /** Gravity: a row that is not full moves down by the number of full rows beneath it. */
  lemma RowShift(g: Grid, cols: nat, r: int)
    requires 0 <= r < |g| && !Full(g[r])
    ensures var below := FullCount(g[r + 1..]);
      r + below < |g| && Cleared(g, cols)[r + below] == g[r]
  {
    var upTo, below := g[..r + 1], g[r + 1..];
    assert g == upTo + below;
    FullCountAppend(upTo, below);
    SurvivorsAppend(upTo, below);
    assert upTo[..r] == g[..r];
    var s := Survivors(upTo);
    assert s == Survivors(g[..r]) + [g[r]];
    var k := FullCount(g);
    assert Cleared(g, cols) == EmptyRows(k, cols) + s + Survivors(below);
    assert (EmptyRows(k, cols) + s)[k + |s| - 1] == g[r];
  }

  /** A cell written by a lock stays with its row: unless that row was completed, it is found
      after the clear, with the lock colour, as many rows lower as there were full rows below it. */
  lemma LockedCellPersists(g: Grid, rows: int, cols: nat, p: Pose, color: int, r: int, c: int)
    requires WellFormed(g, rows, cols) && ValidPose(p)
    requires 0 <= r < rows && 0 <= c < cols && Covers(p, r, c)
    requires !Full(Stamp(g, p, color)[r])
    ensures var s := Stamp(g, p, color); var r' := r + FullCount(s[r + 1..]);
      r <= r' < rows && Cleared(s, cols)[r'][c] == color
  {
    RowShift(Stamp(g, p, color), cols, r);
  }
}
