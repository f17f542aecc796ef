/** Worked cases on the 20-row, 10-column board that the game creates. */
module Scenarios {
  import opened Shapes
  import opened Board

  /** The O piece occupies the middle two cells of the top two rows of its box. */
  lemma OShapeCells(i: int, j: int)
    ensures Occupies(O_SHAPE, 0, i, j) <==> 0 <= i <= 1 && 1 <= j <= 2
  {
    assert Layout(O_SHAPE, 0) == [1, 2, 5, 6];
  }

  /** An O piece spawned at column 3 on an empty board hard-drops to the floor: it locks
      with its origin on row 18, so that its cells fill rows 18-19, columns 4-5. */
  lemma ODropsToFloor()
    ensures DropRow(EmptyRows(20, 10), 20, 10, Pose(O_SHAPE, 0, 3, 0)) == 18
  {
    var g, p := EmptyRows(20, 10), Pose(O_SHAPE, 0, 3, 0);
    forall y | 0 <= y < 19
      ensures !Collides(g, 20, 10, p.(y := y))
    {
      forall i, j | Occupies(O_SHAPE, 0, i, j)
        ensures !Blocked(g, 20, 10, y + i, 3 + j)
      {
        OShapeCells(i, j);
        assert g[y + i] == EmptyRow(10);
      }
    }
    OShapeCells(1, 1);
    assert Blocked(g, 20, 10, 20, 4);
    DropRowAtFirstCollision(g, 20, 10, p, 19);
  }
}
