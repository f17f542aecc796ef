/** The static tetromino table and the geometry of a piece inside its 4×4 box.
    A layout lists the occupied cells of the box as `row * 4 + col`. */
module Shapes {

  /** Number of palette entries; entry 0 is the empty cell, so piece colours are 1..6. */
  const COLOR_COUNT: int := 7

  /** Rotation layouts of the seven families, in the order I, Z, S, L, J, T, O. */
  const SHAPES: seq<seq<seq<int>>> := [
    [[1, 5, 9, 13], [4, 5, 6, 7]],
    [[4, 5, 9, 10], [2, 6, 5, 9]],
    [[6, 7, 9, 10], [1, 5, 6, 10]],
    [[1, 2, 5, 9], [0, 4, 5, 6], [1, 5, 9, 8], [4, 5, 6, 10]],
    [[1, 2, 6, 10], [5, 6, 7, 9], [2, 6, 10, 11], [3, 5, 6, 7]],
    [[1, 4, 5, 6], [1, 4, 5, 9], [4, 5, 6, 9], [1, 5, 6, 9]],
    [[1, 2, 5, 6]]
  ]

  /** Index of the O family, the only one with a single layout. */
  const O_SHAPE: int := 6

  predicate ValidShape(shape: int) {
    0 <= shape < |SHAPES|
  }

  predicate ValidColor(color: int) {
    1 <= color < COLOR_COUNT
  }

  function RotationCount(shape: int): (n: nat)
    requires ValidShape(shape)
    ensures n == 1 || n == 2 || n == 4
    ensures n == 1 <==> shape == O_SHAPE
  {
    |SHAPES[shape]|
  }

  predicate ValidRotation(shape: int, rotation: int)
    requires ValidShape(shape)
  {
    0 <= rotation < RotationCount(shape)
  }

  /** Four distinct cell indices, each inside the 4×4 box. */
  predicate WellFormedLayout(blocks: seq<int>) {
    && |blocks| == 4
    && (forall k :: 0 <= k < 4 ==> 0 <= blocks[k] < 16)
    && (forall k, l :: 0 <= k < l < 4 ==> blocks[k] != blocks[l])
  }

  lemma LayoutWellFormed(shape: int, rotation: int)
    requires ValidShape(shape) && ValidRotation(shape, rotation)
    ensures WellFormedLayout(SHAPES[shape][rotation])
  {
  }

  /** The layout of `shape` at `rotation` (Tetromino.get_blocks). */
  function Layout(shape: int, rotation: int): (blocks: seq<int>)
    requires ValidShape(shape) && ValidRotation(shape, rotation)
    ensures WellFormedLayout(blocks)
  {
    LayoutWellFormed(shape, rotation);
    SHAPES[shape][rotation]
  }

  /** The rotation index that Tetromino.rotate moves to: the next layout, cyclically. */
  function NextRotation(shape: int, rotation: int): (next: int)
    requires ValidShape(shape) && ValidRotation(shape, rotation)
    ensures ValidRotation(shape, next)
    ensures next != rotation <==> RotationCount(shape) > 1
  {
    (rotation + 1) % RotationCount(shape)
  }

  /** The rotation index after `n` successive rotations. */
  function Rotated(shape: int, rotation: int, n: nat): (r: int)
    requires ValidShape(shape) && ValidRotation(shape, rotation)
    ensures ValidRotation(shape, r)
  {
    if n == 0 then rotation else NextRotation(shape, Rotated(shape, rotation, n - 1))
  }

  /** Adding one to a residue and reducing again is reducing the successor. */
  lemma ModSuccessor(a: nat, count: int)
    requires count == 1 || count == 2 || count == 4
    ensures (a % count + 1) % count == (a + 1) % count
  {
    var q, m := a / count, a % count;
    assert a == q * count + m;
    if m + 1 < count {
      assert a + 1 == q * count + (m + 1);
    } else {
      assert a + 1 == (q + 1) * count;
    }
  }

  /** `n` rotations advance the index by `n` modulo the number of layouts. */
  lemma {:induction false} RotatedIsModular(shape: int, rotation: int, n: nat)
    requires ValidShape(shape) && ValidRotation(shape, rotation)
    ensures Rotated(shape, rotation, n) == (rotation + n) % RotationCount(shape)
  {
    if n > 0 {
      RotatedIsModular(shape, rotation, n - 1);
      ModSuccessor(rotation + n - 1, RotationCount(shape));
    }
  }

  /** Rotating a piece once per layout brings it back to its starting layout. */
  lemma RotationCycle(shape: int, rotation: int)
    requires ValidShape(shape) && ValidRotation(shape, rotation)
    ensures Rotated(shape, rotation, RotationCount(shape)) == rotation
  {
    RotatedIsModular(shape, rotation, RotationCount(shape));
    var count := RotationCount(shape);
    if count == 1 {
    } else if count == 2 {
    } else {
    }
  }

  /** The O piece keeps rotation index 0 however often it is rotated. */
  lemma OShapeNeverTurns(n: nat)
    ensures Rotated(O_SHAPE, 0, n) == 0
  {
    RotatedIsModular(O_SHAPE, 0, n);
  }

  /** Shape family, rotation index and origin (top-left corner of the 4×4 box) of a piece. */
  datatype Pose = Pose(shape: int, rotation: int, x: int, y: int)

  predicate ValidPose(p: Pose) {
    ValidShape(p.shape) && ValidRotation(p.shape, p.rotation)
  }

  /** Box cell (i, j) belongs to the layout: the membership test `i * 4 + j in get_blocks()`. */
  predicate Occupies(shape: int, rotation: int, i: int, j: int)
    requires ValidShape(shape) && ValidRotation(shape, rotation)
  {
    0 <= i < 4 && 0 <= j < 4 && i * 4 + j in Layout(shape, rotation)
  }

  /** Grid cell (row, col) is one of the four cells of the piece at pose `p`. */
  predicate Covers(p: Pose, row: int, col: int)
    requires ValidPose(p)
  {
    Occupies(p.shape, p.rotation, row - p.y, col - p.x)
  }

  /** Every index of a layout names an occupied box cell, so every layout occupies a cell. */
  lemma LayoutIndexOccupies(shape: int, rotation: int, k: int)
    requires ValidShape(shape) && ValidRotation(shape, rotation)
    requires 0 <= k < 4
    ensures var b := Layout(shape, rotation)[k]; Occupies(shape, rotation, b / 4, b % 4)
  {
    var b := Layout(shape, rotation)[k];
    assert b / 4 * 4 + b % 4 == b;
  }
}
