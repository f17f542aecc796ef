/** A falling piece: a shape family, a rotation index, a colour and the origin of its 4×4 box. */
module Pieces {
  import opened Shapes

  class Tetromino {
    var x: int
    var y: int
    var shapeIndex: int
    var colorIndex: int
    var rotation: int

    ghost predicate Valid()
      reads this
    {
      ValidShape(shapeIndex) && ValidColor(colorIndex) && ValidRotation(shapeIndex, rotation)
    }

    /** The piece's shape, rotation and origin as a value. */
    function Position(): Pose
      reads this
    {
      Pose(shapeIndex, rotation, x, y)
    }

    /** A new piece at (x, y) in its first layout; the shape and colour, drawn at random
        by the game, are parameters here. */
    constructor (x: int, y: int, shapeIndex: int, colorIndex: int)
      requires ValidShape(shapeIndex) && ValidColor(colorIndex)
      ensures Valid()
      ensures Position() == Pose(shapeIndex, 0, x, y) && this.colorIndex == colorIndex
    {
      this.x := x;
      this.y := y;
      this.shapeIndex := shapeIndex;
      this.colorIndex := colorIndex;
      this.rotation := 0;
    }

    /** The cell indices of the current layout: four distinct cells of the box, and box
        cell (i, j) is occupied exactly when `i * 4 + j` is among them. */
    function GetBlocks(): (blocks: seq<int>)
      reads this
      requires Valid()
      ensures WellFormedLayout(blocks)
      ensures forall i, j :: 0 <= i < 4 && 0 <= j < 4 ==>
                (i * 4 + j in blocks <==> Occupies(shapeIndex, rotation, i, j))
    {
      Layout(shapeIndex, rotation)
    }

    /** Steps to the next layout of the family, cyclically; no collision test is made. */
    method Rotate()
      requires Valid()
      modifies this
      ensures Valid()
      ensures shapeIndex == old(shapeIndex) && colorIndex == old(colorIndex)
      ensures x == old(x) && y == old(y)
      ensures rotation == NextRotation(shapeIndex, old(rotation))
    {
      rotation := (rotation + 1) % |SHAPES[shapeIndex]|;
    }
  }
}
