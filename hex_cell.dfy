/** One cell of the hexagonal flow field. */
module HexCells {
  import opened HexMath
  import opened FlowFieldSpec
  import opened Vectors

  /**
   * A grid cell. Its coordinate and centre never change after construction;
   * the cost, the chosen direction, the obstacle flag and the neighbour list
   * are written by the grid and flow-field passes.
   */
  class HexCell {
    const coord: Coord
    const position: Vec3
    var cost: int
    var bestDirection: Dir
    var isObstacle: bool
    var neighbors: seq<HexCell>

    /** A fresh cell: not reached (cost int.MaxValue), no direction, passable, no neighbours. */
    constructor (coord: Coord, position: Vec3)
      ensures this.coord == coord && this.position == position
      ensures cost == IntMaxValue && bestDirection == Zero && !isObstacle && neighbors == []
    {
      this.coord := coord;
      this.position := position;
      cost := IntMaxValue;
      bestDirection := Zero;
      isObstacle := false;
      neighbors := [];
    }
  }
}
