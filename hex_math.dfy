/**
 * Integer geometry of the hexagonal grid: axial coordinates, the six direction
 * offsets, the hexagon of radius R, neighbour enumeration and the cube-rounding
 * correction used when a world position is turned into a coordinate.
 */
module HexMath {

  /** An axial hex coordinate (a Vector2Int: x is q, y is r). */
  datatype Coord = Coord(q: int, r: int)

  function Plus(a: Coord, b: Coord): Coord {
    Coord(a.q + b.q, a.r + b.r)
  }

  function Negate(a: Coord): Coord {
    Coord(-a.q, -a.r)
  }

  /** The offset that leads from `from` to `to`. */
  function Offset(from: Coord, to: Coord): Coord {
    Coord(to.q - from.q, to.r - from.r)
  }

  /** The six direction offsets, in the order the grid wires neighbours: E, NE, NW, W, SW, SE. */
  const Directions: seq<Coord> :=
    [Coord(1, 0), Coord(0, 1), Coord(-1, 1), Coord(-1, 0), Coord(0, -1), Coord(1, -1)]

  /** `d` is one of the entries of the direction table. */
  predicate IsDirection(d: Coord) {
    || d == Coord(1, 0) || d == Coord(0, 1) || d == Coord(-1, 1)
    || d == Coord(-1, 0) || d == Coord(0, -1) || d == Coord(1, -1)
  }

  lemma IsDirectionMeansInTable(d: Coord)
    ensures IsDirection(d) <==> d in Directions
  {
  }

  /** `b` is one of the six neighbours of `a` in the unbounded lattice. */
  predicate Adjacent(a: Coord, b: Coord) {
    IsDirection(Offset(a, b))
  }

  lemma DirectionsClosedUnderNegation(d: Coord)
    requires IsDirection(d)
    ensures IsDirection(Negate(d))
  {
  }

  lemma AdjacentSymmetric(a: Coord, b: Coord)
    ensures Adjacent(a, b) <==> Adjacent(b, a)
  {
    assert Offset(b, a) == Negate(Offset(a, b));
    assert Offset(a, b) == Negate(Offset(b, a));
  }

  lemma AdjacentIrreflexive(a: Coord)
    ensures !Adjacent(a, a)
  {
  }

  lemma StepIsAdjacent(p: Coord, i: nat)
    requires i < |Directions|
    ensures Adjacent(p, Plus(p, Directions[i]))
  {
    assert Offset(p, Plus(p, Directions[i])) == Directions[i];
    IsDirectionMeansInTable(Directions[i]);
  }

  lemma AdjacentIsStep(p: Coord, n: Coord) returns (i: nat)
    requires Adjacent(p, n)
    ensures i < |Directions| && n == Plus(p, Directions[i])
  {
    IsDirectionMeansInTable(Offset(p, n));
    i :| 0 <= i < |Directions| && Directions[i] == Offset(p, n);
  }

  /**
   * The coordinates `p + Directions[i]`, for i < k in table order, that belong to `keys`:
   * the first k steps of the neighbour-wiring loop.
   */
  function NeighborsUpTo(keys: set<Coord>, p: Coord, k: nat): (ns: seq<Coord>)
    requires k <= |Directions|
    ensures |ns| <= k
    ensures forall j :: 0 <= j < |ns| ==> ns[j] in keys && Adjacent(p, ns[j])
    ensures forall i :: 0 <= i < k && Plus(p, Directions[i]) in keys ==> Plus(p, Directions[i]) in ns
    ensures forall j :: 0 <= j < |ns| ==> exists i :: 0 <= i < k && ns[j] == Plus(p, Directions[i])
  {
    if k == 0 then []
    else
      var n := Plus(p, Directions[k - 1]);
      StepIsAdjacent(p, k - 1);
      NeighborsUpTo(keys, p, k - 1) + (if n in keys then [n] else [])
  }

  /** The neighbours of `p` present in `keys`, in direction-table order. */
  function NeighborCoords(keys: set<Coord>, p: Coord): seq<Coord>
  {
    NeighborsUpTo(keys, p, |Directions|)
  }

  /** Membership in the neighbour list is exactly "in the grid and adjacent". */
  lemma NeighborCoordsMembership(keys: set<Coord>, p: Coord, n: Coord)
    ensures n in NeighborCoords(keys, p) <==> n in keys && Adjacent(p, n)
  {
    if n in keys && Adjacent(p, n) {
      var i := AdjacentIsStep(p, n);
    }
  }

  /** The neighbour relation of a grid is symmetric, because the direction table is closed under negation. */
  lemma NeighborCoordsSymmetric(keys: set<Coord>, p: Coord, n: Coord)
    requires p in keys && n in keys
    ensures n in NeighborCoords(keys, p) <==> p in NeighborCoords(keys, n)
  {
    NeighborCoordsMembership(keys, p, n);
    NeighborCoordsMembership(keys, n, p);
    AdjacentSymmetric(p, n);
  }

  /** A cell's neighbour list has no repeats and at most six entries. */
  lemma {:induction false} NeighborsUpToDistinct(keys: set<Coord>, p: Coord, k: nat)
    requires k <= |Directions|
    ensures forall a, b :: 0 <= a < b < |NeighborsUpTo(keys, p, k)| ==>
              NeighborsUpTo(keys, p, k)[a] != NeighborsUpTo(keys, p, k)[b]
  {
    if k > 0 {
      NeighborsUpToDistinct(keys, p, k - 1);
      var prev := NeighborsUpTo(keys, p, k - 1);
      var n := Plus(p, Directions[k - 1]);
      forall j | 0 <= j < |prev| ensures prev[j] != n {
        var i :| 0 <= i < k - 1 && prev[j] == Plus(p, Directions[i]);
      }
    }
  }

  /** `ns` lists exactly the neighbours of p that belong to `keys`. */
  ghost predicate NeighborList(keys: set<Coord>, p: Coord, ns: seq<Coord>) {
    && (forall j :: 0 <= j < |ns| ==> ns[j] in keys && Adjacent(p, ns[j]))
    && (forall n :: n in keys && Adjacent(p, n) ==> n in ns)
  }

  lemma NeighborListOfGrid(keys: set<Coord>, p: Coord)
    ensures NeighborList(keys, p, NeighborCoords(keys, p))
  {
    forall n | n in keys && Adjacent(p, n) ensures n in NeighborCoords(keys, p) {
      NeighborCoordsMembership(keys, p, n);
    }
  }

  /** With no direction step before i landing in `keys`, nothing is listed before step i. */
  lemma {:induction false} NoNeighborsBefore(keys: set<Coord>, p: Coord, i: nat)
    requires i <= |Directions|
    requires forall j :: 0 <= j < i ==> Plus(p, Directions[j]) !in keys
    ensures NeighborsUpTo(keys, p, i) == []
  {
    if i > 0 {
      NoNeighborsBefore(keys, p, i - 1);
    }
  }

  /** The first listed neighbour is the first direction step, in table order, that lands in `keys`. */
  lemma {:induction false} FirstNeighbor(keys: set<Coord>, p: Coord, i: nat, k: nat)
    requires i < k <= |Directions|
    requires Plus(p, Directions[i]) in keys
    requires forall j :: 0 <= j < i ==> Plus(p, Directions[j]) !in keys
    ensures |NeighborsUpTo(keys, p, k)| > 0 && NeighborsUpTo(keys, p, k)[0] == Plus(p, Directions[i])
  {
    if k == i + 1 {
      NoNeighborsBefore(keys, p, i);
    } else {
      FirstNeighbor(keys, p, i, k - 1);
    }
  }

  /** The axial coordinates of the hexagon of radius `radius` around the origin. */
  predicate InHexagon(radius: int, c: Coord) {
    -radius <= c.q <= radius && -radius <= c.r <= radius && -radius <= c.q + c.r <= radius
  }

  /** The inner loop's bounds for row q: r runs from Max(-R, -q-R) to Min(R, -q+R). */
  function RowStart(radius: int, q: int): int {
    if -radius >= -q - radius then -radius else -q - radius
  }

  function RowEnd(radius: int, q: int): int {
    if radius <= -q + radius then radius else -q + radius
  }

  /** The nested loop over q and r visits exactly the hexagon. */
  lemma RowBoundsMatchHexagon(radius: int, c: Coord)
    ensures InHexagon(radius, c) <==>
              -radius <= c.q <= radius && RowStart(radius, c.q) <= c.r <= RowEnd(radius, c.q)
  {
  }

  // ---- Cube rounding (the integer part of WorldToHexCoord) ----

  datatype Cube = Cube(x: int, y: int, z: int)

  function AbsReal(v: real): real {
    if v < 0.0 then -v else v
  }

  /** Mathf.RoundToInt: the nearest integer, halves going to the even neighbour. */
  function RoundToInt(v: real): (n: int)
    ensures AbsReal(n as real - v) <= 0.5
    ensures AbsReal(n as real - v) == 0.5 ==> n % 2 == 0
  {
    var f := v.Floor;
    var frac := v - f as real;
    if frac < 0.5 then f
    else if frac > 0.5 then f + 1
    else if f % 2 == 0 then f
    else f + 1
  }

  /**
   * Rounds the fractional cube coordinate (x, y, z) and then recomputes the
   * component with the largest rounding error from the other two.
   */
  function CubeRound(x: real, y: real, z: real): (c: Cube)
    // whichever branch fires, the result lies on the plane x + y + z = 0
    ensures c.x + c.y + c.z == 0
    // exactly the recomputed component may differ from the plain rounding, and it
    // is one with the largest rounding error
    ensures var rx, ry, rz := RoundToInt(x), RoundToInt(y), RoundToInt(z);
            var dx, dy, dz := AbsReal(rx as real - x), AbsReal(ry as real - y), AbsReal(rz as real - z);
            || (c.y == ry && c.z == rz && dx >= dy && dx >= dz)
            || (c.x == rx && c.z == rz && dy >= dx && dy >= dz)
            || (c.x == rx && c.y == ry && dz >= dx && dz >= dy)
  {
    var rx, ry, rz := RoundToInt(x), RoundToInt(y), RoundToInt(z);
    var dx, dy, dz := AbsReal(rx as real - x), AbsReal(ry as real - y), AbsReal(rz as real - z);
    if dx > dy && dx > dz then Cube(-ry - rz, ry, rz)
    else if dy > dz then Cube(rx, -rx - rz, rz)
    else Cube(rx, ry, -rx - ry)
  }

  /** A value within less than one half of an integer rounds to that integer. */
  lemma RoundToIntNear(v: real, n: int)
    requires AbsReal(n as real - v) < 0.5
    ensures RoundToInt(v) == n
  {
    var m := RoundToInt(v);
    assert AbsReal(m as real - n as real) < 1.0;
  }

  /** On the plane x + y + z = 0, every corrected component lies within one unit of its fractional value. */
  lemma CubeRoundNear(x: real, y: real, z: real)
    requires x + y + z == 0.0
    ensures var c := CubeRound(x, y, z);
            AbsReal(c.x as real - x) <= 1.0 && AbsReal(c.y as real - y) <= 1.0 && AbsReal(c.z as real - z) <= 1.0
  {
    var rx, ry, rz := RoundToInt(x), RoundToInt(y), RoundToInt(z);
    var c := CubeRound(x, y, z);
    assert AbsReal(rx as real - x) <= 0.5 && AbsReal(ry as real - y) <= 0.5 && AbsReal(rz as real - z) <= 0.5;
    assert (c.x - rx) as real == -((rx as real - x) + (ry as real - y) + (rz as real - z)) || c.x == rx;
    assert (c.y - ry) as real == -((rx as real - x) + (ry as real - y) + (rz as real - z)) || c.y == ry;
    assert (c.z - rz) as real == -((rx as real - x) + (ry as real - y) + (rz as real - z)) || c.z == rz;
  }

  /**
   * The rounding half of WorldToHexCoord: `q` and `r` are the fractional axial
   * coordinates, the cube coordinate is (q, -q - r, r), and the result keeps x and z.
   */
  function AxialRound(q: real, r: real): (c: Coord)
    ensures AbsReal(c.q as real - q) <= 1.0 && AbsReal(c.r as real - r) <= 1.0
  {
    var cube := CubeRound(q, -q - r, r);
    CubeRoundNear(q, -q - r, r);
    Coord(cube.x, cube.z)
  }

  /** Fractional coordinates within one half of a cell's three cube components round to that cell. */
  lemma AxialRoundNear(q: real, r: real, c: Coord)
    requires AbsReal(c.q as real - q) < 0.5 && AbsReal(c.r as real - r) < 0.5
    requires AbsReal((-c.q - c.r) as real - (-q - r)) < 0.5
    ensures AxialRound(q, r) == c
  {
    RoundToIntNear(q, c.q);
    RoundToIntNear(-q - r, -c.q - c.r);
    RoundToIntNear(r, c.r);
  }
}
