/**
 * The hexagonal flow field: a dictionary of cells over the hexagon of radius
 * gridRadius, a breadth-first cost propagation from the target cell and a pass
 * that points every reached cell at its cheapest neighbour.
 */
module HexFlowFields {
  import opened Wrappers
  import opened HexMath
  import opened FlowFieldSpec
  import opened HexCells
  import opened Vectors

  /** Mathf.Sqrt(3), the single-precision value. */
  const Sqrt3: real := 1.73205077648162841796875

  /** The sum of the listed costs: the measure that bounds the propagation loop. */
  ghost function SumCosts(c: map<Coord, int>, s: seq<Coord>): int
    requires forall p :: p in s ==> p in c
  {
    if |s| == 0 then 0 else c[s[0]] + SumCosts(c, s[1..])
  }

  lemma {:induction false} SumCostsNonnegative(c: map<Coord, int>, s: seq<Coord>)
    requires forall p :: p in s ==> p in c && c[p] >= 0
    ensures SumCosts(c, s) >= 0
  {
    if |s| > 0 {
      SumCostsNonnegative(c, s[1..]);
    }
  }

  /** Lowering costs pointwise never raises the sum, and lowering a listed one lowers it. */
  lemma {:induction false} SumCostsShrink(c: map<Coord, int>, c': map<Coord, int>, s: seq<Coord>, v: Coord)
    requires forall p :: p in s ==> p in c && p in c' && c'[p] <= c[p]
    ensures SumCosts(c', s) <= SumCosts(c, s)
    ensures v in s && c'[v] < c[v] ==> SumCosts(c', s) < SumCosts(c, s)
  {
    if |s| > 0 {
      SumCostsShrink(c, c', s[1..], v);
      assert v in s ==> v == s[0] || v in s[1..];
    }
  }

  /** The queue of cells lists the grid cells of the coordinate queue. */
  ghost predicate Mirrors(cells: seq<HexCell>, coords: seq<Coord>, g: map<Coord, HexCell>) {
    |cells| == |coords| && forall k :: 0 <= k < |coords| ==> coords[k] in g && cells[k] == g[coords[k]]
  }

  /** Dequeuing the head of both queues and appending matching tails keeps them in step. */
  lemma MirrorsDequeue(cells: seq<HexCell>, coords: seq<Coord>, more: seq<HexCell>, moreCoords: seq<Coord>,
                       g: map<Coord, HexCell>)
    requires Mirrors(cells, coords, g) && Mirrors(more, moreCoords, g) && |coords| > 0
    ensures Mirrors(cells[1..] + more, coords[1..] + moreCoords, g)
  {
    var a, ac := cells[1..] + more, coords[1..] + moreCoords;
    forall k | 0 <= k < |ac| ensures ac[k] in g && a[k] == g[ac[k]] {
      if k < |coords| - 1 {
        assert ac[k] == coords[k + 1] && a[k] == cells[k + 1];
      } else {
        assert ac[k] == moreCoords[k - |coords| + 1] && a[k] == more[k - |coords| + 1];
      }
    }
  }

  /** The cells of the rows before q, and of row q up to (not including) r. */
  predicate BuiltBefore(radius: int, c: Coord, q: int, r: int) {
    || (-radius <= c.q < q && RowStart(radius, c.q) <= c.r <= RowEnd(radius, c.q))
    || (c.q == q && RowStart(radius, q) <= c.r < r)
  }

  lemma TakeOneMore<T>(s: seq<T>, j: nat)
    requires j < |s|
    ensures s[..j + 1] == s[..j] + [s[j]]
  {
  }

  lemma MirrorsSnoc(cells: seq<HexCell>, coords: seq<Coord>, cell: HexCell, coord: Coord, g: map<Coord, HexCell>)
    requires Mirrors(cells, coords, g) && coord in g && cell == g[coord]
    ensures Mirrors(cells + [cell], coords + [coord], g)
  {
  }

  /** Coordinates in row-major order: q first, then r. */
  predicate RowMajorBefore(a: Coord, b: Coord) {
    a.q < b.q || (a.q == b.q && a.r < b.r)
  }

  /** What GetFlowDirection hands back: a cell's direction, or the random fallback outside the grid. */
  datatype FlowVector = CellDirection(dir: Dir) | Jitter(v: Vec3)

  class HexFlowField {
    const gridRadius: int
    const hexSize: real
    /** Physics.CheckSphere at a world position, with the field's obstacle radius and layer mask. */
    const checkSphere: Vec3 -> bool
    var grid: map<Coord, HexCell>
    /** The order in which the dictionary enumerates its keys (insertion order). */
    var order: seq<Coord>
    var targetHexCoord: Coord
    var isFlowFieldGenerated: bool

    ghost function Cells(): set<HexCell>
      reads this`grid
    {
      set p | p in grid :: grid[p]
    }

    /** Cell p's neighbour list holds the cells of its in-grid neighbours, in direction-table order. */
    ghost predicate Wired(p: Coord)
      requires p in grid
      reads this`grid, grid[p]
    {
      var ns := NeighborCoords(grid.Keys, p);
      && |grid[p].neighbors| == |ns|
      && forall i :: 0 <= i < |ns| ==> grid[p].neighbors[i] == grid[ns[i]]
    }

    /** Every cell sits under its own coordinate, so distinct keys hold distinct cells. */
    ghost predicate Keyed()
      reads this`grid
    {
      forall p :: p in grid ==> grid[p].coord == p
    }

    /**
     * The shape of the grid, which only the grid builder changes: each cell sits
     * under its own coordinate at its own centre, and `order` lists every key once.
     */
    ghost predicate Shape()
      reads this`grid, this`order
    {
      && hexSize != 0.0
      && Keyed()
      && (forall p :: p in grid ==> grid[p].position == HexToWorldPosition(p))
      && (forall p {:trigger p in order} :: p in grid ==> p in order)
      && (forall i :: 0 <= i < |order| ==> order[i] in grid)
      && (forall a, b :: 0 <= a < b < |order| ==> order[a] != order[b])
    }

    /** Cell p is an obstacle exactly where the sphere check hits, holds a cost in range and is wired. */
    ghost predicate CellOk(p: Coord)
      requires p in grid
      reads this`grid, grid[p]
    {
      grid[p].isObstacle == checkSphere(grid[p].position) && 0 <= grid[p].cost <= IntMaxValue && Wired(p)
    }

    ghost predicate Valid()
      reads this`grid, this`order, Cells()
    {
      Shape() && forall p {:trigger CellOk(p)} :: p in grid ==> CellOk(p)
    }

    /** Writing only costs and directions, within range, keeps the grid valid. */
    twostate lemma CostChangeKeepsValid()
      requires old(Valid()) && unchanged(this)
      requires forall p :: p in grid ==> grid[p].isObstacle == old(grid[p].isObstacle) && grid[p].neighbors == old(grid[p].neighbors)
      requires forall p :: p in grid ==> 0 <= grid[p].cost <= IntMaxValue
      ensures Valid()
    {
      assert Shape();
      forall p | p in grid ensures CellOk(p) {
        assert old(CellOk(p));
      }
    }

    ghost function Obstacles(): set<Coord>
      reads this`grid, Cells()
    {
      set p | p in grid && grid[p].isObstacle
    }

    ghost function Costs(): map<Coord, int>
      reads this`grid, Cells()
    {
      map p | p in grid :: grid[p].cost
    }

    ghost function BestDirections(): map<Coord, Dir>
      reads this`grid, Cells()
    {
      map p | p in grid :: grid[p].bestDirection
    }

    /** A cost map that agrees with every cell is the cost view. */
    lemma CostsAre(c: map<Coord, int>)
      requires c.Keys == grid.Keys && forall p :: p in grid ==> grid[p].cost == c[p]
      ensures Costs() == c
    {
    }

    /** A set that names exactly the obstacle cells is the obstacle view. */
    lemma ObstaclesAre(o: set<Coord>)
      requires forall p :: p in grid ==> (p in o <==> grid[p].isObstacle)
      requires o <= grid.Keys
      ensures Obstacles() == o
    {
    }

    constructor (gridRadius: int, hexSize: real, checkSphere: Vec3 -> bool)
      requires hexSize != 0.0
      ensures this.gridRadius == gridRadius && this.hexSize == hexSize && this.checkSphere == checkSphere
      ensures grid == map[] && order == [] && targetHexCoord == Coord(0, 0) && !isFlowFieldGenerated
      ensures Valid()
    {
      this.gridRadius := gridRadius;
      this.hexSize := hexSize;
      this.checkSphere := checkSphere;
      grid := map[];
      order := [];
      targetHexCoord := Coord(0, 0);
      isFlowFieldGenerated := false;
    }

    /** The centre of a cell in world space (pointy-top layout on the x-z plane). */
    function HexToWorldPosition(c: Coord): (w: Vec3)
    {
      Vec3(hexSize * (Sqrt3 * c.q as real + Sqrt3 / 2.0 * c.r as real), 0.0, hexSize * (3.0 / 2.0 * c.r as real))
    }

    /** The cell whose hexagon contains a world position: project onto axial coordinates, then round. */
    function WorldToHexCoord(w: Vec3): (c: Coord)
      requires hexSize != 0.0
    {
      var q := (Sqrt3 / 3.0 * w.x - 1.0 / 3.0 * w.z) / hexSize;
      var r := (2.0 / 3.0 * w.z) / hexSize;
      AxialRound(q, r)
    }

    /** Every cell centre maps back to its own coordinate (within a million cells of the origin). */
    lemma CentreRoundTrip(c: Coord)
      requires hexSize != 0.0
      requires -1000000 <= c.q <= 1000000 && -1000000 <= c.r <= 1000000
      ensures WorldToHexCoord(HexToWorldPosition(c)) == c
    {
      var e := Sqrt3 * Sqrt3 / 3.0 - 1.0;
      CentreConverts(c, e);
      AxialRoundBack(c, e);
    }

    /** Converting a centre back rounds its projection. */
    lemma CentreConverts(c: Coord, e: real)
      requires hexSize != 0.0 && e == Sqrt3 * Sqrt3 / 3.0 - 1.0
      ensures WorldToHexCoord(HexToWorldPosition(c))
              == AxialRound(c.q as real + e * c.q as real + e / 2.0 * c.r as real, c.r as real)
    {
      CentreProjects(c, e);
    }

    /** A centre projects onto the axial coordinates, off by the single-precision error e of Sqrt3 squared. */
    lemma CentreProjects(c: Coord, e: real)
      requires hexSize != 0.0 && e == Sqrt3 * Sqrt3 / 3.0 - 1.0
      ensures var w := HexToWorldPosition(c);
              && (Sqrt3 / 3.0 * w.x - 1.0 / 3.0 * w.z) / hexSize == c.q as real + e * c.q as real + e / 2.0 * c.r as real
              && (2.0 / 3.0 * w.z) / hexSize == c.r as real
    {
      var w := HexToWorldPosition(c);
      var qr, rr := c.q as real, c.r as real;
      assert Sqrt3 / 3.0 * w.x - 1.0 / 3.0 * w.z == hexSize * (qr + e * qr + e / 2.0 * rr);
      assert 2.0 / 3.0 * w.z == hexSize * rr;
      Unscale(hexSize, qr + e * qr + e / 2.0 * rr);
      Unscale(hexSize, rr);
    }

    /** The projection error is too small to move the rounding within a million cells of the origin. */
    static lemma AxialRoundBack(c: Coord, e: real)
      requires e == Sqrt3 * Sqrt3 / 3.0 - 1.0
      requires -1000000 <= c.q <= 1000000 && -1000000 <= c.r <= 1000000
      ensures AxialRound(c.q as real + e * c.q as real + e / 2.0 * c.r as real, c.r as real) == c
    {
      assert -0.0000001 < e < 0.0;
      ErrorSmall(e, c.q as real, c.r as real);
      AxialRoundNear(c.q as real + e * c.q as real + e / 2.0 * c.r as real, c.r as real, c);
    }

    /** A tiny negative factor on coordinates of at most a million moves them by less than one fifth. */
    static lemma ErrorSmall(e: real, x: real, y: real)
      requires -0.0000001 < e < 0.0
      requires -1000000.0 <= x <= 1000000.0 && -1000000.0 <= y <= 1000000.0
      ensures -0.2 < e * x + e / 2.0 * y < 0.2
    {
      assert -0.1 <= e * x <= 0.1 by {
        if x >= 0.0 { assert e * x <= 0.0 && e * x >= -0.0000001 * x; } else { assert e * x >= 0.0 && e * x <= -0.0000001 * x; }
      }
      assert -0.1 <= e * y <= 0.1 by {
        if y >= 0.0 { assert e * y <= 0.0 && e * y >= -0.0000001 * y; } else { assert e * y >= 0.0 && e * y <= -0.0000001 * y; }
      }
    }

    /** Dividing a scaled value by a nonzero scale, of either sign, gives the value back. */
    static lemma Unscale(s: real, x: real)
      requires s != 0.0
      ensures (s * x) / s == x
    {
    }

    /**
     * Builds the hexagon: one fresh cell per coordinate, in row-major order,
     * marked as an obstacle where the sphere check hits; then wires every cell
     * to its in-grid neighbours. The previous grid is discarded.
     */
    method GenerateHexGrid()
      requires hexSize != 0.0
      modifies this
      ensures Valid()
      ensures forall c :: c in grid <==> InHexagon(gridRadius, c)
      ensures forall a, b :: 0 <= a < b < |order| ==> RowMajorBefore(order[a], order[b])
      ensures forall p :: p in grid ==> fresh(grid[p])
      ensures forall p :: p in grid ==> grid[p].cost == IntMaxValue && grid[p].bestDirection == Zero
      ensures !isFlowFieldGenerated && targetHexCoord == old(targetHexCoord)
    {
      var g: map<Coord, HexCell> := map[];
      var ord: seq<Coord> := [];
      var q := -gridRadius;
      while q <= gridRadius
        invariant -gridRadius <= q && (q <= gridRadius + 1 || q == -gridRadius)
        invariant forall c :: c in g <==> BuiltBefore(gridRadius, c, q, RowStart(gridRadius, q))
        invariant forall i :: 0 <= i < |ord| ==> ord[i] in g && ord[i].q < q
        invariant forall p {:trigger p in ord} :: p in g ==> p in ord
        invariant forall a, b :: 0 <= a < b < |ord| ==> RowMajorBefore(ord[a], ord[b])
        invariant forall p :: p in g ==> fresh(g[p]) && Blank(g[p], p)
        invariant targetHexCoord == old(targetHexCoord)
        decreases gridRadius + 1 - q
      {
        g, ord := AddRow(q, g, ord);
        q := q + 1;
      }
      forall c ensures c in g <==> InHexagon(gridRadius, c) {
        RowBoundsMatchHexagon(gridRadius, c);
      }
      grid := g;
      order := ord;
      isFlowFieldGenerated := false;
      WireNeighbors();
    }

    /** One pass of the builder's outer loop: append the cells of row q, in increasing r. */
    method AddRow(q: int, g: map<Coord, HexCell>, ord: seq<Coord>) returns (g': map<Coord, HexCell>, ord': seq<Coord>)
      requires -gridRadius <= q <= gridRadius
      requires forall c :: c in g <==> BuiltBefore(gridRadius, c, q, RowStart(gridRadius, q))
      requires forall i :: 0 <= i < |ord| ==> ord[i] in g && ord[i].q < q
      requires forall p {:trigger p in ord} :: p in g ==> p in ord
      requires forall a, b :: 0 <= a < b < |ord| ==> RowMajorBefore(ord[a], ord[b])
      requires forall p :: p in g ==> Blank(g[p], p)
      ensures forall c :: c in g' <==> BuiltBefore(gridRadius, c, q + 1, RowStart(gridRadius, q + 1))
      ensures forall i :: 0 <= i < |ord'| ==> ord'[i] in g' && ord'[i].q < q + 1
      ensures forall p {:trigger p in ord'} :: p in g' ==> p in ord'
      ensures forall a, b :: 0 <= a < b < |ord'| ==> RowMajorBefore(ord'[a], ord'[b])
      ensures forall p :: p in g' ==> Blank(g'[p], p)
      ensures forall p :: p in g' ==> p in g || fresh(g'[p])
      ensures forall p :: p in g ==> p in g' && g'[p] == g[p]
    {
      g', ord' := g, ord;
      var r1 := RowStart(gridRadius, q);
      var r2 := RowEnd(gridRadius, q);
      var r := r1;
      while r <= r2
        invariant r1 <= r <= r2 + 1
        invariant forall c :: c in g' <==> BuiltBefore(gridRadius, c, q, r)
        invariant forall i :: 0 <= i < |ord'| ==> ord'[i] in g'
        invariant forall p {:trigger p in ord'} :: p in g' ==> p in ord'
        invariant forall a, b :: 0 <= a < b < |ord'| ==> RowMajorBefore(ord'[a], ord'[b])
        invariant forall i :: 0 <= i < |ord'| ==> RowMajorBefore(ord'[i], Coord(q, r))
        invariant forall p :: p in g' ==> Blank(g'[p], p)
        invariant forall p :: p in g' ==> p in g || fresh(g'[p])
        invariant forall p :: p in g ==> p in g' && g'[p] == g[p]
        decreases r2 + 1 - r
      {
        var coord := Coord(q, r);
        var cell := NewCell(coord);
        g' := g'[coord := cell];
        ord' := ord' + [coord];
        r := r + 1;
      }
    }

    /** A cell as the builder leaves it at p: in place, obstacle flag from the sphere check, not reached, unwired. */
    ghost predicate Blank(cell: HexCell, p: Coord)
      reads cell
    {
      && cell.coord == p && cell.position == HexToWorldPosition(p)
      && cell.isObstacle == checkSphere(cell.position)
      && cell.cost == IntMaxValue && cell.bestDirection == Zero && cell.neighbors == []
    }

    /** One cell of the builder: created at its centre, and marked as an obstacle when the sphere check hits. */
    method NewCell(coord: Coord) returns (cell: HexCell)
      ensures fresh(cell)
      ensures cell.coord == coord && cell.position == HexToWorldPosition(coord)
      ensures cell.isObstacle == checkSphere(cell.position)
      ensures cell.cost == IntMaxValue && cell.bestDirection == Zero && cell.neighbors == []
    {
      var position := HexToWorldPosition(coord);
      cell := new HexCell(coord, position);
      if checkSphere(position) {
        cell.isObstacle := true;
        cell.cost := IntMaxValue;
      }
    }

    /** The neighbour-wiring pass: for every cell and every direction, add the cell found there. */
    method WireNeighbors()
      requires Shape()
      requires forall p :: p in grid ==> grid[p].isObstacle == checkSphere(grid[p].position)
      requires forall p :: p in grid ==> 0 <= grid[p].cost <= IntMaxValue && grid[p].neighbors == []
      modifies Cells()
      ensures Valid()
      ensures forall p :: p in grid ==> grid[p].cost == old(grid[p].cost) && grid[p].bestDirection == old(grid[p].bestDirection)
    {
      var i := 0;
      while i < |order|
        invariant 0 <= i <= |order|
        invariant forall p :: p in grid ==> grid[p].isObstacle == old(grid[p].isObstacle)
        invariant forall p :: p in grid ==> grid[p].cost == old(grid[p].cost) && grid[p].bestDirection == old(grid[p].bestDirection)
        invariant forall k {:trigger order[k]} :: 0 <= k < i ==> Wired(order[k])
        invariant forall k :: i <= k < |order| ==> grid[order[k]].neighbors == []
      {
        var p := order[i];
        assert forall k :: 0 <= k < |order| && k != i ==> grid[order[k]] != grid[p];
        WireCell(p);
        i := i + 1;
      }
      forall p | p in grid ensures CellOk(p) {
        assert p in order;
        var k :| 0 <= k < |order| && order[k] == p;
      }
    }

    /** One cell of the wiring pass: append the cells found in the six directions, in table order. */
    method WireCell(p: Coord)
      requires p in grid && grid[p].neighbors == []
      modifies grid[p]
      ensures Wired(p)
      ensures grid[p].cost == old(grid[p].cost) && grid[p].bestDirection == old(grid[p].bestDirection)
      ensures grid[p].isObstacle == old(grid[p].isObstacle)
    {
      // the list is collected in a local and stored once; nothing reads it in between
      var found: seq<HexCell> := [];
      var d := 0;
      while d < |Directions|
        invariant 0 <= d <= |Directions|
        invariant Mirrors(found, NeighborsUpTo(grid.Keys, p, d), grid)
        invariant unchanged(grid[p])
      {
        var neighborCoord := Plus(p, Directions[d]);
        if neighborCoord in grid {
          MirrorsSnoc(found, NeighborsUpTo(grid.Keys, p, d), grid[neighborCoord], neighborCoord, grid);
          found := found + [grid[neighborCoord]];
        }
        d := d + 1;
      }
      var cell := grid[p];
      cell.neighbors := found;
    }

    /**
     * The reset at the top of GenerateFlowField as the source writes it:
     * passable cells go back to int.MaxValue, obstacles keep whatever cost they
     * hold, and every direction is cleared.
     */
    method ResetAsWritten()
      requires Valid()
      modifies Cells()
      ensures Valid() && ResetFrom(old(Costs())) && ObstacleFlagsKept()
    {
      forall p | p in grid ensures 0 <= grid[p].cost <= IntMaxValue {
        assert CellOk(p);
      }
      var i := 0;
      while i < |order|
        invariant 0 <= i <= |order|
        invariant forall p :: p in grid ==> grid[p].isObstacle == old(grid[p].isObstacle) && grid[p].neighbors == old(grid[p].neighbors)
        invariant forall p :: p in grid ==> 0 <= grid[p].cost <= IntMaxValue
        invariant forall k :: 0 <= k < i ==> grid[order[k]].bestDirection == Zero
        invariant forall k :: 0 <= k < i ==>
                    grid[order[k]].cost == if grid[order[k]].isObstacle then old(grid[order[k]].cost) else IntMaxValue
        invariant forall k :: i <= k < |order| ==> grid[order[k]].cost == old(grid[order[k]].cost)
      {
        var cell := grid[order[i]];
        if !cell.isObstacle {
          cell.cost := IntMaxValue;
        }
        cell.bestDirection := Zero;
        i := i + 1;
      }
      forall p | p in grid
        ensures grid[p].bestDirection == Zero
        ensures grid[p].cost == if grid[p].isObstacle then old(grid[p].cost) else IntMaxValue
      {
        assert p in order;
        var k :| 0 <= k < |order| && order[k] == p;
      }
      CostChangeKeepsValid();
    }

    /** The corrected reset: every cell, obstacle or not, goes back to int.MaxValue. */
    method ResetAll()
      requires Valid()
      modifies Cells()
      ensures Valid() && AllReset() && ObstacleFlagsKept()
    {
      forall p | p in grid ensures 0 <= grid[p].cost <= IntMaxValue {
        assert CellOk(p);
      }
      var i := 0;
      while i < |order|
        invariant 0 <= i <= |order|
        invariant forall p :: p in grid ==> grid[p].isObstacle == old(grid[p].isObstacle) && grid[p].neighbors == old(grid[p].neighbors)
        invariant forall p :: p in grid ==> 0 <= grid[p].cost <= IntMaxValue
        invariant forall k :: 0 <= k < i ==> grid[order[k]].bestDirection == Zero && grid[order[k]].cost == IntMaxValue
      {
        var cell := grid[order[i]];
        cell.cost := IntMaxValue;
        cell.bestDirection := Zero;
        i := i + 1;
      }
      forall p | p in grid
        ensures grid[p].bestDirection == Zero && grid[p].cost == IntMaxValue
      {
        assert p in order;
        var k :| 0 <= k < |order| && order[k] == p;
      }
      CostChangeKeepsValid();
    }

    /**
     * The breadth-first cost propagation from the target cell t (cost 0 on
     * entry, every other passable cell at int.MaxValue): a dequeued cell offers
     * cost + 1 to each passable neighbour and enqueues every neighbour it improves.
     */
    method Propagate(t: Coord)
      requires Valid() && t in grid && grid[t].cost == 0
      requires forall p :: p in grid && p != t && !grid[p].isObstacle ==> grid[p].cost == IntMaxValue
      modifies Cells()
      ensures Valid()
      ensures Settled(grid.Keys, Obstacles(), t, Costs())
      ensures forall p :: p in grid && grid[p].isObstacle ==> grid[p].cost == old(grid[p].cost)
      ensures forall p :: p in grid ==> grid[p].isObstacle == old(grid[p].isObstacle)
      ensures forall p :: p in grid ==> grid[p].bestDirection == old(grid[p].bestDirection)
    {
      ghost var K := grid.Keys;
      ghost var O := Obstacles();
      ghost var c: map<Coord, int> := Costs();
      ghost var qc: seq<Coord> := [t];
      var queue := [grid[t]];
      forall p | p in K ensures Wired(p) && 0 <= c[p] <= IntMaxValue {
        assert CellOk(p);
      }
      PropagationStarts(K, O, t, c);
      c := Drain(queue, qc, K, O, t, c);
      PropagationEnds(K, O, t, c);
      SettledView(t, c, O);
      forall p | p in grid
        ensures 0 <= grid[p].cost <= IntMaxValue
        ensures grid[p].isObstacle == old(grid[p].isObstacle)
        ensures grid[p].isObstacle ==> grid[p].cost == old(grid[p].cost)
      {
        assert p in K && (p in O <==> grid[p].isObstacle) && grid[p].cost == c[p];
      }
      CostChangeKeepsValid();
    }

    /** Settled costs held by the cells are settled in the views. */
    lemma SettledView(t: Coord, c: map<Coord, int>, o: set<Coord>)
      requires Reflects(c, o) && o <= grid.Keys && Settled(grid.Keys, o, t, c)
      ensures Settled(grid.Keys, Obstacles(), t, Costs())
    {
      CostsAre(c);
      ObstaclesAre(o);
    }

    /** The propagation loop: run turns until the queue is empty. */
    method Drain(queue0: seq<HexCell>, ghost qc0: seq<Coord>, ghost K: set<Coord>, ghost O: set<Coord>,
                 ghost t: Coord, ghost c0: map<Coord, int>) returns (ghost c: map<Coord, int>)
      requires Shape() && K == grid.Keys && O <= K
      requires Mirrors(queue0, qc0, grid) && Propagating(K, O, t, c0, qc0) && Reflects(c0, O)
      requires forall p :: p in K ==> Wired(p)
      modifies Cells()
      ensures Reflects(c, O) && Propagating(K, O, t, c, [])
      ensures forall p :: p in K ==> grid[p].isObstacle == old(grid[p].isObstacle)
      ensures forall p :: p in K ==> grid[p].neighbors == old(grid[p].neighbors) && grid[p].bestDirection == old(grid[p].bestDirection)
      ensures forall p :: p in O ==> c[p] == c0[p]
    {
      var queue := queue0;
      ghost var qc := qc0;
      c := c0;
      SumCostsNonnegative(c, order);
      while |queue| > 0
        invariant Mirrors(queue, qc, grid)
        invariant Propagating(K, O, t, c, qc)
        invariant Reflects(c, O)
        invariant forall p :: p in K ==> grid[p].isObstacle == old(grid[p].isObstacle)
        invariant forall p :: p in K ==> grid[p].neighbors == old(grid[p].neighbors) && grid[p].bestDirection == old(grid[p].bestDirection)
        invariant forall p :: p in O ==> c[p] == c0[p]
        invariant SumCosts(c, order) >= 0
        decreases SumCosts(c, order), |queue|
      {
        assert old(Wired(qc[0]));
        queue, qc, c := BfsStep(queue, qc, K, O, t, c);
      }
    }

    /** The cost map `c` and the obstacle set `o` are what the cells hold. */
    ghost predicate Reflects(c: map<Coord, int>, o: set<Coord>)
      reads this`grid, Cells()
    {
      c.Keys == grid.Keys && forall p :: p in grid ==> grid[p].cost == c[p] && (p in o <==> grid[p].isObstacle)
    }

    /**
     * One turn of the propagation loop: dequeue the head, relax its passable
     * neighbours and enqueue the improved ones. The sum of costs over the grid
     * drops, or stays and the queue shrinks.
     */
    method BfsStep(queue: seq<HexCell>, ghost qc: seq<Coord>, ghost K: set<Coord>, ghost O: set<Coord>,
                   ghost t: Coord, ghost c: map<Coord, int>)
      returns (queue': seq<HexCell>, ghost qc': seq<Coord>, ghost c': map<Coord, int>)
      requires Shape() && K == grid.Keys && O <= K && |queue| > 0
      requires Mirrors(queue, qc, grid) && Propagating(K, O, t, c, qc) && Reflects(c, O) && Wired(qc[0])
      modifies Cells()
      ensures Mirrors(queue', qc', grid) && Propagating(K, O, t, c', qc') && Reflects(c', O)
      ensures forall p :: p in K ==> grid[p].isObstacle == old(grid[p].isObstacle)
      ensures forall p :: p in K ==> grid[p].neighbors == old(grid[p].neighbors) && grid[p].bestDirection == old(grid[p].bestDirection)
      ensures forall p :: p in O ==> c'[p] == c[p]
      ensures SumCosts(c', order) >= 0
      ensures SumCosts(c', order) < SumCosts(c, order) || (SumCosts(c', order) == SumCosts(c, order) && |queue'| < |queue|)
    {
      var current := queue[0];
      ghost var cur := qc[0];
      var added;
      ghost var addedC;
      ghost var nbc := NeighborCoords(K, cur);
      NeighborListOfGrid(K, cur);
      added, addedC := RelaxNeighbors(current, cur, nbc, O, c);
      RelaxAlongNeighbors(K, O, c, cur, nbc);
      PropagationStep(K, O, t, c, qc, addedC);
      c' := Relax(K, O, c, cur);
      if |addedC| > 0 {
        assert addedC[0] in order;
        SumCostsShrink(c, c', order, addedC[0]);
      } else {
        SumCostsShrink(c, c', order, cur);
      }
      MirrorsDequeue(queue, qc, added, addedC, grid);
      queue' := queue[1..] + added;
      qc' := qc[1..] + addedC;
      SumCostsNonnegative(c', order);
    }

    /**
     * The inner loop of the propagation: the dequeued cell `current` (at cur)
     * offers its cost + 1 to each passable neighbour; the improved neighbours are
     * returned in neighbour-list order, to be enqueued.
     */
    method RelaxNeighbors(current: HexCell, ghost cur: Coord, ghost nbc: seq<Coord>, ghost O: set<Coord>,
                          ghost c: map<Coord, int>) returns (added: seq<HexCell>, ghost addedC: seq<Coord>)
      requires Keyed() && cur in grid && current == grid[cur]
      requires Mirrors(current.neighbors, nbc, grid) && Reflects(c, O) && c[cur] < IntMaxValue
      modifies Cells()
      ensures Reflects(RelaxAlong(O, c, cur, nbc), O)
      ensures forall p :: p in grid ==> grid[p].isObstacle == old(grid[p].isObstacle)
      ensures forall p :: p in grid ==> grid[p].neighbors == old(grid[p].neighbors) && grid[p].bestDirection == old(grid[p].bestDirection)
      ensures Mirrors(added, addedC, grid)
      ensures forall v :: v in addedC <==> v in nbc && v !in O && c[cur] + 1 < c[v]
    {
      var nb := current.neighbors;
      ghost var cc := c;
      ghost var seen: seq<Coord> := [];
      added := [];
      addedC := [];
      assert |nb| == |nbc|;
      var j := 0;
      while j < |nb|
        invariant 0 <= j <= |nbc| && seen == nbc[..j]
        invariant Reflects(cc, O)
        invariant cc == RelaxAlong(O, c, cur, seen)
        invariant forall p :: p in grid ==> grid[p].neighbors == old(grid[p].neighbors) && grid[p].bestDirection == old(grid[p].bestDirection)
        invariant Mirrors(added, addedC, grid)
        invariant forall v :: v in addedC <==> v in seen && v !in O && c[cur] + 1 < c[v]
      {
        ghost var v := nbc[j];
        added, addedC, cc := OfferCost(current, nb[j], cur, v, O, c, seen, cc, added, addedC);
        TakeOneMore(nbc, j);
        seen := seen + [v];
        j := j + 1;
      }
      assert seen == nbc;
    }

    /**
     * One pass of the neighbour loop: a passable neighbour whose cost the offer
     * current.cost + 1 beats takes it and is appended to the cells to enqueue.
     */
    method OfferCost(current: HexCell, neighbor: HexCell, ghost cur: Coord, ghost v: Coord, ghost O: set<Coord>,
                     ghost c: map<Coord, int>, ghost seen: seq<Coord>, ghost cc: map<Coord, int>,
                     added: seq<HexCell>, ghost addedC: seq<Coord>)
      returns (added': seq<HexCell>, ghost addedC': seq<Coord>, ghost cc': map<Coord, int>)
      requires Keyed() && cur in grid && current == grid[cur] && v in grid && neighbor == grid[v]
      requires c.Keys == grid.Keys && c[cur] < IntMaxValue && forall u :: u in seen ==> u in grid
      requires Reflects(cc, O) && cc == RelaxAlong(O, c, cur, seen)
      requires Mirrors(added, addedC, grid)
      requires forall u :: u in addedC <==> u in seen && u !in O && c[cur] + 1 < c[u]
      modifies neighbor
      ensures Reflects(cc', O) && cc' == RelaxAlong(O, c, cur, seen + [v])
      ensures forall p :: p in grid ==> grid[p].neighbors == old(grid[p].neighbors) && grid[p].bestDirection == old(grid[p].bestDirection)
      ensures Mirrors(added', addedC', grid)
      ensures forall u :: u in addedC' <==> u in seen + [v] && u !in O && c[cur] + 1 < c[u]
    {
      added', addedC', cc' := added, addedC, cc;
      RelaxAlongSnoc(O, c, cur, seen, v);
      assert current.cost == c[cur] && neighbor.cost == cc[v];
      if !neighbor.isObstacle {
        // current.cost is below int.MaxValue, so the addition does not wrap around
        var newCost := current.cost + 1;
        if newCost < neighbor.cost {
          SetCost(neighbor, v, newCost, cc, O);
          cc' := cc[v := newCost];
          MirrorsSnoc(added, addedC, neighbor, v, grid);
          added' := added + [neighbor];
          addedC' := addedC + [v];
        }
      }
    }

    /** Writes one cell's cost; every other cell, and the cell's links, stay as they were. */
    method SetCost(cell: HexCell, ghost v: Coord, x: int, ghost cc: map<Coord, int>, ghost O: set<Coord>)
      requires Keyed() && v in grid && cell == grid[v] && Reflects(cc, O)
      modifies cell
      ensures Reflects(cc[v := x], O)
      ensures forall p :: p in grid ==> grid[p].neighbors == old(grid[p].neighbors) && grid[p].bestDirection == old(grid[p].bestDirection)
    {
      cell.cost := x;
      assert forall p :: p in grid && p != v ==> grid[p] != cell;
    }

    /**
     * The neighbour scan of the direction pass: starting from the cell's own
     * cost, keep the first neighbour strictly cheaper than every one before it.
     * `cs` names the neighbours' costs; the ghost result `r` is the chosen index.
     */
    method BestNeighbor(cell: HexCell, ghost cs: seq<int>) returns (best: HexCell?, ghost r: Option<nat>)
      requires |cs| == |cell.neighbors| && forall i :: 0 <= i < |cs| ==> cs[i] == cell.neighbors[i].cost
      ensures r == FirstMinBelow(cs, cell.cost)
      ensures (r.None? ==> best == null) && (r.Some? ==> best == cell.neighbors[r.value])
    {
      var bestCost := cell.cost;
      best := null;
      r := None;
      var j := 0;
      while j < |cell.neighbors|
        invariant 0 <= j <= |cell.neighbors| == |cs|
        invariant r == FirstMinBelow(cs[..j], cell.cost)
        invariant r.None? ==> best == null && bestCost == cell.cost
        invariant r.Some? ==> r.value < j && best == cell.neighbors[r.value] && bestCost == cs[r.value]
      {
        var neighbor := cell.neighbors[j];
        FirstMinBelowStep(cs, j, cell.cost);
        if neighbor.cost < bestCost {
          bestCost := neighbor.cost;
          best := neighbor;
          r := Some(j);
        }
        j := j + 1;
      }
      assert cs[..j] == cs;
    }

    /**
     * The direction pass: unreached cells, obstacles and the target keep the
     * zero vector; every other cell points at its best neighbour, if it has one.
     */
    method PickDirections(t: Coord)
      requires Valid() && t in grid
      requires forall p :: p in grid ==> grid[p].bestDirection == Zero
      modifies Cells()
      ensures Valid()
      ensures DirectionsPicked(grid.Keys, Obstacles(), t, Costs(), BestDirections())
      ensures forall p :: p in grid ==> grid[p].cost == old(grid[p].cost) && grid[p].isObstacle == old(grid[p].isObstacle)
    {
      ghost var K := grid.Keys;
      ghost var O := Obstacles();
      ghost var c := Costs();
      var targetCell := grid[t];
      var i := 0;
      while i < |order|
        invariant 0 <= i <= |order|
        invariant forall p :: p in K ==> grid[p].cost == c[p] && grid[p].isObstacle == old(grid[p].isObstacle) && (p in O <==> grid[p].isObstacle)
        invariant forall p :: p in K ==> grid[p].neighbors == old(grid[p].neighbors)
        invariant forall k {:trigger PickDirection(K, O, t, c, order[k])} :: 0 <= k < i ==> grid[order[k]].bestDirection == PickDirection(K, O, t, c, order[k])
        invariant forall k :: i <= k < |order| ==> grid[order[k]].bestDirection == Zero
      {
        var p := order[i];
        assert old(CellOk(p));
        assert old(Wired(p));
        assert forall k :: 0 <= k < |order| && k != i ==> grid[order[k]] != grid[p];
        PickCellDirection(p, targetCell, K, O, t, c);
        i := i + 1;
      }
      forall p | p in K
        ensures grid[p].bestDirection == PickDirection(K, O, t, c, p)
      {
        assert p in order;
        var k :| 0 <= k < |order| && order[k] == p;
      }
      forall p | p in grid ensures 0 <= grid[p].cost <= IntMaxValue {
        assert old(CellOk(p));
      }
      CostChangeKeepsValid();
      PickedView(t, c, O);
    }

    /** Directions picked against the costs and obstacles the cells hold are picked in the views. */
    lemma PickedView(t: Coord, c: map<Coord, int>, o: set<Coord>)
      requires Reflects(c, o) && o <= grid.Keys
      requires forall p :: p in grid ==> grid[p].bestDirection == PickDirection(grid.Keys, o, t, c, p)
      ensures DirectionsPicked(grid.Keys, Obstacles(), t, Costs(), BestDirections())
    {
      CostsAre(c);
      ObstaclesAre(o);
    }

    /** One step of the direction pass: the direction of cell p. */
    method PickCellDirection(p: Coord, targetCell: HexCell, ghost K: set<Coord>, ghost O: set<Coord>,
                             ghost t: Coord, ghost c: map<Coord, int>)
      requires p in grid && K == grid.Keys && t in grid && targetCell == grid[t] && Wired(p)
      requires forall q :: q in K ==> q in c && grid[q].coord == q && grid[q].cost == c[q] && (q in O <==> grid[q].isObstacle)
      requires grid[p].bestDirection == Zero
      modifies grid[p]
      ensures grid[p].bestDirection == PickDirection(K, O, t, c, p)
      ensures grid[p].cost == old(grid[p].cost) && grid[p].isObstacle == old(grid[p].isObstacle)
      ensures grid[p].neighbors == old(grid[p].neighbors)
    {
      var cell := grid[p];
      if cell.cost == IntMaxValue || cell.isObstacle || cell == targetCell {
        cell.bestDirection := Zero;
      } else {
        ghost var ns := NeighborCoords(K, p);
        ghost var cs := NeighborCosts(K, c, p);
        var bestNeighbor;
        ghost var r;
        bestNeighbor, r := BestNeighbor(cell, cs);
        if bestNeighbor != null {
          cell.bestDirection := Toward(bestNeighbor.coord);
        }
      }
    }

    /** The costs are settled from t and every direction is picked. */
    ghost predicate Directed(t: Coord)
      reads this`grid, this`order, Cells()
    {
      && Valid() && t in grid
      && Settled(grid.Keys, Obstacles(), t, Costs())
      && DirectionsPicked(grid.Keys, Obstacles(), t, Costs(), BestDirections())
    }

    /** The field leads to t: t is the recorded target, the field is generated and directed toward t. */
    ghost predicate FieldTowards(t: Coord)
      reads this, Cells()
    {
      Directed(t) && targetHexCoord == t && isFlowFieldGenerated
    }

    /** No obstacle other than t holding a finite cost is ObstaclesBlocked in the views. */
    lemma BlockedView(t: Coord)
      requires forall p :: p in grid && grid[p].isObstacle && p != t ==> grid[p].cost == IntMaxValue
      ensures ObstaclesBlocked(Obstacles(), t, Costs())
    {
    }

    /**
     * The part of GenerateFlowField after the target is found: cost 0 at the
     * target, the propagation, then the direction pass.
     */
    method FlowFrom(t: Coord)
      requires Valid() && t in grid
      requires forall p :: p in grid ==> grid[p].bestDirection == Zero
      requires forall p :: p in grid && !grid[p].isObstacle ==> grid[p].cost == IntMaxValue
      modifies Cells()
      ensures Directed(t)
      ensures ObstacleFlagsKept()
      ensures ObstacleCostsFrom(t, old(Costs()))
    {
      SetTargetCost(t);
      Propagate(t);
      ghost var c := Costs();
      ghost var O := Obstacles();
      PickDirections(t);
      CostsAre(c);
      ObstaclesAre(O);
    }

    /** `targetCell.cost = 0`: the target's cost becomes 0, nothing else changes. */
    method SetTargetCost(t: Coord)
      requires Valid() && t in grid
      modifies grid[t]
      ensures Valid() && grid[t].cost == 0
      ensures forall p :: p in grid && p != t ==> grid[p].cost == old(grid[p].cost)
      ensures forall p :: p in grid ==> grid[p].isObstacle == old(grid[p].isObstacle) && grid[p].bestDirection == old(grid[p].bestDirection)
    {
      grid[t].cost := 0;
      assert Keyed();
      assert forall p :: p in grid && p != t ==> grid[p] != grid[t];
      forall p | p in grid ensures 0 <= grid[p].cost <= IntMaxValue {
        assert old(CellOk(p));
      }
      CostChangeKeepsValid();
    }

    /** The reset state of the corrected reset: every cell at int.MaxValue with no direction. */
    ghost predicate AllReset()
      reads this`grid, Cells()
    {
      forall p :: p in grid ==> grid[p].bestDirection == Zero && grid[p].cost == IntMaxValue
    }

    /** The cells' obstacle flags are those of the earlier state. */
    twostate predicate ObstacleFlagsKept()
      reads this`grid, Cells()
    {
      forall p :: p in grid ==> p in old(grid) && grid[p].isObstacle == old(grid[p].isObstacle)
    }

    /** Passable cells are at int.MaxValue, obstacles hold their cost in `c0`, no cell has a direction. */
    ghost predicate ResetFrom(c0: map<Coord, int>)
      reads this`grid, Cells()
    {
      forall p :: p in grid ==>
        && p in c0 && grid[p].bestDirection == Zero
        && grid[p].cost == if grid[p].isObstacle then c0[p] else IntMaxValue
    }

    /** Every obstacle other than t holds its cost in `c0`. */
    ghost predicate ObstacleCostsFrom(t: Coord, c0: map<Coord, int>)
      reads this`grid, Cells()
    {
      forall p :: p in grid && grid[p].isObstacle && p != t ==> p in c0 && grid[p].cost == c0[p]
    }

    /** The cell passes of GenerateFlowField as the source writes it, for a target t in the grid. */
    method RetargetAsWritten(t: Coord)
      requires Valid() && t in grid
      modifies Cells()
      ensures Directed(t)
      ensures ObstacleFlagsKept()
      ensures ObstacleCostsFrom(t, old(Costs()))
    {
      ResetAsWritten();
      FlowFrom(t);
    }

    /**
     * GenerateFlowField as the source writes it: return when there is no
     * target; reset (obstacles keep their cost); locate the target; when it is
     * outside the grid, return with the generated flag as it was; otherwise give
     * it cost 0, propagate, pick directions and set the flag.
     */
    method GenerateFlowFieldAsWritten(target: Option<Vec3>)
      requires Valid()
      modifies this, Cells()
      ensures Valid()
      ensures grid == old(grid)
      ensures order == old(order)
      ensures ObstacleFlagsKept()
      ensures target.None? ==> unchanged(this) && unchanged(Cells())
      ensures target.Some? ==> targetHexCoord == WorldToHexCoord(target.value)
      ensures target.Some? && targetHexCoord !in grid ==> isFlowFieldGenerated == old(isFlowFieldGenerated)
      ensures target.Some? && targetHexCoord !in grid ==> ResetFrom(old(Costs()))
      ensures target.Some? && targetHexCoord in grid ==> FieldTowards(targetHexCoord)
      ensures target.Some? && targetHexCoord in grid ==> ObstacleCostsFrom(targetHexCoord, old(Costs()))
    {
      if target == None {
        return;
      }
      // The source records the target after the reset and sets the flag after
      // the direction pass; neither pass reads these two fields, so they are
      // written first here.
      ghost var c0 := Costs();
      targetHexCoord := WorldToHexCoord(target.value);
      if targetHexCoord !in grid {
        assert Costs() == c0;
        ResetAsWritten();
        return;
      }
      isFlowFieldGenerated := true;
      assert Costs() == c0;
      RetargetAsWritten(targetHexCoord);
    }

    /**
     * The corrected GenerateFlowField: the reset sends every cell, obstacles
     * included, back to int.MaxValue, so no obstacle other than the target
     * keeps a finite cost (and FieldLeadsToTarget applies).
     */
    method GenerateFlowField(target: Option<Vec3>)
      requires Valid()
      modifies this, Cells()
      ensures Valid()
      ensures grid == old(grid)
      ensures order == old(order)
      ensures ObstacleFlagsKept()
      ensures target.None? ==> unchanged(this) && unchanged(Cells())
      ensures target.Some? ==> targetHexCoord == WorldToHexCoord(target.value)
      ensures target.Some? && targetHexCoord !in grid ==> isFlowFieldGenerated == old(isFlowFieldGenerated)
      ensures target.Some? && targetHexCoord !in grid ==> AllReset()
      ensures target.Some? && targetHexCoord in grid ==> FieldTowards(targetHexCoord)
      ensures target.Some? && targetHexCoord in grid ==> ObstaclesBlocked(Obstacles(), targetHexCoord, Costs())
    {
      if target == None {
        return;
      }
      // The source records the target after the reset and sets the flag after
      // the direction pass; neither pass reads these two fields, so they are
      // written first here.
      targetHexCoord := WorldToHexCoord(target.value);
      if targetHexCoord !in grid {
        ResetAll();
        return;
      }
      isFlowFieldGenerated := true;
      ResetAll();
      FlowFrom(targetHexCoord);
      BlockedView(targetHexCoord);
    }

    /**
     * Start, restricted to the flow field: build the grid, then generate the
     * field toward the target (None when no target Transform is set) with
     * GenerateFlowField as the source writes it.
     */
    method Start(target: Option<Vec3>)
      requires hexSize != 0.0
      modifies this
      ensures Valid()
      ensures forall c :: c in grid <==> InHexagon(gridRadius, c)
      ensures target.None? ==> !isFlowFieldGenerated
      ensures target.Some? ==> targetHexCoord == WorldToHexCoord(target.value)
      ensures target.Some? && targetHexCoord !in grid ==> !isFlowFieldGenerated && AllReset()
      ensures target.Some? && targetHexCoord in grid ==> FieldTowards(targetHexCoord)
      ensures target.Some? && targetHexCoord in grid ==> ObstaclesBlocked(Obstacles(), targetHexCoord, Costs())
    {
      GenerateHexGrid();
      // every cell is fresh at int.MaxValue, so the reset as written leaves no stale obstacle cost
      ghost var c0 := Costs();
      assert forall p :: p in c0 ==> c0[p] == IntMaxValue;
      GenerateFlowFieldAsWritten(target);
      if target.Some? && targetHexCoord in grid {
        BlockedView(targetHexCoord);
      }
    }

    /**
     * Update, restricted to the flow field: read the target's position, which
     * throws (`thrown`) before anything changes when no target is set; once a
     * field has been generated, regenerate it with GenerateFlowField as the
     * source writes it whenever the target has moved to another cell.
     */
    method Update(target: Option<Vec3>) returns (thrown: bool)
      requires Valid()
      modifies this, Cells()
      ensures Valid()
      ensures grid == old(grid)
      ensures thrown <==> target.None?
      ensures target.None? || !old(isFlowFieldGenerated) || WorldToHexCoord(target.value) == old(targetHexCoord) ==>
                unchanged(this) && unchanged(Cells())
      ensures target.Some? && old(isFlowFieldGenerated) && WorldToHexCoord(target.value) != old(targetHexCoord) ==>
                targetHexCoord == WorldToHexCoord(target.value) && isFlowFieldGenerated && ObstacleFlagsKept()
      ensures target.Some? && old(isFlowFieldGenerated) && WorldToHexCoord(target.value) != old(targetHexCoord) && targetHexCoord !in grid ==>
                ResetFrom(old(Costs()))
      ensures target.Some? && old(isFlowFieldGenerated) && WorldToHexCoord(target.value) != old(targetHexCoord) && targetHexCoord in grid ==>
                FieldTowards(targetHexCoord) && ObstacleCostsFrom(targetHexCoord, old(Costs()))
    {
      if target.None? {
        return true;
      }
      thrown := false;
      var currentTargetCoord := WorldToHexCoord(target.value);
      if isFlowFieldGenerated && currentTargetCoord != targetHexCoord {
        GenerateFlowFieldAsWritten(target);
      }
    }

    /**
     * The corrected Update: as Update, but regenerating with the corrected
     * GenerateFlowField, so no obstacle other than the target keeps a finite cost.
     */
    method UpdateCorrected(target: Option<Vec3>) returns (thrown: bool)
      requires Valid()
      modifies this, Cells()
      ensures Valid()
      ensures grid == old(grid)
      ensures thrown <==> target.None?
      ensures target.None? || !old(isFlowFieldGenerated) || WorldToHexCoord(target.value) == old(targetHexCoord) ==>
                unchanged(this) && unchanged(Cells())
      ensures target.Some? && old(isFlowFieldGenerated) && WorldToHexCoord(target.value) != old(targetHexCoord) ==>
                targetHexCoord == WorldToHexCoord(target.value) && isFlowFieldGenerated && ObstacleFlagsKept()
      ensures target.Some? && old(isFlowFieldGenerated) && WorldToHexCoord(target.value) != old(targetHexCoord) && targetHexCoord !in grid ==>
                AllReset()
      ensures target.Some? && old(isFlowFieldGenerated) && WorldToHexCoord(target.value) != old(targetHexCoord) && targetHexCoord in grid ==>
                FieldTowards(targetHexCoord) && ObstaclesBlocked(Obstacles(), targetHexCoord, Costs())
    {
      if target.None? {
        return true;
      }
      thrown := false;
      var currentTargetCoord := WorldToHexCoord(target.value);
      if isFlowFieldGenerated && currentTargetCoord != targetHexCoord {
        GenerateFlowField(target);
      }
    }

    /**
     * The direction handed to an agent at a world position: the bestDirection of
     * the cell there, or Vector3.one * jitter (Random.Range(-1f, 1f)) outside the grid.
     */
    function GetFlowDirection(worldPosition: Vec3, jitter: real): (v: FlowVector)
      requires hexSize != 0.0 && -1.0 <= jitter <= 1.0
      reads this`grid, Cells()
      ensures v.Jitter? <==> WorldToHexCoord(worldPosition) !in grid
      ensures v.Jitter? ==> v.v.x == v.v.y == v.v.z && -1.0 <= v.v.x <= 1.0
      ensures v.CellDirection? ==> v.dir == grid[WorldToHexCoord(worldPosition)].bestDirection
    {
      var coord := WorldToHexCoord(worldPosition);
      if coord in grid then CellDirection(grid[coord].bestDirection)
      else Jitter(Vec3(jitter, jitter, jitter))
    }

    /**
     * An agent standing on the centre of a reached passable cell other than the
     * target is sent toward a passable (or target) neighbour one hop closer.
     */
    lemma FlowDirectionAtCentre(t: Coord, p: Coord, jitter: real)
      requires FieldTowards(t) && ObstaclesBlocked(Obstacles(), t, Costs())
      requires p in grid && !grid[p].isObstacle && p != t && grid[p].cost < IntMaxValue
      requires -1000000 <= p.q <= 1000000 && -1000000 <= p.r <= 1000000
      requires -1.0 <= jitter <= 1.0
      ensures var v := GetFlowDirection(HexToWorldPosition(p), jitter);
              && v.CellDirection? && v.dir.Toward?
              && v.dir.cell in grid && Adjacent(p, v.dir.cell)
              && (v.dir.cell == t || !grid[v.dir.cell].isObstacle)
              && grid[v.dir.cell].cost == grid[p].cost - 1
    {
      CentreRoundTrip(p);
      assert Costs()[p] == grid[p].cost && p !in Obstacles();
      DirectionDescends(grid.Keys, Obstacles(), t, Costs(), p);
      var n := PickDirection(grid.Keys, Obstacles(), t, Costs(), p).cell;
      assert Costs()[n] == grid[n].cost && (n in Obstacles() <==> grid[n].isObstacle);
    }

    /** In a field toward t with obstacles blocked, following the directions from a reached cell arrives at t. */
    lemma FieldLeadsToTarget(t: Coord)
      requires Directed(t) && ObstaclesBlocked(Obstacles(), t, Costs())
      ensures forall p :: p in grid && (p == t || !grid[p].isObstacle) && grid[p].cost < IntMaxValue ==>
                Follow(BestDirections(), p, grid[p].cost) == t
    {
      forall p | p in grid && (p == t || !grid[p].isObstacle) && grid[p].cost < IntMaxValue
        ensures Follow(BestDirections(), p, grid[p].cost) == t
      {
        assert Costs()[p] == grid[p].cost && (p in Obstacles() <==> grid[p].isObstacle);
        FollowReachesTarget(grid.Keys, Obstacles(), t, Costs(), BestDirections(), p);
      }
    }
  }
}
