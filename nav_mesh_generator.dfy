/**
 * The triangle navigation mesh: building one triangle per index triple of a
 * triangulation, linking triangles that share an edge, locating the triangle
 * under a point, and the A* search over the triangle graph.
 */
module NavMeshes {
  import opened Wrappers
  import opened Vectors
  import opened Triangles

  /** float.MaxValue, the "not reached yet" score. */
  const FloatMax: real := 340282346638528859811704183484516925440.0

  // ---- The adjacency the mesh builds ----

  /** The vertex triples of a triangle list, in list order. */
  function Shapes(ts: seq<Triangle>): (shapes: seq<Triple>)
    ensures |shapes| == |ts| && forall k :: 0 <= k < |ts| ==> shapes[k] == ts[k].points
  {
    seq(|ts|, k requires 0 <= k < |ts| => ts[k].points)
  }

  /** The indices u < k other than t whose triangle is adjacent to triangle t, in increasing order. */
  function LinkedBelow(shapes: seq<Triple>, t: nat, k: nat): (r: seq<int>)
    requires t < |shapes| && k <= |shapes|
    ensures forall i :: 0 <= i < |r| ==> 0 <= r[i] < k && r[i] != t
  {
    if k == 0 then []
    else LinkedBelow(shapes, t, k - 1) + (if k - 1 != t && Adjacent(shapes[t], shapes[k - 1]) then [k - 1] else [])
  }

  /** The neighbour list that BuildAdjacency gives triangle t. */
  function NeighborIndices(shapes: seq<Triple>, t: nat): seq<int>
    requires t < |shapes|
  {
    LinkedBelow(shapes, t, |shapes|)
  }

  lemma {:induction false} LinkedBelowMembership(shapes: seq<Triple>, t: nat, k: nat, u: int)
    requires t < |shapes| && k <= |shapes|
    ensures u in LinkedBelow(shapes, t, k) <==> 0 <= u < k && u != t && Adjacent(shapes[t], shapes[u])
  {
    if k > 0 {
      LinkedBelowMembership(shapes, t, k - 1, u);
    }
  }

  lemma {:induction false} LinkedBelowIncreasing(shapes: seq<Triple>, t: nat, k: nat)
    requires t < |shapes| && k <= |shapes|
    ensures forall a, b :: 0 <= a < b < |LinkedBelow(shapes, t, k)| ==>
              LinkedBelow(shapes, t, k)[a] < LinkedBelow(shapes, t, k)[b]
  {
    if k > 0 {
      LinkedBelowIncreasing(shapes, t, k - 1);
    }
  }

  /** Triangle u is listed for t exactly when u is another triangle of the mesh adjacent to t. */
  lemma NeighborIndicesMembership(shapes: seq<Triple>, t: nat, u: int)
    requires t < |shapes|
    ensures u in NeighborIndices(shapes, t) <==> 0 <= u < |shapes| && u != t && Adjacent(shapes[t], shapes[u])
  {
    LinkedBelowMembership(shapes, t, |shapes|, u);
  }

  /** The neighbour relation is symmetric. */
  lemma NeighborIndicesSymmetric(shapes: seq<Triple>, t: nat, u: nat)
    requires t < |shapes| && u < |shapes|
    ensures u in NeighborIndices(shapes, t) <==> t in NeighborIndices(shapes, u)
  {
    NeighborIndicesMembership(shapes, t, u);
    NeighborIndicesMembership(shapes, u, t);
    AdjacentSymmetric(shapes[t], shapes[u]);
  }

  /** No triangle is its own neighbour. */
  lemma NeighborIndicesNoSelfLoop(shapes: seq<Triple>, t: nat)
    requires t < |shapes|
    ensures t !in NeighborIndices(shapes, t)
  {
    NeighborIndicesMembership(shapes, t, t);
  }

  /** Each neighbour is listed once: the list is strictly increasing. */
  lemma NeighborIndicesOnce(shapes: seq<Triple>, t: nat)
    requires t < |shapes|
    ensures forall a, b :: 0 <= a < b < |NeighborIndices(shapes, t)| ==>
              NeighborIndices(shapes, t)[a] < NeighborIndices(shapes, t)[b]
  {
    LinkedBelowIncreasing(shapes, t, |shapes|);
  }

  /**
   * How far triangle t's list has got when the nested loop of BuildAdjacency is
   * about to test pair (i, j): rows before i are complete, row i has the entries
   * below j, and a later row t has the entries below i, plus i once j has passed t.
   */
  function Reach(n: nat, i: nat, j: nat, t: nat): nat {
    if t < i then n else if t == i then j else if t < j then i + 1 else i
  }

  /** How far triangle t's list has got before row i of BuildAdjacency: complete for earlier rows, entries below i otherwise. */
  function Done(n: nat, i: nat, t: nat): nat {
    if t < i then n else i
  }

  /** What testing pair (i, j) appends to triangle t's list. */
  function Linked(shapes: seq<Triple>, i: nat, j: nat, t: nat): seq<int>
    requires i < |shapes| && j < |shapes|
  {
    if t == i && Adjacent(shapes[i], shapes[j]) then [j]
    else if t == j && Adjacent(shapes[i], shapes[j]) then [i]
    else []
  }

  /** Testing pair (i, j) extends row i by j and row j by i when they are adjacent, and no other row. */
  lemma LinkStep(shapes: seq<Triple>, i: nat, j: nat, t: nat)
    requires i < j < |shapes| && t < |shapes|
    ensures LinkedBelow(shapes, t, Reach(|shapes|, i, j + 1, t)) == LinkedBelow(shapes, t, Reach(|shapes|, i, j, t)) + Linked(shapes, i, j, t)
  {
    AdjacentSymmetric(shapes[i], shapes[j]);
  }

  /** Every list just before BuildAdjacency tests pair (i, j): its initial contents plus the entries so far. */
  function Progress(shapes: seq<Triple>, base: seq<seq<int>>, i: nat, j: nat): (lists: seq<seq<int>>)
    requires |base| == |shapes| && i < j <= |shapes|
    ensures |lists| == |shapes|
  {
    seq(|shapes|, t requires 0 <= t < |shapes| => base[t] + LinkedBelow(shapes, t, Reach(|shapes|, i, j, t)))
  }

  /** Testing pair (i, j) takes every list from its state before j to its state before j + 1. */
  lemma ProgressStep(shapes: seq<Triple>, base: seq<seq<int>>, i: nat, j: nat)
    requires |base| == |shapes| && i < j < |shapes|
    ensures forall t :: 0 <= t < |shapes| ==>
              Progress(shapes, base, i, j + 1)[t] == Progress(shapes, base, i, j)[t] + Linked(shapes, i, j, t)
  {
    forall t | 0 <= t < |shapes|
      ensures Progress(shapes, base, i, j + 1)[t] == Progress(shapes, base, i, j)[t] + Linked(shapes, i, j, t)
    {
      LinkStep(shapes, i, j, t);
      ConcatAssoc(base[t], LinkedBelow(shapes, t, Reach(|shapes|, i, j, t)), Linked(shapes, i, j, t));
    }
  }

  /** Every list just before row i of BuildAdjacency: its initial contents plus the entries of the rows done. */
  function Rows(shapes: seq<Triple>, base: seq<seq<int>>, i: nat): (lists: seq<seq<int>>)
    requires |base| == |shapes| && i <= |shapes|
    ensures |lists| == |shapes|
  {
    seq(|shapes|, t requires 0 <= t < |shapes| => base[t] + LinkedBelow(shapes, t, Done(|shapes|, i, t)))
  }

  /** Row i starts where the previous rows left every list, since a triangle is never its own neighbour. */
  lemma RowStart(shapes: seq<Triple>, base: seq<seq<int>>, i: nat, j: nat)
    requires |base| == |shapes| && i < |shapes| && j == i + 1
    ensures Progress(shapes, base, i, j) == Rows(shapes, base, i)
  {
    assert LinkedBelow(shapes, i, i + 1) == LinkedBelow(shapes, i, i) + [];
    assert forall t :: 0 <= t < |shapes| ==> Progress(shapes, base, i, j)[t] == Rows(shapes, base, i)[t];
  }

  /** Once the inner loop has passed the last triangle, row i is complete. */
  lemma RowEnd(shapes: seq<Triple>, base: seq<seq<int>>, i: nat)
    requires |base| == |shapes| && i < |shapes|
    ensures Progress(shapes, base, i, |shapes|) == Rows(shapes, base, i + 1)
  {
    assert forall t :: 0 <= t < |shapes| ==> Progress(shapes, base, i, |shapes|)[t] == Rows(shapes, base, i + 1)[t];
  }

  /** Before the first row every list holds its initial contents; after the last it has gained exactly its neighbour indices. */
  lemma RowsEnds(shapes: seq<Triple>, base: seq<seq<int>>)
    requires |base| == |shapes|
    ensures forall t :: 0 <= t < |shapes| ==> Rows(shapes, base, 0)[t] == base[t]
    ensures forall t :: 0 <= t < |shapes| ==> Rows(shapes, base, |shapes|)[t] == base[t] + NeighborIndices(shapes, t)
  {
    assert forall t :: 0 <= t < |shapes| ==> base[t] + [] == base[t];
  }

  /**
   * One pass of BuildAdjacency's outer loop over the mesh's triangle list `ts`:
   * tests triangle i against every later triangle, and gives back the next row.
   * `position` tells the triangle objects apart.
   */
  method LinkRow(ts: seq<Triangle>, ghost shapes: seq<Triple>, ghost base: seq<seq<int>>,
                 ghost position: map<Triangle, int>, i: nat) returns (next: nat)
    requires i < |ts| == |shapes| == |base|
    requires forall t :: 0 <= t < |ts| ==> shapes[t] == ts[t].points
    requires forall t :: 0 <= t < |ts| ==> ts[t] in position && position[ts[t]] == t
    requires forall t :: 0 <= t < |ts| ==> ts[t].neighbors == Rows(shapes, base, i)[t]
    modifies ts
    ensures next == i + 1
    ensures forall t :: 0 <= t < |ts| ==> ts[t].neighbors == Rows(shapes, base, next)[t]
  {
    var n := |ts|;
    var j := i + 1;
    RowStart(shapes, base, i, j);
    while j != n
      invariant i < j <= n
      invariant forall t :: 0 <= t < n ==> ts[t].neighbors == Progress(shapes, base, i, j)[t]
      decreases n - j
    {
      j := LinkPair(ts, shapes, base, i, j);
    }
    RowEnd(shapes, base, i);
    next := i + 1;
  }

  /** The body of BuildAdjacency's inner loop: links i and j both ways when they are adjacent, and gives back the next column. */
  method LinkPair(ts: seq<Triangle>, ghost shapes: seq<Triple>, ghost base: seq<seq<int>>, i: nat, j: nat) returns (next: nat)
    requires i < j < |ts| == |shapes| == |base| && shapes[i] == ts[i].points && shapes[j] == ts[j].points
    requires forall t :: 0 <= t < |ts| && t != i ==> ts[t] != ts[i]
    requires forall t :: 0 <= t < |ts| && t != j ==> ts[t] != ts[j]
    requires forall t :: 0 <= t < |ts| ==> ts[t].neighbors == Progress(shapes, base, i, j)[t]
    modifies ts[i], ts[j]
    ensures next == j + 1
    ensures forall t :: 0 <= t < |ts| ==> ts[t].neighbors == Progress(shapes, base, i, next)[t]
  {
    var adjacent := ts[i].IsAdjacentTo(ts[j]);
    if adjacent {
      ts[i].AddNeighbor(j);
      ts[j].AddNeighbor(i);
    }
    next := j + 1;
    ProgressStep(shapes, base, i, j);
    forall t | 0 <= t < |ts|
      ensures ts[t].neighbors == old(ts[t].neighbors) + Linked(shapes, i, j, t)
    {
    }
  }

  // ---- List helpers the search uses ----

  /** List.Remove: drops the first occurrence of x, if any. */
  function RemoveFirst(s: seq<int>, x: int): (r: seq<int>)
    ensures x !in s ==> r == s
    ensures forall y :: y in r ==> y in s
    ensures multiset(r) == multiset(s) - multiset{x}
  {
    if |s| == 0 then []
    else if s[0] == x then assert s == [s[0]] + s[1..]; s[1..]
    else assert s == [s[0]] + s[1..]; [s[0]] + RemoveFirst(s[1..], x)
  }

  /** List.Reverse. */
  function Reversed(s: seq<int>): (r: seq<int>)
    ensures |r| == |s| && forall k :: 0 <= k < |s| ==> r[k] == s[|s| - 1 - k]
  {
    if |s| == 0 then [] else [s[|s| - 1]] + Reversed(s[..|s| - 1])
  }

  /**
   * The search's tie-breaking order on reached triangles: lower g-score first, and
   * among equal scores the one whose score was set earlier.
   */
  ghost predicate Before(gScore: map<int, real>, stamp: map<int, nat>, u: int, v: int) {
    && u in gScore && v in gScore && u in stamp && v in stamp
    && (gScore[u] < gScore[v] || (gScore[u] == gScore[v] && stamp[u] < stamp[v]))
  }

  class NavMesh {
    var triangles: seq<Triangle>

    /** The position of each triangle object in the list (proof bookkeeping). */
    ghost var indexOf: map<Triangle, int>

    /** Every triangle of the list is a different object: each sits at the one position `indexOf` gives. */
    ghost predicate Distinct()
      reads this
    {
      forall a :: 0 <= a < |triangles| ==> triangles[a] in indexOf && indexOf[triangles[a]] == a
    }

    /** Every neighbour index names a triangle of the list. */
    ghost predicate NeighborsInRange()
      reads this, triangles
    {
      forall t, k :: 0 <= t < |triangles| && 0 <= k < |triangles[t].neighbors| ==>
        0 <= triangles[t].neighbors[k] < |triangles|
    }

    /** `path` is a walk from start to end along the neighbour lists. */
    ghost predicate Route(start: int, end: int, path: seq<int>)
      reads this, triangles
    {
      && |path| > 0 && path[0] == start && path[|path| - 1] == end
      && (forall k :: 0 <= k < |path| ==> 0 <= path[k] < |triangles|)
      && (forall k :: 0 <= k < |path| - 1 ==> path[k + 1] in triangles[path[k]].neighbors)
    }

    /** Along the adjacency BuildAdjacency produces, each step of a route moves to a different, adjacent triangle. */
    lemma RouteStepsAdjacent(start: int, end: int, path: seq<int>, k: nat)
      requires forall t :: 0 <= t < |triangles| ==> triangles[t].neighbors == NeighborIndices(Shapes(triangles), t)
      requires Route(start, end, path) && k < |path| - 1
      ensures path[k] != path[k + 1] && Adjacent(triangles[path[k]].points, triangles[path[k + 1]].points)
    {
      NeighborIndicesMembership(Shapes(triangles), path[k], path[k + 1]);
    }

    /**
     * Projects the points onto the ground plane, builds one triangle per
     * consecutive index triple, in order, and links the adjacent ones.
     * The triangulation's index array is an input.
     */
    method GenerateNavMesh(points: seq<Vec3>, triangleIndices: seq<int>)
      requires |triangleIndices| % 3 == 0
      requires forall k :: 0 <= k < |triangleIndices| ==> 0 <= triangleIndices[k] < |points|
      modifies this
      ensures 3 * |triangles| == |triangleIndices|
      ensures forall t :: 0 <= t < |triangles| ==>
                triangles[t].points == [Ground(points[triangleIndices[3 * t]]),
                                        Ground(points[triangleIndices[3 * t + 1]]),
                                        Ground(points[triangleIndices[3 * t + 2]])]
      ensures forall t :: 0 <= t < |triangles| ==> fresh(triangles[t])
      ensures Distinct() && NeighborsInRange()
      ensures forall t :: 0 <= t < |triangles| ==> triangles[t].neighbors == NeighborIndices(Shapes(triangles), t)
    {
      var coords := Project(points);
      var list, position := MakeTriangles(coords, triangleIndices);
      triangles := list;
      indexOf := position;
      BuildAdjacency();
      forall t, k | 0 <= t < |triangles| && 0 <= k < |triangles[t].neighbors|
        ensures 0 <= triangles[t].neighbors[k] < |triangles|
      {
        NeighborIndicesMembership(Shapes(triangles), t, triangles[t].neighbors[k]);
      }
    }

    /** The array of ground-plane vertex positions: x and z of each point. */
    static method Project(points: seq<Vec3>) returns (coords: array<Vec2>)
      ensures fresh(coords) && coords.Length == |points|
      ensures forall k :: 0 <= k < |points| ==> coords[k] == Ground(points[k])
    {
      coords := new Vec2[|points|];
      for i := 0 to |points|
        invariant forall k :: 0 <= k < i ==> coords[k] == Ground(points[k])
      {
        coords[i] := Ground(points[i]);
      }
    }

    /** One new triangle per consecutive index triple, in order; `position` tells the new objects apart. */
    static method MakeTriangles(coords: array<Vec2>, triangleIndices: seq<int>)
      returns (list: seq<Triangle>, ghost position: map<Triangle, int>)
      requires |triangleIndices| % 3 == 0
      requires forall k :: 0 <= k < |triangleIndices| ==> 0 <= triangleIndices[k] < coords.Length
      ensures 3 * |list| == |triangleIndices|
      ensures forall t :: 0 <= t < |list| ==>
                list[t].points == [coords[triangleIndices[3 * t]], coords[triangleIndices[3 * t + 1]], coords[triangleIndices[3 * t + 2]]]
      ensures forall t :: 0 <= t < |list| ==> fresh(list[t]) && list[t].neighbors == []
      ensures forall t :: 0 <= t < |list| ==> list[t] in position && position[list[t]] == t
    {
      list := [];
      position := map[];
      var i := 0;
      while i < |triangleIndices|
        invariant 0 <= i <= |triangleIndices| && i % 3 == 0 && 3 * |list| == i
        invariant forall t :: 0 <= t < |list| ==>
                    list[t].points == [coords[triangleIndices[3 * t]], coords[triangleIndices[3 * t + 1]], coords[triangleIndices[3 * t + 2]]]
        invariant forall t :: 0 <= t < |list| ==> fresh(list[t]) && list[t].neighbors == []
        invariant forall t :: 0 <= t < |list| ==> list[t] in position && position[list[t]] == t
      {
        var triangle := new Triangle(coords[triangleIndices[i]], coords[triangleIndices[i + 1]], coords[triangleIndices[i + 2]]);
        position := position[triangle := |list|];
        list := list + [triangle];
        i := i + 3;
      }
    }

    /**
     * Tests every pair i < j once and, when the triangles are adjacent, appends
     * j to i's list and i to j's list.
     */
    method BuildAdjacency()
      requires Distinct()
      modifies triangles
      ensures forall t :: 0 <= t < |triangles| ==>
                triangles[t].neighbors == old(triangles[t].neighbors) + NeighborIndices(Shapes(triangles), t)
    {
      var ts := triangles;
      ghost var shapes := Shapes(ts);
      var n := |ts|;
      ghost var base: seq<seq<int>> := [];
      for k := 0 to n
        invariant |base| == k && forall t :: 0 <= t < k ==> base[t] == ts[t].neighbors
      {
        base := base + [ts[k].neighbors];
      }
      RowsEnds(shapes, base);
      var i := 0;
      while i != n
        invariant i <= n
        invariant forall t :: 0 <= t < n ==> ts[t].neighbors == Rows(shapes, base, i)[t]
        decreases n - i
      {
        i := LinkRow(ts, shapes, base, indexOf, i);
      }
    }

    /** The first index whose triangle contains the point, or -1; the containment test is an input. */
    method FindContainingTriangle(point: Vec2, inside: (Triple, Vec2) -> bool) returns (index: int)
      ensures -1 <= index < |triangles|
      ensures index >= 0 ==> inside(triangles[index].points, point)
      ensures forall k :: 0 <= k < |triangles| && (index == -1 || k < index) ==> !inside(triangles[k].points, point)
    {
      for i := 0 to |triangles|
        invariant forall k :: 0 <= k < i ==> !inside(triangles[k].points, point)
      {
        if inside(triangles[i].points, point) {
          return i;
        }
      }
      return -1;
    }

    /** Some triangle of the mesh contains the point. */
    predicate Covers(point: Vec2, inside: (Triple, Vec2) -> bool)
      reads this
    {
      exists k :: 0 <= k < |triangles| && inside(triangles[k].points, point)
    }

    /**
     * Locates the triangles under the two endpoints (projected onto the ground
     * plane), searches a triangle path between them and smooths it. The
     * containment test, the centroid distance and the smoothing are inputs.
     */
    method FindPath(start: Vec3, end: Vec3, inside: (Triple, Vec2) -> bool, distance: (Vec2, Vec2) -> real,
                    smooth: (seq<int>, seq<Triple>, Vec2, Vec2) -> seq<Vec3>, budget: nat)
      returns (waypoints: seq<Vec3>, ghost trianglePath: seq<int>)
      requires NeighborsInRange()
      requires forall p, q :: distance(p, q) >= 0.0
      ensures !Covers(Ground(start), inside) || !Covers(Ground(end), inside) ==> waypoints == [] && trianglePath == []
      ensures Covers(Ground(start), inside) && Covers(Ground(end), inside) ==>
                waypoints == smooth(trianglePath, Shapes(triangles), Ground(start), Ground(end))
      ensures trianglePath != [] ==>
                && Route(trianglePath[0], trianglePath[|trianglePath| - 1], trianglePath)
                && inside(triangles[trianglePath[0]].points, Ground(start))
                && inside(triangles[trianglePath[|trianglePath| - 1]].points, Ground(end))
    {
      var startPos := Ground(start);
      var endPos := Ground(end);
      var startTri := FindContainingTriangle(startPos, inside);
      var endTri := FindContainingTriangle(endPos, inside);
      if startTri == -1 || endTri == -1 {
        waypoints, trianglePath := [], [];
        return;
      }
      var path := FindTrianglePath(startTri, endTri, distance, budget);
      trianglePath := path;
      waypoints := smooth(path, Shapes(triangles), startPos, endPos);
    }

    /** What the search keeps true about its score maps, its predecessor map and its open set. */
    ghost predicate SearchInv(start: int, gScore: map<int, real>, fScore: map<int, real>, cameFrom: map<int, int>,
                              openSet: seq<int>, stamp: map<int, nat>, clock: nat)
      reads this, triangles
    {
      && 0 <= start < |triangles|
      && (forall v :: 0 <= v < |triangles| ==> v in gScore && v in fScore && v in stamp && stamp[v] < clock)
      && (forall v :: v in cameFrom ==> TreeEdge(start, gScore, cameFrom, stamp, v))
      && (forall v :: v in openSet ==> 0 <= v < |triangles| && (v == start || v in cameFrom))
    }

    /**
     * v's predecessor is a triangle whose neighbour list holds v, from which the
     * predecessor chain goes on (or it is the start), and which comes before v.
     */
    ghost predicate TreeEdge(start: int, gScore: map<int, real>, cameFrom: map<int, int>, stamp: map<int, nat>, v: int)
      reads this, triangles
      requires v in cameFrom
    {
      && 0 <= v < |triangles| && 0 <= cameFrom[v] < |triangles|
      && v in triangles[cameFrom[v]].neighbors
      && (cameFrom[v] == start || cameFrom[v] in cameFrom)
      && Before(gScore, stamp, cameFrom[v], v)
    }

    /**
     * A* from triangle start to triangle end, scored by centroid distances.
     * The search loop runs at most `budget` rounds.
     */
    method FindTrianglePath(start: int, end: int, distance: (Vec2, Vec2) -> real, budget: nat) returns (path: seq<int>)
      requires 0 <= start < |triangles| && 0 <= end < |triangles|
      requires NeighborsInRange()
      requires forall p, q :: distance(p, q) >= 0.0
      ensures start == end ==> path == [start]
      ensures path == [] || Route(start, end, path)
    {
      path := [];
      if start == end {
        path := path + [start];
        return;
      }
      var n := |triangles|;
      var gScore: map<int, real> := map[];
      var fScore: map<int, real> := map[];
      var cameFrom: map<int, int> := map[];
      var openSet: seq<int> := [];
      ghost var stamp: map<int, nat> := map[];
      for i := 0 to n
        invariant forall v :: 0 <= v < i ==> v in gScore && v in fScore && v in stamp && stamp[v] == 0
      {
        gScore := gScore[i := FloatMax];
        fScore := fScore[i := FloatMax];
        stamp := stamp[i := 0];
      }
      gScore := gScore[start := 0.0];
      fScore := fScore[start := distance(triangles[start].Centroid(), triangles[end].Centroid())];
      openSet := openSet + [start];
      ghost var clock: nat := 1;
      var rounds := budget;
      while 0 < |openSet| && 0 < rounds
        invariant SearchInv(start, gScore, fScore, cameFrom, openSet, stamp, clock)
        invariant path == []
        decreases rounds
      {
        var current := LowestScore(openSet, fScore);
        assert current == start || current in cameFrom;
        if current == end {
          path := ReconstructPath(start, end, cameFrom, gScore, stamp);
          return;
        }
        openSet := RemoveFirst(openSet, current);
        gScore, fScore, cameFrom, openSet, stamp, clock := Relax(start, end, current, distance, gScore, fScore, cameFrom, openSet, stamp, clock);
        rounds := rounds - 1;
      }
    }

    /** The entry of the open set with the lowest f-score, the first such on ties. */
    method LowestScore(openSet: seq<int>, fScore: map<int, real>) returns (current: int)
      requires |openSet| > 0 && forall k :: 0 <= k < |openSet| ==> openSet[k] in fScore
      ensures current in openSet
      ensures forall k :: 0 <= k < |openSet| ==> fScore[current] <= fScore[openSet[k]]
      ensures exists at :: 0 <= at < |openSet| && openSet[at] == current &&
                forall k :: 0 <= k < at ==> fScore[current] < fScore[openSet[k]]
    {
      current := openSet[0];
      var minF := fScore[current];
      ghost var at := 0;
      for i := 1 to |openSet|
        invariant 0 <= at < i && openSet[at] == current && minF == fScore[current]
        invariant forall k :: 0 <= k < i ==> minF <= fScore[openSet[k]]
        invariant forall k :: 0 <= k < at ==> minF < fScore[openSet[k]]
      {
        if fScore[openSet[i]] < minF {
          current := openSet[i];
          minF := fScore[current];
          at := i;
        }
      }
    }

    /**
     * Relaxes every neighbour of `current`: a neighbour whose score through
     * `current` is lower takes `current` as predecessor, gets the new g- and
     * f-scores, and joins the open set if it is not already there.
     */
    method Relax(start: int, end: int, current: int, distance: (Vec2, Vec2) -> real,
                 gScore: map<int, real>, fScore: map<int, real>, cameFrom: map<int, int>, openSet: seq<int>,
                 ghost stamp: map<int, nat>, ghost clock: nat)
      returns (gScore': map<int, real>, fScore': map<int, real>, cameFrom': map<int, int>, openSet': seq<int>,
               ghost stamp': map<int, nat>, ghost clock': nat)
      requires SearchInv(start, gScore, fScore, cameFrom, openSet, stamp, clock)
      requires 0 <= current < |triangles| && 0 <= end < |triangles| && (current == start || current in cameFrom)
      requires NeighborsInRange()
      requires forall p, q :: distance(p, q) >= 0.0
      ensures SearchInv(start, gScore', fScore', cameFrom', openSet', stamp', clock')
    {
      gScore', fScore', cameFrom', openSet', stamp', clock' := gScore, fScore, cameFrom, openSet, stamp, clock;
      var neighbors := triangles[current].neighbors;
      for k := 0 to |neighbors|
        invariant SearchInv(start, gScore', fScore', cameFrom', openSet', stamp', clock')
        invariant current == start || current in cameFrom'
      {
        var neighbor := neighbors[k];
        assert 0 <= neighbor < |triangles|;
        var tentativeG := gScore'[current] + distance(triangles[current].Centroid(), triangles[neighbor].Centroid());
        if tentativeG < gScore'[neighbor] {
          gScore', fScore', cameFrom', openSet', stamp', clock' :=
            Improve(start, end, current, neighbor, tentativeG, distance, gScore', fScore', cameFrom', openSet', stamp', clock');
        }
      }
    }

    /** One successful relaxation of `neighbor` through `current`. */
    method Improve(start: int, end: int, current: int, neighbor: int, tentativeG: real, distance: (Vec2, Vec2) -> real,
                   gScore: map<int, real>, fScore: map<int, real>, cameFrom: map<int, int>, openSet: seq<int>,
                   ghost stamp: map<int, nat>, ghost clock: nat)
      returns (gScore': map<int, real>, fScore': map<int, real>, cameFrom': map<int, int>, openSet': seq<int>,
               ghost stamp': map<int, nat>, ghost clock': nat)
      requires SearchInv(start, gScore, fScore, cameFrom, openSet, stamp, clock)
      requires 0 <= current < |triangles| && 0 <= end < |triangles| && (current == start || current in cameFrom)
      requires 0 <= neighbor < |triangles| && neighbor in triangles[current].neighbors
      requires gScore[current] <= tentativeG < gScore[neighbor]
      ensures SearchInv(start, gScore', fScore', cameFrom', openSet', stamp', clock')
      ensures current == start || current in cameFrom'
      ensures gScore' == gScore[neighbor := tentativeG] && cameFrom' == cameFrom[neighbor := current]
      ensures fScore' == fScore[neighbor := tentativeG + distance(triangles[neighbor].Centroid(), triangles[end].Centroid())]
      ensures openSet' == if neighbor in openSet then openSet else openSet + [neighbor]
    {
      cameFrom' := cameFrom[neighbor := current];
      gScore' := gScore[neighbor := tentativeG];
      fScore' := fScore[neighbor := gScore'[neighbor] + distance(triangles[neighbor].Centroid(), triangles[end].Centroid())];
      openSet' := openSet;
      if neighbor !in openSet {
        openSet' := openSet' + [neighbor];
      }
      stamp' := stamp[neighbor := clock];
      clock' := clock + 1;
      forall v | v in cameFrom'
        ensures TreeEdge(start, gScore', cameFrom', stamp', v)
      {
        if v != neighbor {
          assert TreeEdge(start, gScore, cameFrom, stamp, v);
        }
      }
    }

    /**
     * Follows the predecessor map back from end until it reaches a triangle
     * without a predecessor, appends start and reverses the list.
     */
    method ReconstructPath(start: int, end: int, cameFrom: map<int, int>, ghost gScore: map<int, real>,
                           ghost stamp: map<int, nat>)
      returns (path: seq<int>)
      requires end in cameFrom
      requires forall v :: v in cameFrom ==> TreeEdge(start, gScore, cameFrom, stamp, v)
      ensures |path| >= 2 && Route(start, end, path)
    {
      var walk: seq<int> := [];
      var current := end;
      ghost var visited: set<int> := {};
      while current in cameFrom
        invariant current == start || current in cameFrom
        invariant current in gScore && current in stamp
        invariant |walk| == 0 ==> current == end
        invariant |walk| > 0 ==> walk[0] == end && walk[|walk| - 1] in cameFrom && cameFrom[walk[|walk| - 1]] == current
        invariant forall k :: 0 <= k < |walk| - 1 ==> walk[k] in cameFrom && cameFrom[walk[k]] == walk[k + 1]
        invariant visited <= cameFrom.Keys
        invariant forall w :: w in visited ==> Before(gScore, stamp, current, w)
        decreases |cameFrom.Keys - visited|
      {
        assert current !in visited;
        assert cameFrom.Keys - (visited + {current}) < cameFrom.Keys - visited;
        walk := walk + [current];
        visited := visited + {current};
        current := cameFrom[current];
      }
      walk := walk + [start];
      path := Reversed(walk);
      WalkRoute(start, end, cameFrom, gScore, stamp, walk);
    }

    /** A predecessor chain from end back to start, read backwards, is a route from start to end. */
    lemma WalkRoute(start: int, end: int, cameFrom: map<int, int>, gScore: map<int, real>, stamp: map<int, nat>, walk: seq<int>)
      requires forall v :: v in cameFrom ==> TreeEdge(start, gScore, cameFrom, stamp, v)
      requires |walk| >= 2 && walk[0] == end && walk[|walk| - 1] == start
      requires forall k :: 0 <= k < |walk| - 1 ==> walk[k] in cameFrom && cameFrom[walk[k]] == walk[k + 1]
      ensures Route(start, end, Reversed(walk))
    {
      var path := Reversed(walk);
      forall k | 0 <= k < |path| - 1
        ensures 0 <= path[k] < |triangles| && path[k + 1] in triangles[path[k]].neighbors
      {
        assert TreeEdge(start, gScore, cameFrom, stamp, path[k + 1]);
      }
      assert TreeEdge(start, gScore, cameFrom, stamp, end);
    }
  }
}
