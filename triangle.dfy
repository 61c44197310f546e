/**
 * One triangle of the navigation mesh: its three vertices, the indices of the
 * triangles it shares an edge with, the shared-vertex adjacency test and the centroid.
 */
module Triangles {
  import opened Vectors

  /** Exactly three vertices, as in the fixed-size Points array. */
  type Triple = s: seq<Vec2> | |s| == 3 witness [Vec2(0.0, 0.0), Vec2(0.0, 0.0), Vec2(0.0, 0.0)]

  /** Unity's Vector2.kEpsilon. */
  const Epsilon: real := 0.00001

  function Square(v: real): real {
    v * v
  }

  /** Vector2's `==`: the squared distance between the two points is below kEpsilon squared. */
  predicate SameVertex(p: Vec2, q: Vec2) {
    Square(p.x - q.x) + Square(p.y - q.y) < Epsilon * Epsilon
  }

  lemma SameVertexSymmetric(p: Vec2, q: Vec2)
    ensures SameVertex(p, q) <==> SameVertex(q, p)
  {
    assert Square(p.x - q.x) == Square(q.x - p.x);
    assert Square(p.y - q.y) == Square(q.y - p.y);
  }

  lemma SameVertexReflexive(p: Vec2)
    ensures SameVertex(p, p)
  {
  }

  /** How many of the first k entries of `qs` equal `p`. */
  function Matches(p: Vec2, qs: seq<Vec2>, k: nat): nat
    requires k <= |qs|
  {
    if k == 0 then 0
    else Matches(p, qs, k - 1) + (if SameVertex(p, qs[k - 1]) then 1 else 0)
  }

  /** How many pairs (ps[i], qs[j]) with i < a and j < b are equal. */
  function Pairs(ps: seq<Vec2>, qs: seq<Vec2>, a: nat, b: nat): nat
    requires a <= |ps| && b <= |qs|
  {
    if a == 0 then 0
    else Pairs(ps, qs, a - 1, b) + Matches(ps[a - 1], qs, b)
  }

  /** The number of equal (own vertex, other vertex) pairs that IsAdjacentTo counts. */
  function SharedVertices(ps: Triple, qs: Triple): nat {
    Pairs(ps, qs, |ps|, |qs|)
  }

  /** Two triangles are neighbours when at least two vertex pairs coincide. */
  predicate Adjacent(ps: Triple, qs: Triple) {
    SharedVertices(ps, qs) >= 2
  }

  lemma {:induction false} PairsNoColumns(qs: seq<Vec2>, ps: seq<Vec2>, b: nat)
    requires b <= |qs|
    ensures Pairs(qs, ps, b, 0) == 0
  {
    if b > 0 {
      PairsNoColumns(qs, ps, b - 1);
    }
  }

  /** Widening the column range by ps[a] adds exactly the matches of ps[a]. */
  lemma {:induction false} PairsColumnStep(ps: seq<Vec2>, qs: seq<Vec2>, a: nat, b: nat)
    requires a < |ps| && b <= |qs|
    ensures Pairs(qs, ps, b, a + 1) == Pairs(qs, ps, b, a) + Matches(ps[a], qs, b)
  {
    if b > 0 {
      PairsColumnStep(ps, qs, a, b - 1);
      SameVertexSymmetric(ps[a], qs[b - 1]);
    }
  }

  /** Counting pairs row-wise or column-wise gives the same number. */
  lemma {:induction false} PairsSwap(ps: seq<Vec2>, qs: seq<Vec2>, a: nat, b: nat)
    requires a <= |ps| && b <= |qs|
    ensures Pairs(ps, qs, a, b) == Pairs(qs, ps, b, a)
  {
    if a == 0 {
      PairsNoColumns(qs, ps, b);
    } else {
      PairsSwap(ps, qs, a - 1, b);
      PairsColumnStep(ps, qs, a - 1, b);
    }
  }

  lemma SharedVerticesSymmetric(ps: Triple, qs: Triple)
    ensures SharedVertices(ps, qs) == SharedVertices(qs, ps)
  {
    PairsSwap(ps, qs, |ps|, |qs|);
  }

  /** The adjacency test does not depend on which triangle asks. */
  lemma AdjacentSymmetric(ps: Triple, qs: Triple)
    ensures Adjacent(ps, qs) <==> Adjacent(qs, ps)
  {
    SharedVerticesSymmetric(ps, qs);
  }

  lemma {:induction false} MatchesFound(p: Vec2, qs: seq<Vec2>, k: nat, j: nat)
    requires j < k <= |qs| && SameVertex(p, qs[j])
    ensures Matches(p, qs, k) >= 1
  {
    if j < k - 1 {
      MatchesFound(p, qs, k - 1, j);
    }
  }

  /** Every vertex matches at least itself. */
  lemma {:induction false} PairsWithSelf(ps: seq<Vec2>, a: nat)
    requires a <= |ps|
    ensures Pairs(ps, ps, a, |ps|) >= a
  {
    if a > 0 {
      PairsWithSelf(ps, a - 1);
      SameVertexReflexive(ps[a - 1]);
      MatchesFound(ps[a - 1], ps, |ps|, a - 1);
    }
  }

  /** A triangle shares all three of its vertices with itself, so it is adjacent to itself. */
  lemma AdjacentReflexive(ps: Triple)
    ensures SharedVertices(ps, ps) >= 3 && Adjacent(ps, ps)
  {
    PairsWithSelf(ps, |ps|);
  }

  class Triangle {
    /** The Points array: written once by the constructor and never again. */
    const points: Triple
    var neighbors: seq<int>

    /** Stores a, b, c in slots 0, 1, 2; the neighbour list starts empty. */
    constructor (a: Vec2, b: Vec2, c: Vec2)
      ensures points == [a, b, c] && neighbors == []
    {
      points := [a, b, c];
      neighbors := [];
    }

    /** Counts the equal (own vertex, other vertex) pairs with two nested loops. */
    method IsAdjacentTo(other: Triangle) returns (adjacent: bool)
      ensures adjacent <==> SharedVertices(points, other.points) >= 2
      ensures adjacent <==> Adjacent(points, other.points)
    {
      var sharedVertices := 0;
      for i := 0 to |points|
        invariant sharedVertices == Pairs(points, other.points, i, |other.points|)
      {
        for j := 0 to |other.points|
          invariant sharedVertices == Pairs(points, other.points, i, |other.points|) + Matches(points[i], other.points, j)
        {
          if SameVertex(points[i], other.points[j]) {
            sharedVertices := sharedVertices + 1;
          }
        }
      }
      adjacent := sharedVertices >= 2;
    }

    /** Appends one index to the neighbour list; the vertices are constant. */
    method AddNeighbor(index: int)
      modifies this
      ensures neighbors == old(neighbors) + [index]
    {
      neighbors := neighbors + [index];
    }

    /** The vertex mean, which lies inside the box spanned by the vertices. */
    function Centroid(): (c: Vec2)
      ensures 3.0 * c.x == points[0].x + points[1].x + points[2].x
      ensures 3.0 * c.y == points[0].y + points[1].y + points[2].y
      ensures Min3(points[0].x, points[1].x, points[2].x) <= c.x <= Max3(points[0].x, points[1].x, points[2].x)
      ensures Min3(points[0].y, points[1].y, points[2].y) <= c.y <= Max3(points[0].y, points[1].y, points[2].y)
    {
      Divide(Add(Add(points[0], points[1]), points[2]), 3.0)
    }
  }

  function Min3(a: real, b: real, c: real): real {
    if a <= b && a <= c then a else if b <= c then b else c
  }

  function Max3(a: real, b: real, c: real): real {
    if a >= b && a >= c then a else if b >= c then b else c
  }
}
