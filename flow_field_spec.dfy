/**
 * What the flow field computes, stated on values: the grid's coordinates, its
 * obstacles, the target and the cost of every cell. The class HexFlowField is
 * proved to produce states that satisfy these predicates; the lemmas here say
 * what such states mean (exact hop distances, descent to the target).
 */
module FlowFieldSpec {
  import opened Wrappers
  import opened HexMath

  /** int.MaxValue, the "not reached / blocked" cost sentinel. */
  const IntMaxValue: int := 0x7fff_ffff

  /**
   * A cell's bestDirection: the zero vector, or the normalised vector from the
   * cell's centre toward the centre of the named neighbour.
   */
  datatype Dir = Zero | Toward(cell: Coord)

  /**
   * One relaxation edge of the cost propagation: the search leaves from `u`
   * (the target, or a non-obstacle cell) to its grid neighbour `v`, which must not be an obstacle.
   */
  predicate Step(keys: set<Coord>, obstacles: set<Coord>, target: Coord, u: Coord, v: Coord) {
    u in keys && v in keys && Adjacent(u, v) && v !in obstacles && (u == target || u !in obstacles)
  }

  /** A walk of the propagation from the target; it takes |path| - 1 hops. */
  ghost predicate IsPath(keys: set<Coord>, obstacles: set<Coord>, target: Coord, path: seq<Coord>) {
    && |path| >= 1 && path[0] == target
    && (forall i :: 0 <= i < |path| ==> path[i] in keys)
    && forall i :: 0 <= i < |path| - 1 ==> Step(keys, obstacles, target, path[i], path[i + 1])
  }

  /**
   * The state the breadth-first propagation ends in: the target costs 0, every
   * edge is relaxed, and every finite cost other than the target's is justified
   * by a cheaper predecessor.
   */
  ghost predicate Settled(keys: set<Coord>, obstacles: set<Coord>, target: Coord, cost: map<Coord, int>) {
    && target in keys && keys <= cost.Keys
    && cost[target] == 0
    && (forall v :: v in keys ==> 0 <= cost[v] <= IntMaxValue)
    && (forall u, v :: Step(keys, obstacles, target, u, v) && cost[u] < IntMaxValue ==> cost[v] <= cost[u] + 1)
    && (forall v :: v in keys && v != target && v !in obstacles && cost[v] < IntMaxValue ==>
          exists u :: Step(keys, obstacles, target, u, v) && cost[u] < cost[v])
  }

  /** Every path bounds the cost of the cell it ends in. */
  lemma {:induction false} PathBoundsCost(keys: set<Coord>, obstacles: set<Coord>, target: Coord,
                                          cost: map<Coord, int>, path: seq<Coord>)
    requires Settled(keys, obstacles, target, cost)
    requires IsPath(keys, obstacles, target, path)
    ensures cost[path[|path| - 1]] <= |path| - 1
  {
    if |path| > 1 {
      var prefix := path[..|path| - 1];
      assert IsPath(keys, obstacles, target, prefix) by {
        forall i | 0 <= i < |prefix| - 1
          ensures Step(keys, obstacles, target, prefix[i], prefix[i + 1])
        {
          assert prefix[i] == path[i] && prefix[i + 1] == path[i + 1];
        }
      }
      PathBoundsCost(keys, obstacles, target, cost, prefix);
      assert Step(keys, obstacles, target, path[|path| - 2], path[|path| - 1]);
    }
  }

  /** Every finite cost is the length of some path: follow cheaper predecessors back to the target. */
  lemma {:induction false} CostHasPath(keys: set<Coord>, obstacles: set<Coord>, target: Coord,
                                       cost: map<Coord, int>, v: Coord) returns (path: seq<Coord>)
    requires Settled(keys, obstacles, target, cost)
    requires v in keys && (v == target || v !in obstacles) && cost[v] < IntMaxValue
    ensures IsPath(keys, obstacles, target, path) && path[|path| - 1] == v
    ensures |path| - 1 <= cost[v]
    decreases cost[v]
  {
    if v == target {
      path := [target];
    } else {
      var u :| Step(keys, obstacles, target, u, v) && cost[u] < cost[v];
      var prefix := CostHasPath(keys, obstacles, target, cost, u);
      path := prefix + [v];
      forall i | 0 <= i < |path| - 1
        ensures Step(keys, obstacles, target, path[i], path[i + 1])
      {
        if i < |path| - 2 {
          assert path[i] == prefix[i] && path[i + 1] == prefix[i + 1];
        }
      }
    }
  }

  /**
   * The settled cost of the target or of a non-obstacle cell is its exact hop
   * distance from the target: a path of exactly that many hops exists, no path
   * is shorter, and a cell reachable in fewer than int.MaxValue hops has a finite cost.
   */
  lemma CostIsHopDistance(keys: set<Coord>, obstacles: set<Coord>, target: Coord,
                          cost: map<Coord, int>, v: Coord)
    requires Settled(keys, obstacles, target, cost)
    requires v in keys && (v == target || v !in obstacles)
    ensures cost[v] < IntMaxValue ==>
              exists path :: IsPath(keys, obstacles, target, path) && path[|path| - 1] == v && |path| - 1 == cost[v]
    ensures forall path :: IsPath(keys, obstacles, target, path) && path[|path| - 1] == v ==> cost[v] <= |path| - 1
    ensures (exists path :: IsPath(keys, obstacles, target, path) && path[|path| - 1] == v && |path| - 1 < IntMaxValue)
              ==> cost[v] < IntMaxValue
  {
    if cost[v] < IntMaxValue {
      var path := CostHasPath(keys, obstacles, target, cost, v);
      PathBoundsCost(keys, obstacles, target, cost, path);
    }
    forall path | IsPath(keys, obstacles, target, path) && path[|path| - 1] == v
      ensures cost[v] <= |path| - 1
    {
      PathBoundsCost(keys, obstacles, target, cost, path);
    }
  }

  /** A cell that no path reaches keeps the sentinel. */
  lemma UnreachableStaysAtSentinel(keys: set<Coord>, obstacles: set<Coord>, target: Coord,
                                   cost: map<Coord, int>, v: Coord)
    requires Settled(keys, obstacles, target, cost)
    requires v in keys && v !in obstacles
    requires forall path :: IsPath(keys, obstacles, target, path) ==> path[|path| - 1] != v
    ensures cost[v] == IntMaxValue
  {
    if cost[v] < IntMaxValue {
      var path := CostHasPath(keys, obstacles, target, cost, v);
    }
  }

  // ---- The propagation, one dequeued cell at a time ----

  /** Dequeuing `u` lowers the cost of `v`: v is a passable grid neighbour and cost[u] + 1 beats its cost. */
  predicate Improves(keys: set<Coord>, obstacles: set<Coord>, cost: map<Coord, int>, u: Coord, v: Coord) {
    u in cost && v in cost && v in keys && Adjacent(u, v) && v !in obstacles && cost[u] + 1 < cost[v]
  }

  /** The costs after the dequeued cell `u` has offered cost[u] + 1 to each of its passable neighbours. */
  function Relax(keys: set<Coord>, obstacles: set<Coord>, cost: map<Coord, int>, u: Coord): (r: map<Coord, int>)
    requires u in cost
    ensures r.Keys == cost.Keys
    ensures r[u] == cost[u]
    ensures forall v :: v in cost ==> r[v] <= cost[v]
    ensures forall v :: v in cost && v !in keys ==> r[v] == cost[v]
    ensures forall v :: v in obstacles && v in cost ==> r[v] == cost[v]
    ensures forall v :: v in keys && v in cost && Adjacent(u, v) && v !in obstacles ==> r[v] <= cost[u] + 1
  {
    AdjacentIrreflexive(u);
    map v | v in cost :: if Improves(keys, obstacles, cost, u, v) then cost[u] + 1 else cost[v]
  }

  /**
   * The costs after `u` has offered cost[u] + 1, in turn, to the cells of `ns`:
   * a passable cell takes the offer when it beats the cost it held before.
   */
  function RelaxAlong(obstacles: set<Coord>, cost: map<Coord, int>, u: Coord, ns: seq<Coord>): (r: map<Coord, int>)
    requires u in cost
    ensures r.Keys == cost.Keys
  {
    map p | p in cost :: if p in ns && p !in obstacles && cost[u] + 1 < cost[p] then cost[u] + 1 else cost[p]
  }

  /**
   * Offering to one more cell v: the offer is taken exactly when v is passable
   * and it beats v's current cost, and then v had not been improved before.
   */
  lemma RelaxAlongSnoc(obstacles: set<Coord>, cost: map<Coord, int>, u: Coord, ns: seq<Coord>, v: Coord)
    requires u in cost && v in cost
    ensures var cc := RelaxAlong(obstacles, cost, u, ns);
            if v !in obstacles && cost[u] + 1 < cc[v] then
              && v !in ns && cost[u] + 1 < cost[v]
              && RelaxAlong(obstacles, cost, u, ns + [v]) == cc[v := cost[u] + 1]
            else RelaxAlong(obstacles, cost, u, ns + [v]) == cc
  {
  }

  /** Offering to exactly the grid neighbours of u is the relaxation of u. */
  lemma RelaxAlongNeighbors(keys: set<Coord>, obstacles: set<Coord>, cost: map<Coord, int>, u: Coord, ns: seq<Coord>)
    requires u in cost && keys <= cost.Keys && NeighborList(keys, u, ns)
    ensures RelaxAlong(obstacles, cost, u, ns) == Relax(keys, obstacles, cost, u)
    ensures forall v :: v in ns && v !in obstacles && cost[u] + 1 < cost[v] <==> Improves(keys, obstacles, cost, u, v)
  {
  }

  /**
   * The invariant of the propagation loop, with `pending` the queue: every
   * waiting cell is the target or passable and has a finite cost, every edge
   * out of a cell that is not waiting is relaxed, and every finite cost is
   * justified by a cheaper predecessor.
   */
  ghost predicate Propagating(keys: set<Coord>, obstacles: set<Coord>, target: Coord,
                              cost: map<Coord, int>, pending: seq<Coord>) {
    && target in keys && keys <= cost.Keys
    && cost[target] == 0
    && (forall v :: v in keys ==> 0 <= cost[v] <= IntMaxValue)
    && (forall k :: 0 <= k < |pending| ==>
          pending[k] in keys && (pending[k] == target || pending[k] !in obstacles) && cost[pending[k]] < IntMaxValue)
    && (forall u, v :: Step(keys, obstacles, target, u, v) && u !in pending && cost[u] < IntMaxValue ==>
          cost[v] <= cost[u] + 1)
    && (forall v :: v in keys && v != target && v !in obstacles && cost[v] < IntMaxValue ==>
          exists u :: Step(keys, obstacles, target, u, v) && cost[u] < cost[v])
  }

  /** The queue holding only the target, every other passable cell at int.MaxValue, starts the loop. */
  lemma PropagationStarts(keys: set<Coord>, obstacles: set<Coord>, target: Coord, cost: map<Coord, int>)
    requires target in keys && keys <= cost.Keys && cost[target] == 0
    requires forall v :: v in keys ==> 0 <= cost[v] <= IntMaxValue
    requires forall v :: v in keys && v != target && v !in obstacles ==> cost[v] == IntMaxValue
    ensures Propagating(keys, obstacles, target, cost, [target])
  {
  }

  /**
   * Dequeuing the head and enqueuing exactly the neighbours it improves keeps the invariant.
   */
  lemma PropagationStep(keys: set<Coord>, obstacles: set<Coord>, target: Coord,
                        cost: map<Coord, int>, pending: seq<Coord>, added: seq<Coord>)
    requires Propagating(keys, obstacles, target, cost, pending) && |pending| > 0
    requires forall v :: v in added <==> Improves(keys, obstacles, cost, pending[0], v)
    ensures Propagating(keys, obstacles, target, Relax(keys, obstacles, cost, pending[0]), pending[1..] + added)
  {
    StepKeepsPending(keys, obstacles, target, cost, pending, added);
    StepKeepsRelaxed(keys, obstacles, target, cost, pending, added);
    StepKeepsJustified(keys, obstacles, target, cost, pending, added);
  }

  lemma StepKeepsPending(keys: set<Coord>, obstacles: set<Coord>, target: Coord,
                         cost: map<Coord, int>, pending: seq<Coord>, added: seq<Coord>)
    requires Propagating(keys, obstacles, target, cost, pending) && |pending| > 0
    requires forall v :: v in added <==> Improves(keys, obstacles, cost, pending[0], v)
    ensures var r, next := Relax(keys, obstacles, cost, pending[0]), pending[1..] + added;
            forall k :: 0 <= k < |next| ==> next[k] in keys && (next[k] == target || next[k] !in obstacles) && r[next[k]] < IntMaxValue
  {
    var u0 := pending[0];
    var r := Relax(keys, obstacles, cost, u0);
    var next := pending[1..] + added;
    assert cost[u0] < IntMaxValue;
    forall k | 0 <= k < |next|
      ensures next[k] in keys && (next[k] == target || next[k] !in obstacles) && r[next[k]] < IntMaxValue
    {
      if k >= |pending| - 1 {
        assert next[k] in added;
      } else {
        assert next[k] == pending[k + 1];
      }
    }
  }

  lemma StepKeepsRelaxed(keys: set<Coord>, obstacles: set<Coord>, target: Coord,
                         cost: map<Coord, int>, pending: seq<Coord>, added: seq<Coord>)
    requires Propagating(keys, obstacles, target, cost, pending) && |pending| > 0
    requires forall v :: v in added <==> Improves(keys, obstacles, cost, pending[0], v)
    ensures var r, next := Relax(keys, obstacles, cost, pending[0]), pending[1..] + added;
            forall u, v :: Step(keys, obstacles, target, u, v) && u !in next && r[u] < IntMaxValue ==> r[v] <= r[u] + 1
  {
    var u0 := pending[0];
    var r := Relax(keys, obstacles, cost, u0);
    var next := pending[1..] + added;
    forall u, v | Step(keys, obstacles, target, u, v) && u !in next && r[u] < IntMaxValue
      ensures r[v] <= r[u] + 1
    {
      if u != u0 {
        RelaxedAwayFromHead(keys, obstacles, target, cost, pending, added, u, v);
      }
    }
  }

  /** An edge out of a cell that is neither the head nor waiting keeps its relaxed cost. */
  lemma RelaxedAwayFromHead(keys: set<Coord>, obstacles: set<Coord>, target: Coord,
                            cost: map<Coord, int>, pending: seq<Coord>, added: seq<Coord>, u: Coord, v: Coord)
    requires Propagating(keys, obstacles, target, cost, pending) && |pending| > 0
    requires forall v :: v in added <==> Improves(keys, obstacles, cost, pending[0], v)
    requires Step(keys, obstacles, target, u, v) && u != pending[0] && u !in pending[1..] + added
    requires Relax(keys, obstacles, cost, pending[0])[u] < IntMaxValue
    ensures Relax(keys, obstacles, cost, pending[0])[v] <= Relax(keys, obstacles, cost, pending[0])[u] + 1
  {
    var u0 := pending[0];
    assert u !in pending by {
      assert pending == [u0] + pending[1..];
    }
    assert u !in added;
  }

  lemma StepKeepsJustified(keys: set<Coord>, obstacles: set<Coord>, target: Coord,
                           cost: map<Coord, int>, pending: seq<Coord>, added: seq<Coord>)
    requires Propagating(keys, obstacles, target, cost, pending) && |pending| > 0
    ensures var r := Relax(keys, obstacles, cost, pending[0]);
            forall v :: v in keys && v != target && v !in obstacles && r[v] < IntMaxValue ==>
              exists u :: Step(keys, obstacles, target, u, v) && r[u] < r[v]
  {
    var u0 := pending[0];
    var r := Relax(keys, obstacles, cost, u0);
    forall v | v in keys && v != target && v !in obstacles && r[v] < IntMaxValue
      ensures exists u :: Step(keys, obstacles, target, u, v) && r[u] < r[v]
    {
      if Improves(keys, obstacles, cost, u0, v) {
        AdjacentSymmetric(u0, v);
        assert Step(keys, obstacles, target, u0, v) && r[u0] < r[v];
      } else {
        var u :| Step(keys, obstacles, target, u, v) && cost[u] < cost[v];
        assert r[u] < r[v];
      }
    }
  }

  /** An empty queue leaves the costs settled. */
  lemma PropagationEnds(keys: set<Coord>, obstacles: set<Coord>, target: Coord, cost: map<Coord, int>)
    requires Propagating(keys, obstacles, target, cost, [])
    ensures Settled(keys, obstacles, target, cost)
  {
  }

  // ---- Choosing the best neighbour ----

  /**
   * The neighbour-scan of the direction pass: starting from `bound`, keep the
   * first entry that is strictly cheaper than everything seen so far.
   */
  function FirstMinBelow(costs: seq<int>, bound: int): (r: Option<nat>)
    ensures r.Some? ==> r.value < |costs| && costs[r.value] < bound
    ensures r.Some? ==> forall j :: 0 <= j < |costs| ==> costs[r.value] <= costs[j]
    ensures r.Some? ==> forall j :: 0 <= j < r.value ==> costs[r.value] < costs[j]
    ensures r.None? <==> forall j :: 0 <= j < |costs| ==> bound <= costs[j]
  {
    if |costs| == 0 then None
    else
      var r := FirstMinBelow(costs[..|costs| - 1], bound);
      var best := if r.Some? then costs[r.value] else bound;
      if costs[|costs| - 1] < best then Some(|costs| - 1) else r
  }

  /** One more entry of the scan: it wins exactly when it is strictly below the best so far. */
  lemma FirstMinBelowStep(costs: seq<int>, j: nat, bound: int)
    requires j < |costs|
    ensures var r := FirstMinBelow(costs[..j], bound);
            var best := if r.Some? then costs[r.value] else bound;
            FirstMinBelow(costs[..j + 1], bound) == if costs[j] < best then Some(j) else r
  {
    assert costs[..j + 1][..j] == costs[..j];
  }

  /** The costs of p's neighbours, in neighbour-list order. */
  function NeighborCosts(keys: set<Coord>, cost: map<Coord, int>, p: Coord): (cs: seq<int>)
    requires keys <= cost.Keys
    ensures |cs| == |NeighborCoords(keys, p)|
    ensures forall i :: 0 <= i < |cs| ==> cs[i] == cost[NeighborCoords(keys, p)[i]]
  {
    var ns := NeighborCoords(keys, p);
    seq(|ns|, i requires 0 <= i < |ns| => cost[ns[i]])
  }

  /** The bestDirection the direction pass gives cell p. */
  function PickDirection(keys: set<Coord>, obstacles: set<Coord>, target: Coord,
                         cost: map<Coord, int>, p: Coord): Dir
    requires keys <= cost.Keys && p in keys
  {
    if cost[p] == IntMaxValue || p in obstacles || p == target then Zero
    else match FirstMinBelow(NeighborCosts(keys, cost, p), cost[p])
      case None => Zero
      case Some(i) => Toward(NeighborCoords(keys, p)[i])
  }

  /** No obstacle other than the target holds a finite cost. */
  predicate ObstaclesBlocked(obstacles: set<Coord>, target: Coord, cost: map<Coord, int>) {
    forall p :: p in obstacles && p in cost && p != target ==> cost[p] == IntMaxValue
  }

  /** Among passable cells, exactly the target costs 0. */
  lemma ZeroCostIsTarget(keys: set<Coord>, obstacles: set<Coord>, target: Coord,
                         cost: map<Coord, int>, p: Coord)
    requires Settled(keys, obstacles, target, cost)
    requires p in keys && p !in obstacles
    ensures cost[p] == 0 <==> p == target
  {
    if p != target && cost[p] < IntMaxValue {
      var u :| Step(keys, obstacles, target, u, p) && cost[u] < cost[p];
      assert 0 <= cost[u] < cost[p];
    }
  }

  /**
   * With obstacles blocked, every reached cell other than the target points to a
   * neighbour that is exactly one hop closer, and that neighbour is passable.
   */
  lemma DirectionDescends(keys: set<Coord>, obstacles: set<Coord>, target: Coord,
                          cost: map<Coord, int>, p: Coord)
    requires Settled(keys, obstacles, target, cost) && ObstaclesBlocked(obstacles, target, cost)
    requires p in keys && p !in obstacles && p != target && cost[p] < IntMaxValue
    ensures PickDirection(keys, obstacles, target, cost, p).Toward?
    ensures var n := PickDirection(keys, obstacles, target, cost, p).cell;
            n in keys && Adjacent(p, n) && (n == target || n !in obstacles) && cost[n] == cost[p] - 1
  {
    var ns := NeighborCoords(keys, p);
    var cs := NeighborCosts(keys, cost, p);
    var u :| Step(keys, obstacles, target, u, p) && cost[u] < cost[p];
    AdjacentSymmetric(u, p);
    NeighborCoordsMembership(keys, p, u);
    var k :| 0 <= k < |ns| && ns[k] == u;
    assert cs[k] < cost[p];
    var r := FirstMinBelow(cs, cost[p]);
    assert r.Some?;
    var n := ns[r.value];
    assert cost[n] < cost[p];
    assert n == target || n !in obstacles;
    AdjacentSymmetric(p, n);
    assert Step(keys, obstacles, target, n, p);
  }

  /** Where following bestDirection for k steps from p leads. */
  function Follow(dir: map<Coord, Dir>, p: Coord, k: nat): Coord
    decreases k
  {
    if k == 0 || p !in dir then p
    else match dir[p]
      case Zero => p
      case Toward(n) => Follow(dir, n, k - 1)
  }

  /** The directions of a settled field, one per cell. */
  predicate DirectionsPicked(keys: set<Coord>, obstacles: set<Coord>, target: Coord,
                             cost: map<Coord, int>, dir: map<Coord, Dir>)
    requires keys <= cost.Keys
  {
    forall p :: p in keys ==> p in dir && dir[p] == PickDirection(keys, obstacles, target, cost, p)
  }

  /**
   * Following bestDirection from any reached cell lowers the cost by one per
   * step and arrives at the target after exactly cost[p] steps.
   */
  lemma {:induction false} FollowReachesTarget(keys: set<Coord>, obstacles: set<Coord>, target: Coord,
                                               cost: map<Coord, int>, dir: map<Coord, Dir>, p: Coord)
    requires Settled(keys, obstacles, target, cost) && ObstaclesBlocked(obstacles, target, cost)
    requires DirectionsPicked(keys, obstacles, target, cost, dir)
    requires p in keys && (p == target || p !in obstacles) && cost[p] < IntMaxValue
    ensures Follow(dir, p, cost[p]) == target
    decreases cost[p]
  {
    if p != target {
      ZeroCostIsTarget(keys, obstacles, target, cost, p);
      DirectionDescends(keys, obstacles, target, cost, p);
      var d := PickDirection(keys, obstacles, target, cost, p);
      assert dir[p] == d;
      var n := d.cell;
      assert Follow(dir, p, cost[p]) == Follow(dir, n, cost[p] - 1);
      FollowReachesTarget(keys, obstacles, target, cost, dir, n);
    }
  }

  // ---- The stale obstacle cost ----

  /** The radius-1 hexagon. */
  const Hex1: set<Coord> :=
    {Coord(0, 0), Coord(1, 0), Coord(0, 1), Coord(-1, 1), Coord(-1, 0), Coord(0, -1), Coord(1, -1)}

  /**
   * In any grid holding (1,0) but not (2,-1), such as the radius-1 hexagon,
   * the corner (1,-1) lists (1,0) as its first neighbour.
   */
  lemma CornerFirstNeighbor(keys: set<Coord>)
    requires Coord(1, 0) in keys && Coord(2, -1) !in keys
    ensures |NeighborCoords(keys, Coord(1, -1))| > 0 && NeighborCoords(keys, Coord(1, -1))[0] == Coord(1, 0)
  {
    var p := Coord(1, -1);
    assert Plus(p, Directions[0]) == Coord(2, -1) && Plus(p, Directions[1]) == Coord(1, 0);
    FirstNeighbor(keys, p, 1, |Directions|);
  }

  /** A passable cell next to the target is one hop from it. */
  lemma NextToTargetCostsOne(keys: set<Coord>, obstacles: set<Coord>, target: Coord, cost: map<Coord, int>, p: Coord)
    requires Settled(keys, obstacles, target, cost)
    requires p in keys && p !in obstacles && p != target && Adjacent(target, p)
    ensures cost[p] == 1
  {
    assert Step(keys, obstacles, target, target, p);
    var u :| Step(keys, obstacles, target, u, p) && cost[u] < cost[p];
  }

  /** A zero in front of nonnegative costs is the first minimum below any positive bound. */
  lemma LeadingZeroIsFirstMin(costs: seq<int>, bound: int)
    requires |costs| > 0 && costs[0] == 0 < bound
    requires forall j :: 0 <= j < |costs| ==> costs[j] >= 0
    ensures FirstMinBelow(costs, bound) == Some(0)
  {
    var r := FirstMinBelow(costs, bound);
    assert r.Some?;
    assert costs[r.value] <= costs[0];
  }

  /** A cell at cost 1 whose first listed neighbour has cost 0 points at that neighbour. */
  lemma ZeroFirstNeighborPicked(keys: set<Coord>, obstacles: set<Coord>, target: Coord, cost: map<Coord, int>, p: Coord)
    requires keys <= cost.Keys && (forall v :: v in keys ==> cost[v] >= 0)
    requires p in keys && p !in obstacles && p != target && cost[p] == 1
    requires |NeighborCoords(keys, p)| > 0 && cost[NeighborCoords(keys, p)[0]] == 0
    ensures PickDirection(keys, obstacles, target, cost, p) == Toward(NeighborCoords(keys, p)[0])
  {
    var ns := NeighborCoords(keys, p);
    var cs := NeighborCosts(keys, cost, p);
    forall j | 0 <= j < |cs| ensures cs[j] >= 0 {
      assert ns[j] in keys;
    }
    LeadingZeroIsFirstMin(cs, cost[p]);
  }

  /**
   * An obstacle that still holds cost 0 (it was the previous target, and the
   * as-written reset skips obstacle costs) and is the first listed neighbour of
   * a passable cell p next to the new target captures p's direction: p points
   * at the obstacle, whose own direction is Zero, so following the directions
   * from p never arrives at the target (for example the corner (1,-1) of the
   * radius-1 hexagon with the obstacle (1,0) and the target (0,0)).
   */
  lemma StaleObstacleMisdirects(keys: set<Coord>, obstacles: set<Coord>, target: Coord,
                                 cost: map<Coord, int>, dir: map<Coord, Dir>, p: Coord)
    requires Settled(keys, obstacles, target, cost) && DirectionsPicked(keys, obstacles, target, cost, dir)
    requires p in keys && p !in obstacles && p != target && Adjacent(target, p)
    requires |NeighborCoords(keys, p)| > 0
    requires var x := NeighborCoords(keys, p)[0]; x in obstacles && x != target && cost[x] == 0
    ensures dir[p] == Toward(NeighborCoords(keys, p)[0])
    ensures forall k :: Follow(dir, p, k) != target
  {
    var x := NeighborCoords(keys, p)[0];
    NextToTargetCostsOne(keys, obstacles, target, cost, p);
    ZeroFirstNeighborPicked(keys, obstacles, target, cost, p);
    assert x in keys;
    assert dir[x] == PickDirection(keys, obstacles, target, cost, x) == Zero;
    forall k: nat ensures Follow(dir, p, k) != target {
      if k > 0 {
        assert Follow(dir, p, k) == Follow(dir, x, k - 1);
      }
    }
  }

  /**
   * The radius-1 state named above: cost 0 at the target (0,0) and at the
   * stale obstacle (1,0), cost 1 at every other cell.
   */
  predicate StaleCosts(cost: map<Coord, int>) {
    Hex1 <= cost.Keys && forall v :: v in Hex1 ==> cost[v] == if v == Coord(0, 0) || v == Coord(1, 0) then 0 else 1
  }

  /** Such costs are a settled state of the propagation toward (0,0) whenever (1,0) is an obstacle. */
  lemma StaleCostsSettled(obstacles: set<Coord>, cost: map<Coord, int>)
    requires Coord(1, 0) in obstacles && StaleCosts(cost)
    ensures Settled(Hex1, obstacles, Coord(0, 0), cost)
  {
    var t := Coord(0, 0);
    forall v | v in Hex1 && v != t && v !in obstacles && cost[v] < IntMaxValue
      ensures exists u :: Step(Hex1, obstacles, t, u, v) && cost[u] < cost[v]
    {
      assert Step(Hex1, obstacles, t, t, v);
    }
  }

  /** A cell pointing at a neighbour whose direction is Zero is stuck: following from it visits only those two cells. */
  lemma TrappedBehind(dir: map<Coord, Dir>, p: Coord, x: Coord, k: nat)
    requires p in dir && x in dir && dir[p] == Toward(x) && dir[x] == Zero
    ensures Follow(dir, p, k) == p || Follow(dir, p, k) == x
  {
    if k > 0 {
      assert Follow(dir, p, k) == Follow(dir, x, k - 1);
    }
  }

  /**
   * A passable cell at cost 1 whose first direction step leaves the grid and
   * whose second lands on a cell at cost 0 points at that second cell.
   */
  lemma SecondStepPicked(keys: set<Coord>, obstacles: set<Coord>, target: Coord, cost: map<Coord, int>, p: Coord)
    requires p in keys && Plus(p, Directions[0]) !in keys && Plus(p, Directions[1]) in keys
    requires p !in obstacles && p != target
    requires keys <= cost.Keys && (forall v :: v in keys ==> cost[v] >= 0)
    requires cost[p] == 1 && cost[Plus(p, Directions[1])] == 0
    ensures PickDirection(keys, obstacles, target, cost, p) == Toward(Plus(p, Directions[1]))
  {
    FirstNeighbor(keys, p, 1, |Directions|);
    ZeroFirstNeighborPicked(keys, obstacles, target, cost, p);
  }

  /**
   * In any grid holding (1,0) and (1,-1) but not (2,-1), such as the radius-1
   * hexagon, a cell (1,0) at cost 0, such as a stale obstacle, captures the
   * direction of a passable corner (1,-1) at cost 1.
   */
  lemma CornerPicksObstacle(keys: set<Coord>, obstacles: set<Coord>, cost: map<Coord, int>)
    requires Coord(1, -1) in keys && Coord(1, 0) in keys && Coord(2, -1) !in keys
    requires Coord(1, -1) !in obstacles
    requires keys <= cost.Keys && (forall v :: v in keys ==> cost[v] >= 0)
    requires cost[Coord(1, -1)] == 1 && cost[Coord(1, 0)] == 0
    ensures PickDirection(keys, obstacles, Coord(0, 0), cost, Coord(1, -1)) == Toward(Coord(1, 0))
  {
    var p := Coord(1, -1);
    assert Plus(p, Directions[0]) == Coord(2, -1) && Plus(p, Directions[1]) == Coord(1, 0);
    SecondStepPicked(keys, obstacles, Coord(0, 0), cost, p);
  }

  /**
   * So under the directions picked there (1,-1) points at the obstacle (1,0),
   * whose own direction is Zero, and following from (1,-1) never reaches (0,0).
   */
  lemma TrappedAtCorner(keys: set<Coord>, obstacles: set<Coord>, cost: map<Coord, int>, dir: map<Coord, Dir>)
    requires Coord(1, -1) in keys && Coord(1, 0) in keys && Coord(2, -1) !in keys
    requires Coord(1, 0) in obstacles && Coord(1, -1) !in obstacles
    requires keys <= cost.Keys && (forall v :: v in keys ==> cost[v] >= 0)
    requires cost[Coord(1, -1)] == 1 && cost[Coord(1, 0)] == 0
    requires DirectionsPicked(keys, obstacles, Coord(0, 0), cost, dir)
    ensures dir[Coord(1, -1)] == Toward(Coord(1, 0))
    ensures forall k :: Follow(dir, Coord(1, -1), k) != Coord(0, 0)
  {
    CornerPicksObstacle(keys, obstacles, cost);
    assert dir[Coord(1, -1)] == Toward(Coord(1, 0)) && dir[Coord(1, 0)] == Zero;
    forall k: nat ensures Follow(dir, Coord(1, -1), k) != Coord(0, 0) {
      TrappedBehind(dir, Coord(1, -1), Coord(1, 0), k);
    }
  }

  /** Such costs cover the radius-1 hexagon with nonnegative values, 1 at the corner (1,-1) and 0 at (1,0), which has no neighbour (2,-1). */
  lemma StaleCostsAtCorner(cost: map<Coord, int>)
    requires StaleCosts(cost)
    ensures Coord(1, -1) in Hex1 && Coord(1, 0) in Hex1 && Coord(2, -1) !in Hex1
    ensures Hex1 <= cost.Keys && (forall v :: v in Hex1 ==> cost[v] >= 0)
    ensures cost[Coord(1, -1)] == 1 && cost[Coord(1, 0)] == 0
  {
  }

  /**
   * The stale-obstacle case occurs: in the radius-1 hexagon with target (0,0),
   * when (1,0) is an obstacle left at cost 0 and the corner (1,-1) is not an
   * obstacle, the costs are settled, the corner points at (1,0) under the
   * directions picked from them, and following the directions from it never
   * reaches the target.
   */
  lemma StaleObstacleWitness(obstacles: set<Coord>, cost: map<Coord, int>, dir: map<Coord, Dir>)
    requires Coord(1, 0) in obstacles && Coord(1, -1) !in obstacles && StaleCosts(cost)
    requires DirectionsPicked(Hex1, obstacles, Coord(0, 0), cost, dir)
    ensures Settled(Hex1, obstacles, Coord(0, 0), cost)
    ensures dir[Coord(1, -1)] == Toward(Coord(1, 0))
    ensures forall k :: Follow(dir, Coord(1, -1), k) != Coord(0, 0)
  {
    StaleCostsSettled(obstacles, cost);
    StaleCostsAtCorner(cost);
    TrappedAtCorner(Hex1, obstacles, cost, dir);
  }

}
