# Flow fields, navigation meshes, events and game-data export, modelled in Dafny

This project models six pieces of a Unity game framework and proves what they promise.

- **Hexagonal flow field** (`hex_math.dfy`, `flow_field_spec.dfy`, `hex_cell.dfy`, `hex_flow_field.dfy`).
  - The `HexFlowField` class builds the radius-R hexagon of axial coordinates, one `HexCell` per coordinate.
  - It wires each cell to its in-grid neighbours through the six-entry direction table.
  - It resets the costs, runs a breadth-first cost propagation from the target cell over passable cells, and points every cell at its first strictly cheapest neighbour.
  - `flow_field_spec.dfy` states on plain values what the propagation converges to:
    - costs are hop distances from the target;
    - unreachable cells keep the `int.MaxValue` sentinel;
    - following the directions reaches the target.
  - The class methods are proved against those predicates.
- **Event registry** (`event_manager.dfy`).
  - `EventRegistry` holds the two dictionaries: event id to handler entries, and owner to event ids.
  - It adds listeners, removes them by handler, by event or by owner, and publishes.
  - `HandlerListPool` is the LIFO pool of handler lists.
- **Game-data generator** (`game_data_generator.dfy`).
  - The directory scans: lock-file filter, main and A/B file selection, and A/B expansion.
  - The output directory and extension lookups.
  - The worksheet-to-text export.
  - The config-line parser, and the type drop-down truncation of `ScanVariableTypes`.
  - A round-trip lemma: a config sheet exported to text and parsed back yields the sheet's key/value pairs.
- **Navigation mesh** (`triangle.dfy`, `nav_mesh_generator.dfy`).
  - Triangles are built from the triangulation's index triples.
  - Adjacency is counting equal vertex pairs, and the symmetric neighbour lists are built by a nested loop.
  - Point location, the A* search over triangle indices, and path reconstruction through the predecessor map.
- `vectors.dfy` holds Vector2/Vector3 over reals.
- `wrappers.dfy` holds the Option type.

Imperative source becomes imperative Dafny:
- Cells, triangles, the registry and the pool are classes whose methods update their fields.
- The source's loops are `while`/`for` loops with invariants.
- Each method is specified against a function or predicate on values, and the properties are proved about those as lemmas.

Floats are modelled as exact reals, and `int` as unbounded integers.
- Where the source depends on 32-bit limits, the contracts show the value stays in range.
- Example: a BFS cost is only incremented when it is below `int.MaxValue`.

## Model

| member | source | states |
|---|---|---|
| HexMath.IsDirectionMeansInTable | Assets/GameFramework/Runtime/FindWay/HexFlowField/HexFlowField.cs:49-56 | an offset is a unit hex step exactly when it is one of the six entries of the direction table |
| HexMath.DirectionsClosedUnderNegation | Assets/GameFramework/Runtime/FindWay/HexFlowField/HexFlowField.cs:49-56 | the table is closed under negation: the opposite of every direction is a direction |
| HexMath.AdjacentSymmetric | Assets/GameFramework/Runtime/FindWay/HexFlowField/HexFlowField.cs:49-56 | two coordinates are neighbours in either order or in neither |
| HexMath.AdjacentIrreflexive | Assets/GameFramework/Runtime/FindWay/HexFlowField/HexFlowField.cs:49-56 | no coordinate is its own neighbour |
| HexMath.StepIsAdjacent | Assets/GameFramework/Runtime/FindWay/HexFlowField/HexFlowField.cs:49-56 | adding any table entry to a coordinate gives a neighbour of it |
| HexMath.AdjacentIsStep | Assets/GameFramework/Runtime/FindWay/HexFlowField/HexFlowField.cs:49-56 | every neighbour of a coordinate is that coordinate plus some table entry, and the lemma returns the entry |
| HexMath.NeighborsUpTo | Assets/GameFramework/Runtime/FindWay/HexFlowField/HexFlowField.cs:376-386 | after the first k directions, the list holds every in-grid offset among them and nothing else; each entry is in the grid, adjacent, and p plus one of those directions |
| HexMath.NeighborCoordsMembership | Assets/GameFramework/Runtime/FindWay/HexFlowField/HexFlowField.cs:376-386 | n is in the wired neighbour list of p exactly when n is in the grid and adjacent to p |
| HexMath.NeighborCoordsSymmetric | Assets/GameFramework/Runtime/FindWay/HexFlowField/HexFlowField.cs:376-386 | for two grid cells, n is a wired neighbour of p exactly when p is a wired neighbour of n |
| HexMath.NeighborsUpToDistinct | Assets/GameFramework/Runtime/FindWay/HexFlowField/HexFlowField.cs:376-386 | the neighbour list never holds the same coordinate twice |
| HexMath.NeighborListOfGrid | Assets/GameFramework/Runtime/FindWay/HexFlowField/HexFlowField.cs:376-386 | the wired list holds every in-grid neighbour once and nothing else |
| HexMath.NoNeighborsBefore | Assets/GameFramework/Runtime/FindWay/HexFlowField/HexFlowField.cs:376-386 | when none of the first i offsets is in the grid, the list built from them is empty |
| HexMath.FirstNeighbor | Assets/GameFramework/Runtime/FindWay/HexFlowField/HexFlowField.cs:376-386 | the first entry of the list comes from the first direction, in table order, that lands in the grid |
| HexMath.RowBoundsMatchHexagon | Assets/GameFramework/Runtime/FindWay/HexFlowField/HexFlowField.cs:353-358 | the row loop's bounds, q from -R to R and r from max(-R, -q-R) to min(R, -q+R), describe exactly the coordinates with abs(q), abs(r) and abs(q+r) all at most R |
| HexMath.RoundToInt | Assets/GameFramework/Runtime/FindWay/HexFlowField/HexFlowField.cs:486-488 | Mathf.RoundToInt: the result is within one half of the input, and an exact half rounds to the even integer |
| HexMath.RoundToIntNear | Assets/GameFramework/Runtime/FindWay/HexFlowField/HexFlowField.cs:486-488 | a value closer than one half to an integer rounds to that integer |
| HexMath.CubeRound | Assets/GameFramework/Runtime/FindWay/HexFlowField/HexFlowField.cs:486-500 | whichever branch fires, the three components sum to zero, and only the component with the largest rounding error differs from its plain rounding |
| HexMath.CubeRoundNear | Assets/GameFramework/Runtime/FindWay/HexFlowField/HexFlowField.cs:486-500 | on the plane x + y + z = 0, every corrected component lies within 1 of its input |
| HexMath.AxialRound | Assets/GameFramework/Runtime/FindWay/HexFlowField/HexFlowField.cs:477-502 | the rounded axial coordinate lies within 1 of the fractional (q, r) in each component |
| HexMath.AxialRoundNear | Assets/GameFramework/Runtime/FindWay/HexFlowField/HexFlowField.cs:477-502 | fractional coordinates closer than one half to a cell in each of the three cube components round to that cell |
| HexCells.HexCell.constructor | Assets/GameFramework/Runtime/FindWay/HexFlowField/HexCell.cs:6-17 | the new cell stores the given coord and position; its cost is the int.MaxValue sentinel, it has the zero direction, it is not an obstacle and it has no neighbours |
| FlowFieldSpec.PathBoundsCost | Assets/GameFramework/Runtime/FindWay/HexFlowField/HexFlowField.cs:413-436 | once the propagation has settled, no passable path from the target to a cell is shorter than that cell's cost |
| FlowFieldSpec.CostHasPath | Assets/GameFramework/Runtime/FindWay/HexFlowField/HexFlowField.cs:413-436 | once settled, every reached cell (cost below int.MaxValue) has a passable path from the target with at most cost hops; the lemma returns the path |
| FlowFieldSpec.CostIsHopDistance | Assets/GameFramework/Runtime/FindWay/HexFlowField/HexFlowField.cs:413-436 | once settled, a cell's cost equals its hop distance from the target over passable cells, and a cell with a path shorter than int.MaxValue is reached |
| FlowFieldSpec.UnreachableStaysAtSentinel | Assets/GameFramework/Runtime/FindWay/HexFlowField/HexFlowField.cs:413-436 | a passable cell that no passable path reaches keeps the int.MaxValue sentinel |
| FlowFieldSpec.Relax | Assets/GameFramework/Runtime/FindWay/HexFlowField/HexFlowField.cs:421-435 | relaxing from u keeps the keys and u's cost, never raises a cost, leaves cells outside the grid and obstacles alone, and brings every passable neighbour of u down to at most cost(u) + 1 |
| FlowFieldSpec.RelaxAlong | Assets/GameFramework/Runtime/FindWay/HexFlowField/HexFlowField.cs:423-435 | the loop over a neighbour list keeps the cost map's keys |
| FlowFieldSpec.RelaxAlongSnoc | Assets/GameFramework/Runtime/FindWay/HexFlowField/HexFlowField.cs:423-435 | one more neighbour v changes the map exactly when v is passable and cost(u) + 1 beats its cost, and then sets cost(v) to cost(u) + 1 |
| FlowFieldSpec.RelaxAlongNeighbors | Assets/GameFramework/Runtime/FindWay/HexFlowField/HexFlowField.cs:423-435 | relaxing along the wired neighbour list is the relaxation of all of u's grid neighbours, and the cells it enqueues are exactly those it improves |
| FlowFieldSpec.PropagationStarts | Assets/GameFramework/Runtime/FindWay/HexFlowField/HexFlowField.cs:413-419 | with the target at 0 and every other passable cell at int.MaxValue, the queue holding only the target satisfies the loop invariant |
| FlowFieldSpec.PropagationStep | Assets/GameFramework/Runtime/FindWay/HexFlowField/HexFlowField.cs:419-435 | dequeuing the head, relaxing its neighbours and enqueuing the improved ones keeps the loop invariant |
| FlowFieldSpec.PropagationEnds | Assets/GameFramework/Runtime/FindWay/HexFlowField/HexFlowField.cs:419-436 | when the queue empties, the costs are settled: the target at 0, every edge relaxed, and every reached cell justified by a cheaper neighbour |
| FlowFieldSpec.FirstMinBelow | Assets/GameFramework/Runtime/FindWay/HexFlowField/HexFlowField.cs:447-458 | the scan of neighbour costs picks an index whose cost is below the bound, no larger than any other, and strictly smaller than every earlier one (the first minimum); it picks none exactly when no cost is below the bound |
| FlowFieldSpec.FirstMinBelowStep | Assets/GameFramework/Runtime/FindWay/HexFlowField/HexFlowField.cs:447-458 | one more neighbour replaces the pick exactly when its cost is strictly below the current best |
| FlowFieldSpec.NeighborCosts | Assets/GameFramework/Runtime/FindWay/HexFlowField/HexFlowField.cs:451 | the i-th cost is the cost of the i-th wired neighbour |
| FlowFieldSpec.ZeroCostIsTarget | Assets/GameFramework/Runtime/FindWay/HexFlowField/HexFlowField.cs:439-465 | among passable cells, exactly the target has cost 0 |
| FlowFieldSpec.DirectionDescends | Assets/GameFramework/Runtime/FindWay/HexFlowField/HexFlowField.cs:439-465 | when obstacles are at the sentinel, every reached passable cell other than the target points at an adjacent in-grid cell that is passable or the target and costs exactly one less |
| FlowFieldSpec.FollowReachesTarget | Assets/GameFramework/Runtime/FindWay/HexFlowField/HexFlowField.cs:419-465 | when every obstacle other than the target is at int.MaxValue (as after Start, GenerateFlowField or UpdateCorrected, not after a regeneration as written), following the picked directions from any reached passable cell or the target arrives at the target after exactly cost steps |
| FlowFieldSpec.CornerFirstNeighbor | Assets/GameFramework/Runtime/FindWay/HexFlowField/HexFlowField.cs:376-386 | in any grid that holds (1, 0) but not (2, -1), such as the radius-1 grid, the first wired neighbour of (1, -1) is (1, 0) |
| FlowFieldSpec.NextToTargetCostsOne | Assets/GameFramework/Runtime/FindWay/HexFlowField/HexFlowField.cs:413-436 | a passable cell adjacent to the target costs 1 once settled |
| FlowFieldSpec.LeadingZeroIsFirstMin | Assets/GameFramework/Runtime/FindWay/HexFlowField/HexFlowField.cs:447-458 | among non-negative costs, a leading 0 is always the pick |
| FlowFieldSpec.ZeroFirstNeighborPicked | Assets/GameFramework/Runtime/FindWay/HexFlowField/HexFlowField.cs:439-458 | a cell at cost 1 whose first wired neighbour costs 0 points at that neighbour, obstacle or not |
| FlowFieldSpec.StaleObstacleMisdirects | Assets/GameFramework/Runtime/FindWay/HexFlowField/HexFlowField.cs:396-403 | when an obstacle first in a target neighbour's list still holds cost 0 from an earlier field, that neighbour points into the obstacle and following the field from it never reaches the target |
| FlowFieldSpec.StaleCostsSettled | Assets/GameFramework/Runtime/FindWay/HexFlowField/HexFlowField.cs:413-436 | in the radius-1 grid with target (0, 0) and (1, 0) an obstacle, cost 0 at (0, 0) and (1, 0) and cost 1 everywhere else is a settled state of the propagation |
| FlowFieldSpec.TrappedBehind | Assets/GameFramework/Runtime/FindWay/HexFlowField/HexFlowField.cs:439-465 | a cell pointing at a neighbour whose own direction is zero: following the directions from it visits only those two cells |
| FlowFieldSpec.SecondStepPicked | Assets/GameFramework/Runtime/FindWay/HexFlowField/HexFlowField.cs:439-458 | a passable cell at cost 1 whose first direction-table step leaves the grid and whose second lands on a cell at cost 0 points at that second cell |
| FlowFieldSpec.CornerPicksObstacle | Assets/GameFramework/Runtime/FindWay/HexFlowField/HexFlowField.cs:439-458 | in any grid holding (1, 0) and (1, -1) but not (2, -1), a passable corner (1, -1) at cost 1 points at (1, 0) when (1, 0) costs 0 |
| FlowFieldSpec.TrappedAtCorner | Assets/GameFramework/Runtime/FindWay/HexFlowField/HexFlowField.cs:439-465 | in such a grid, when (1, 0) is an obstacle at cost 0 and (1, -1) a passable cell at cost 1, (1, -1) points at (1, 0) and following the directions from it never reaches (0, 0) |
| FlowFieldSpec.StaleObstacleWitness | Assets/GameFramework/Runtime/FindWay/HexFlowField/HexFlowField.cs:396-403 | the misdirection occurs: in the radius-1 grid with target (0, 0), an obstacle (1, 0) left at cost 0 by an earlier field and a passable corner (1, -1), the costs are settled, the corner points at the obstacle, and following the directions from it never reaches the target |
| HexFlowFields.HexFlowField.constructor | Assets/GameFramework/Runtime/FindWay/HexFlowField/HexFlowField.cs:15-41 | the field stores the radius, the hex size and the obstacle test, starts with an empty grid and target (0, 0), is not generated, and its invariant holds |
| HexFlowFields.HexFlowField.CentreRoundTrip | Assets/GameFramework/Runtime/FindWay/HexFlowField/HexFlowField.cs:471-511 | converting a cell coordinate to its world centre and back gives the coordinate again, for coordinates up to a million |
| HexFlowFields.HexFlowField.CentreProjects | Assets/GameFramework/Runtime/FindWay/HexFlowField/HexFlowField.cs:474-476 | projecting a cell's world centre back gives the cell's r exactly and its q plus e·q + e·r/2, where e = Sqrt3²/3 − 1 is the error of single-precision Sqrt(3); this holds for a hex size of either sign |
| HexFlowFields.HexFlowField.CentreConverts | Assets/GameFramework/Runtime/FindWay/HexFlowField/HexFlowField.cs:474-476 | converting a cell's world centre back to a cell rounds exactly that projection: r unchanged, q off by e·q + e·r/2 |
| HexFlowFields.HexFlowField.AxialRoundBack | Assets/GameFramework/Runtime/FindWay/HexFlowField/HexFlowField.cs:477-502 | fractional coordinates that carry that error still round to the cell, for coordinates up to a million |
| HexFlowFields.HexFlowField.GenerateHexGrid | Assets/GameFramework/Runtime/FindWay/HexFlowField/HexFlowField.cs:348-389 | the grid holds exactly the coordinates of the radius-R hexagon, one fresh cell each, enumerated in row-major order, with cost int.MaxValue and no direction; every cell is wired to its in-grid neighbours in table order and is an obstacle exactly where the sphere check hits; the field is marked not generated |
| HexFlowFields.HexFlowField.AddRow | Assets/GameFramework/Runtime/FindWay/HexFlowField/HexFlowField.cs:358-372 | one pass of the row loop adds the cells of row q, keeps the cells already built and the row-major order, and leaves every cell blank |
| HexFlowFields.HexFlowField.NewCell | Assets/GameFramework/Runtime/FindWay/HexFlowField/HexFlowField.cs:360-371 | a new cell at the coordinate's world centre, an obstacle exactly when the sphere check hits there, at cost int.MaxValue with no direction and no neighbours |
| HexFlowFields.HexFlowField.WireNeighbors | Assets/GameFramework/Runtime/FindWay/HexFlowField/HexFlowField.cs:375-386 | after the wiring loop every cell lists its in-grid neighbours in table order; costs and directions are unchanged |
| HexFlowFields.HexFlowField.WireCell | Assets/GameFramework/Runtime/FindWay/HexFlowField/HexFlowField.cs:378-385 | one cell gets its in-grid neighbours in table order; its cost, direction and obstacle flag are unchanged |
| HexFlowFields.HexFlowField.ResetAsWritten | Assets/GameFramework/Runtime/FindWay/HexFlowField/HexFlowField.cs:396-403 | the reset as written: every cell loses its direction, passable cells go to int.MaxValue, obstacles keep their earlier cost |
| HexFlowFields.HexFlowField.ResetAll | Assets/GameFramework/Runtime/FindWay/HexFlowField/HexFlowField.cs:396-403 | the corrected reset: every cell at int.MaxValue with no direction, obstacle flags kept |
| HexFlowFields.HexFlowField.SetTargetCost | Assets/GameFramework/Runtime/FindWay/HexFlowField/HexFlowField.cs:413 | the target cell's cost becomes 0 and nothing else changes |
| HexFlowFields.HexFlowField.Propagate | Assets/GameFramework/Runtime/FindWay/HexFlowField/HexFlowField.cs:413-436 | from the target at 0 and the other passable cells at int.MaxValue, the BFS ends with settled costs (hop distances, by the lemmas above); obstacles keep their cost, and no flag or direction changes |
| HexFlowFields.HexFlowField.Drain | Assets/GameFramework/Runtime/FindWay/HexFlowField/HexFlowField.cs:419-436 | the queue loop ends with an empty queue in the settled state, without touching obstacles, flags, neighbour lists or directions |
| HexFlowFields.HexFlowField.BfsStep | Assets/GameFramework/Runtime/FindWay/HexFlowField/HexFlowField.cs:421-435 | one dequeue-and-relax step keeps the loop invariant and lowers the termination measure: the sum of costs falls, or it stays and the queue shrinks |
| HexFlowFields.HexFlowField.RelaxNeighbors | Assets/GameFramework/Runtime/FindWay/HexFlowField/HexFlowField.cs:423-435 | the neighbour loop leaves the relaxed costs in the cells and returns exactly the passable neighbours whose cost it lowered |
| HexFlowFields.HexFlowField.OfferCost | Assets/GameFramework/Runtime/FindWay/HexFlowField/HexFlowField.cs:425-434 | one neighbour is relaxed: it gets cost(current) + 1 and is enqueued exactly when it is passable and that beats its cost |
| HexFlowFields.HexFlowField.SetCost | Assets/GameFramework/Runtime/FindWay/HexFlowField/HexFlowField.cs:432 | writing a cell's cost changes that cell's cost in the cost view and nothing else |
| HexFlowFields.HexFlowField.BestNeighbor | Assets/GameFramework/Runtime/FindWay/HexFlowField/HexFlowField.cs:447-458 | the loop over the neighbours returns the first neighbour of minimum cost below the cell's own, or null when there is none |
| HexFlowFields.HexFlowField.PickCellDirection | Assets/GameFramework/Runtime/FindWay/HexFlowField/HexFlowField.cs:441-464 | a cell gets the zero direction when it is unreached, an obstacle or the target, and otherwise the direction of its first strictly cheapest neighbour |
| HexFlowFields.HexFlowField.PickDirections | Assets/GameFramework/Runtime/FindWay/HexFlowField/HexFlowField.cs:439-465 | every cell carries the direction the pick rule gives it; costs and flags are unchanged |
| HexFlowFields.HexFlowField.FlowFrom | Assets/GameFramework/Runtime/FindWay/HexFlowField/HexFlowField.cs:413-465 | from a reset grid, the costs end settled around the target and every cell carries its picked direction; flags and obstacle costs are kept |
| HexFlowFields.HexFlowField.RetargetAsWritten | Assets/GameFramework/Runtime/FindWay/HexFlowField/HexFlowField.cs:396-465 | the three cell passes as written: settled costs and picked directions, with every obstacle other than the target keeping its earlier cost |
| HexFlowFields.HexFlowField.GenerateFlowFieldAsWritten | Assets/GameFramework/Runtime/FindWay/HexFlowField/HexFlowField.cs:391-468 | as written: no target changes nothing; a target outside the grid leaves the as-written reset and the old generated flag; a target in the grid gives a directed field marked generated, with obstacle costs carried over from before |
| HexFlowFields.HexFlowField.GenerateFlowField | Assets/GameFramework/Runtime/FindWay/HexFlowField/HexFlowField.cs:391-468 | corrected: no target changes nothing; a target outside the grid leaves every cell reset and the old generated flag; a target in the grid gives a directed field marked generated, with every other obstacle at the sentinel |
| HexFlowFields.HexFlowField.Start | Assets/GameFramework/Runtime/FindWay/HexFlowField/HexFlowField.cs:84-87 | builds the radius-R hexagon grid and runs GenerateFlowField as written: given a target in the grid, a directed field marked generated and blocked at every obstacle other than the target, because the freshly built cells all start at int.MaxValue; a target outside the grid leaves every cell reset and the field not generated; with no target the field is not generated |
| HexFlowFields.HexFlowField.Update | Assets/GameFramework/Runtime/FindWay/HexFlowField/HexFlowField.cs:92-99 | a missing target throws before anything changes; otherwise it regenerates, with GenerateFlowField as written, only when the field was generated and the target's cell changed, and changes nothing else; after a regeneration the new target cell is recorded, the field stays generated, and obstacles other than the target keep their earlier costs (outside the grid: passable cells reset, obstacles keep their costs) |
| HexFlowFields.HexFlowField.UpdateCorrected | Assets/GameFramework/Runtime/FindWay/HexFlowField/HexFlowField.cs:92-99 | the same regeneration check, regenerating with the corrected GenerateFlowField: after a regeneration every obstacle other than the target is at int.MaxValue, so the field is blocked at obstacles |
| HexFlowFields.HexFlowField.GetFlowDirection | Assets/GameFramework/Runtime/FindWay/HexFlowField/HexFlowField.cs:514-522 | a position over a grid cell gets that cell's direction; exactly the positions outside the grid get the random vector (j, j, j) with j in [-1, 1] |
| HexFlowFields.HexFlowField.FlowDirectionAtCentre | Assets/GameFramework/Runtime/FindWay/HexFlowField/HexFlowField.cs:514-519 | in a field generated toward the target with every obstacle other than the target at int.MaxValue (as after Start, GenerateFlowField or UpdateCorrected), at the centre of a reached passable cell other than the target whose coordinates lie within one million of the origin, the lookup returns a step to an adjacent cell that is passable or the target and costs one less |
| HexFlowFields.HexFlowField.FieldLeadsToTarget | Assets/GameFramework/Runtime/FindWay/HexFlowField/HexFlowField.cs:439-465 | in a field directed toward the target with every obstacle other than the target at int.MaxValue (as after Start, GenerateFlowField or UpdateCorrected, not after a regeneration as written), following the directions from any reached passable cell or the target arrives at the target after exactly cost steps |
| Events.Filter | Assets/GameFramework/Runtime/Event/EventManager.cs:129 | List.RemoveAll: exactly the entries the selector keeps stay; nothing is added; a selector matching nothing leaves the list as it is |
| Events.FilterIdempotent | Assets/GameFramework/Runtime/Event/EventManager.cs:124-136 | removing with the same selector twice is the same as once, so an event id repeated in an owner's list does no harm |
| Events.WrapperNeverMatches | Assets/GameFramework/Runtime/Event/EventManager.cs:33-37 | no stored wrapper has the Target and Method of a user handler, so the comparison as written selects nothing |
| Events.RemoveFirst | Assets/GameFramework/Runtime/Event/EventManager.cs:106 | List.Remove drops one occurrence of the id when there is one and changes nothing otherwise |
| Events.StoredWrappers | Assets/GameFramework/Runtime/Event/EventManager.cs:238-241 | the handler list built for publishing holds the stored wrappers, one per entry, in registration order |
| Events.Failures | Assets/GameFramework/Runtime/Event/EventManager.cs:151-161 | the logged-error count is at most the number of handlers and is zero exactly when no handler throws |
| Events.StripAll | Assets/GameFramework/Runtime/Event/EventManager.cs:124-136 | the owner-removal loop only ever removes event ids |
| Events.StripAllUnlisted | Assets/GameFramework/Runtime/Event/EventManager.cs:121-136 | an event the owner never listed keeps its list |
| Events.StripAllListed | Assets/GameFramework/Runtime/Event/EventManager.cs:121-136 | a listed event keeps exactly the entries of other owners, and is dropped when none remain |
| Events.HandlerList.constructor | Assets/GameFramework/Runtime/Event/EventManager.cs:22-23 | a new pooled list is empty |
| Events.HandlerListPool.constructor | Assets/GameFramework/Runtime/Event/EventManager.cs:293-303 | the pool starts with an empty stack |
| Events.HandlerListPool.Get | Assets/GameFramework/Runtime/Event/EventManager.cs:305-311 | pops the most recently released list when there is one, otherwise returns a fresh list; the list handed out is empty and no longer in the pool |
| Events.HandlerListPool.Release | Assets/GameFramework/Runtime/Event/EventManager.cs:313-320 | clears the list and pushes it on the stack |
| Events.EventRegistry.constructor | Assets/GameFramework/Runtime/Event/EventManager.cs:17-19 | both dictionaries start empty and the registry invariant holds |
| Events.EventRegistry.Listeners | Assets/GameFramework/Runtime/Event/EventManager.cs:236 | an unknown event has no listeners; a known one has its stored list |
| Events.EventRegistry.AddListener | Assets/GameFramework/Runtime/Event/EventManager.cs:28-58 | a null handler changes nothing; otherwise one new entry (a fresh wrapper and the owner) is appended to the event's list, which is created when absent, and a non-null owner gets the event id appended to its list, duplicates allowed; the invariant (no empty lists, every owned entry recorded) is kept |
| Events.EventRegistry.RemoveMatching | Assets/GameFramework/Runtime/Event/EventManager.cs:74-82 | the backwards RemoveAt loop leaves exactly the entries the selector does not match, in their order |
| Events.EventRegistry.RemoveStep | Assets/GameFramework/Runtime/Event/EventManager.cs:77-81 | one turn of the backwards loop removes entry i exactly when the selector matches it, so the filtered suffix grows by one entry |
| Events.EventRegistry.StepBack | Assets/GameFramework/Runtime/Event/EventManager.cs:77-81 | deciding entry i leaves it in place when it is kept and, when it is removed, splices it out so that the result is the prefix before i followed by the filtered suffix from i |
| Events.EventRegistry.RemoveWhere | Assets/GameFramework/Runtime/Event/EventManager.cs:74-87 | the event keeps its non-matching entries, and its key is removed when none remain; the owner table is untouched |
| Events.EventRegistry.RemoveListenerAsWritten | Assets/GameFramework/Runtime/Event/EventManager.cs:63-89 | as written, removing a handler added through AddListener changes nothing at all |
| Events.EventRegistry.RemoveListener | Assets/GameFramework/Runtime/Event/EventManager.cs:63-89 | corrected: for a known event, exactly the entries forwarding to a handler with the given Target and Method are removed, the others keep their order, and the key goes when the list empties; a null handler or unknown event changes nothing; owners are never touched |
| Events.EventRegistry.RemoveAllListeners | Assets/GameFramework/Runtime/Event/EventManager.cs:94-110 | the event's key is removed and, when it existed, the first occurrence of its id is removed from every owner's list; an unknown event changes nothing |
| Events.EventRegistry.DropFromOwners | Assets/GameFramework/Runtime/Event/EventManager.cs:104-107 | every owner keeps its key and loses the first occurrence of the id |
| Events.EventRegistry.OwnersAfterRemoveAll | Assets/GameFramework/Runtime/Event/EventManager.cs:104-107 | other event ids stay in every owner's list |
| Events.EventRegistry.RemoveOwnerListeners | Assets/GameFramework/Runtime/Event/EventManager.cs:115-140 | a null or unknown owner changes nothing; otherwise the owner record goes, every event keeps exactly the entries of other owners and is dropped when none remain, so no entry of the owner is left anywhere |
| Events.EventRegistry.StripOwner | Assets/GameFramework/Runtime/Event/EventManager.cs:124-136 | the loop over the owner's event ids strips the owner's entries from each listed event |
| Events.EventRegistry.UnlistedHaveNoEntriesOf | Assets/GameFramework/Runtime/Event/EventManager.cs:48-56 | by the invariant, an event missing from the owner's list holds no entry of that owner |
| Events.EventRegistry.GetHandlers | Assets/GameFramework/Runtime/Event/EventManager.cs:229-246 | returns a list from the pool holding the event's stored handlers in registration order, empty for an unknown event; the registry is unchanged |
| Events.EventRegistry.PublishNow | Assets/GameFramework/Runtime/Event/EventManager.cs:145-167 | invokes every stored handler of the event in registration order, a failing one not stopping the rest, logs one error per failure and returns the list to the pool: a pooled list is popped and pushed back, so the stack is unchanged, and otherwise the stack ends holding the one fresh list; every pooled list is empty |
| Events.EventRegistry.InvokeAll | Assets/GameFramework/Runtime/Event/EventManager.cs:151-161 | the loop invokes all handlers in order and counts the failures |
| GameData.FileNameAfterSeparator | Assets/GameFramework/Editor/DataTable/GameDataGenerator.cs:585 | Path.GetFileName of dir/name is name, whatever the directory |
| GameData.NameNoExtOfWorkbook | Assets/GameFramework/Editor/DataTable/GameDataGenerator.cs:611 | Path.GetFileNameWithoutExtension of dir/stem.xlsx is stem, dots in the stem included |
| GameData.GroupFileStem | Assets/GameFramework/Editor/DataTable/GameDataGenerator.cs:620-625 | the extension-less name of dir/main#group.xlsx is main#group |
| GameData.GroupFileBelongsToMain | Assets/GameFramework/Editor/DataTable/GameDataGenerator.cs:620-625 | dir/main#group.xlsx is an A/B file of any workbook whose stem is main, whatever the group |
| GameData.GroupMarkedOnlyIfOneLetter | Assets/GameFramework/Editor/DataTable/GameDataGenerator.cs:609-613 | for a main name without separators and a non-empty group made only of letters with no separator, '#' or line feed, the one-argument test marks dir/main#group.xlsx as an A/B file exactly when the group is a single letter; other group names (such as `A#B`) are outside the lemma |
| GameData.GetFiles | Assets/GameFramework/Editor/DataTable/GameDataGenerator.cs:576-603 | the listing in order, without Office lock files (~$) and, given a main name, only names starting with main# |
| GameData.KeepOfType | Assets/GameFramework/Editor/DataTable/GameDataGenerator.cs:555-566 | the loop keeps a file exactly when it is a main file and MainFile is requested or an A/B file and ABTestFile is requested, in order |
| GameData.GetGameDataExcelAtDir | Assets/GameFramework/Editor/DataTable/GameDataGenerator.cs:546-568 | is the scan defined by ExcelsAtDir: nothing for a blank or missing directory, otherwise the listed files filtered by type |
| GameData.ExcelsAtDirMembership | Assets/GameFramework/Editor/DataTable/GameDataGenerator.cs:546-568 | a file is returned exactly when it is an .xlsx under the directory, not a lock file, and of a requested kind |
| GameData.GetGameDataExcelDir | Assets/GameFramework/Editor/DataTable/GameDataGenerator.cs:512-522 | only data tables have a workbook directory; every other type gets "" |
| GameData.GetGameDataExcelOutputDir | Assets/GameFramework/Editor/DataTable/GameDataGenerator.cs:493-506 | data tables and configs go to their output directories; any other value gets "" |
| GameData.GetGameDataExcelOutputFileExtension | Assets/GameFramework/Editor/DataTable/GameDataGenerator.cs:475-486 | the extension is ".txt" exactly for DataTable and Config, and "" otherwise |
| GameData.GetAllGameDataExcels | Assets/GameFramework/Editor/DataTable/GameDataGenerator.cs:524-539 | one scan per type flag set, data tables first |
| GameData.ConfigScanFindsNothing | Assets/GameFramework/Editor/DataTable/GameDataGenerator.cs:512-522 | since configs have no workbook directory, the config scan always finds nothing |
| GameData.KeepABFiles | Assets/GameFramework/Editor/DataTable/GameDataGenerator.cs:429-439 | the result starts with the main file |
| GameData.KeepABFilesAreABFiles | Assets/GameFramework/Editor/DataTable/GameDataGenerator.cs:427-439 | every entry after the main file is an A/B file of it |
| GameData.WithABFiles | Assets/GameFramework/Editor/DataTable/GameDataGenerator.cs:427-440 | the expansion of a main file starts with the main file |
| GameData.GetGameDataExcelWithABFilesOf | Assets/GameFramework/Editor/DataTable/GameDataGenerator.cs:427-440 | returns the main file, then the files of the A/B scan that belong to it, in scan order |
| GameData.CollectABFiles | Assets/GameFramework/Editor/DataTable/GameDataGenerator.cs:429-438 | the loop keeps the candidates that are A/B files of the main file, after the main file |
| GameData.GetGameDataExcelWithABFiles | Assets/GameFramework/Editor/DataTable/GameDataGenerator.cs:411-420 | the expansions of the main files, concatenated in the given order |
| GameData.AllWithABFilesCovers | Assets/GameFramework/Editor/DataTable/GameDataGenerator.cs:411-440 | every main file is in the result, and every result entry is a main file or an A/B file of one |
| GameData.RemoveLineBreaks | Assets/GameFramework/Editor/DataTable/GameDataGenerator.cs:168-171 | the cleaned cell holds no carriage return or line feed, is no longer than the cell, and a cell without breaks is unchanged |
| GameData.CleanCells | Assets/GameFramework/Editor/DataTable/GameDataGenerator.cs:165-177 | one cleaned cell per cell of the row |
| GameData.BuildLine | Assets/GameFramework/Editor/DataTable/GameDataGenerator.cs:163-178 | the inner loop builds the row's cleaned cells joined by tabs |
| GameData.ExcelSheetToText | Assets/GameFramework/Editor/DataTable/GameDataGenerator.cs:157-188 | a sheet without rows fails; otherwise the text is the non-blank rows' lines in order, each but the sheet's last row followed by a line break |
| GameData.RowLineTabs | Assets/GameFramework/Editor/DataTable/GameDataGenerator.cs:165-177 | a row of n cells without tabs serialises with exactly n - 1 tabs |
| GameData.JoinTabCount | Assets/GameFramework/Editor/DataTable/GameDataGenerator.cs:165-177 | joining n tab-free fields gives exactly n - 1 tabs |
| GameData.RowLineNoBreaks | Assets/GameFramework/Editor/DataTable/GameDataGenerator.cs:170-176 | no serialised row holds a carriage return or line feed |
| GameData.FirstBreakFrom | Assets/GameFramework/Editor/DataTable/GameDataGenerator.cs:377 | the first line break at or after i, or the end of the text |
| GameData.ReadLinesAppend | Assets/GameFramework/Editor/DataTable/GameDataGenerator.cs:377 | a text ending in a line feed reads as its own lines, whatever follows it |
| GameData.ReadOneLine | Assets/GameFramework/Editor/DataTable/GameDataGenerator.cs:377 | a non-empty line without breaks reads back as itself, with or without its terminator |
| GameData.SheetReadsBack | Assets/GameFramework/Editor/DataTable/GameDataGenerator.cs:157-188 | reading the exported text line by line gives back the lines of the non-blank rows, in order |
| GameData.Split | Assets/GameFramework/Editor/DataTable/GameDataGenerator.cs:380 | String.Split gives at least one piece and no piece holds a separator |
| GameData.SplitJoinTab | Assets/GameFramework/Editor/DataTable/GameDataGenerator.cs:380 | splitting a tab-joined row gives back its fields when no field holds a separator |
| GameData.LineRecord | Assets/GameFramework/Editor/DataTable/GameDataGenerator.cs:379-389 | a line contributes either nothing or a name and a value |
| GameData.ConfigRecordsArePairs | Assets/GameFramework/Editor/DataTable/GameDataGenerator.cs:377-390 | the output is name/value pairs, at most one pair per line, and at most one error per line |
| GameData.ConfigStep | Assets/GameFramework/Editor/DataTable/GameDataGenerator.cs:377-390 | a blank or comment line is skipped silently, a line without exactly four fields is logged and skipped, any other line writes field 1 then field 3 |
| GameData.RecordsOfAppend | Assets/GameFramework/Editor/DataTable/GameDataGenerator.cs:377-390 | parsing two texts one after the other writes and logs what the two do, in order |
| GameData.ExportConfig2BytesFile | Assets/GameFramework/Editor/DataTable/GameDataGenerator.cs:364-399 | a missing file fails and writes nothing; otherwise the written strings are the name/value pairs of the accepted lines in order, and one error is logged per unparsable line |
| GameData.RecordOfRow | Assets/GameFramework/Editor/DataTable/GameDataGenerator.cs:379-389 | the line of one four-column config row gives back its key and value and is never rejected |
| GameData.ConfigSheetRoundTrip | Assets/GameFramework/Editor/DataTable/GameDataGenerator.cs:157-188 | a config sheet exported to text and then parsed by the config export writes each non-blank, non-comment row's key and value in order and logs no error |
| GameData.ScanVariableTypes | Assets/GameFramework/Editor/DataTable/GameDataGenerator.cs:143-154 | no result exactly when the list is empty or the first entry does not fit; otherwise the longest prefix of the sorted list whose every entry fits (name lengths plus one separator each stay below 255) |
| GameData.KeptTypesFit | Assets/GameFramework/Editor/DataTable/GameDataGenerator.cs:143-154 | the kept prefix fits below 255, and every longer prefix reaches the limit |
| Triangles.SharedVerticesSymmetric | Assets/GameFramework/Runtime/FindWay/NavMesh/Triangle.cs:29-40 | the count of equal vertex pairs is the same whichever triangle asks |
| Triangles.AdjacentSymmetric | Assets/GameFramework/Runtime/FindWay/NavMesh/Triangle.cs:29-40 | adjacency is symmetric |
| Triangles.AdjacentReflexive | Assets/GameFramework/Runtime/FindWay/NavMesh/Triangle.cs:29-40 | a triangle shares at least three vertex pairs with itself, so it is adjacent to itself |
| Triangles.Triangle.constructor | Assets/GameFramework/Runtime/FindWay/NavMesh/Triangle.cs:6-14 | stores a, b, c in slots 0, 1, 2 and starts with no neighbours |
| Triangles.Triangle.IsAdjacentTo | Assets/GameFramework/Runtime/FindWay/NavMesh/Triangle.cs:29-40 | the nested loops return true exactly when at least two (own vertex, other vertex) pairs are equal |
| Triangles.Triangle.AddNeighbor | Assets/GameFramework/Runtime/FindWay/NavMesh/Triangle.cs:42 | appends exactly one index at the end; the vertices are constant |
| Triangles.Triangle.Centroid | Assets/GameFramework/Runtime/FindWay/NavMesh/Triangle.cs:44-45 | three times each coordinate is the sum of the vertices' coordinates, so it is their mean, and it lies within the vertices' bounding box |
| NavMeshes.NeighborIndicesMembership | Assets/GameFramework/Runtime/FindWay/NavMesh/NavMeshGenerator.cs:44-57 | u is in t's list exactly when u is another triangle of the mesh adjacent to t |
| NavMeshes.NeighborIndicesSymmetric | Assets/GameFramework/Runtime/FindWay/NavMesh/NavMeshGenerator.cs:44-57 | u is in t's list exactly when t is in u's |
| NavMeshes.NeighborIndicesNoSelfLoop | Assets/GameFramework/Runtime/FindWay/NavMesh/NavMeshGenerator.cs:44-57 | no triangle is its own neighbour |
| NavMeshes.NeighborIndicesOnce | Assets/GameFramework/Runtime/FindWay/NavMesh/NavMeshGenerator.cs:44-57 | each list is strictly increasing, so each neighbour appears once |
| NavMeshes.LinkRow | Assets/GameFramework/Runtime/FindWay/NavMesh/NavMeshGenerator.cs:46-56 | one pass of the outer loop completes row i: every list then holds its entries for the rows done |
| NavMeshes.LinkPair | Assets/GameFramework/Runtime/FindWay/NavMesh/NavMeshGenerator.cs:48-55 | testing pair (i, j) appends j to i and i to j exactly when they are adjacent, and touches no other list |
| NavMeshes.RemoveFirst | Assets/GameFramework/Runtime/FindWay/NavMesh/NavMeshGenerator.cs:141 | List.Remove drops one occurrence of the value when present and nothing else |
| NavMeshes.Reversed | Assets/GameFramework/Runtime/FindWay/NavMesh/NavMeshGenerator.cs:137 | List.Reverse: the result has the input's length, and entry k is the input's entry at (length of the input) - 1 - k |
| NavMeshes.NavMesh.RouteStepsAdjacent | Assets/GameFramework/Runtime/FindWay/NavMesh/NavMeshGenerator.cs:44-57 | on an adjacency built by BuildAdjacency, each step of a route moves to a different triangle that is adjacent to the current one |
| NavMeshes.NavMesh.GenerateNavMesh | Assets/GameFramework/Runtime/FindWay/NavMesh/NavMeshGenerator.cs:18-41 | one fresh triangle per consecutive index triple, in order, with the ground-plane (x, z) vertices; every triangle's list is exactly its adjacent triangles, all indices in range |
| NavMeshes.NavMesh.Project | Assets/GameFramework/Runtime/FindWay/NavMesh/NavMeshGenerator.cs:20-25 | each point becomes its (x, z) ground-plane position, in order |
| NavMeshes.NavMesh.MakeTriangles | Assets/GameFramework/Runtime/FindWay/NavMesh/NavMeshGenerator.cs:30-38 | one new triangle per consecutive index triple, in order, with no neighbours |
| NavMeshes.NavMesh.BuildAdjacency | Assets/GameFramework/Runtime/FindWay/NavMesh/NavMeshGenerator.cs:44-57 | every list gains exactly its adjacent triangles' indices, in increasing order |
| NavMeshes.NavMesh.FindContainingTriangle | Assets/GameFramework/Runtime/FindWay/NavMesh/NavMeshGenerator.cs:74-82 | returns the first index whose triangle contains the point, or -1 when none does |
| NavMeshes.NavMesh.FindPath | Assets/GameFramework/Runtime/FindWay/NavMesh/NavMeshGenerator.cs:59-72 | returns no waypoints when either endpoint lies in no triangle; otherwise smooths the triangle path, which when non-empty is a route from a triangle containing the start to one containing the end |
| NavMeshes.NavMesh.FindTrianglePath | Assets/GameFramework/Runtime/FindWay/NavMesh/NavMeshGenerator.cs:85-168 | start == end gives exactly [start]; any other non-empty result starts at start, ends at end and steps along neighbour lists; with no route the result is empty |
| NavMeshes.NavMesh.LowestScore | Assets/GameFramework/Runtime/FindWay/NavMesh/NavMeshGenerator.cs:115-126 | returns an open-set entry of minimum f-score, the first such in list order |
| NavMeshes.NavMesh.Relax | Assets/GameFramework/Runtime/FindWay/NavMesh/NavMeshGenerator.cs:143-164 | the neighbour loop keeps the search invariant: every predecessor edge lies along a neighbour list and leads back to start |
| NavMeshes.NavMesh.Improve | Assets/GameFramework/Runtime/FindWay/NavMesh/NavMeshGenerator.cs:151-162 | a better score through current sets the neighbour's predecessor, g-score and f-score and adds it to the open set when absent |
| NavMeshes.NavMesh.ReconstructPath | Assets/GameFramework/Runtime/FindWay/NavMesh/NavMeshGenerator.cs:128-139 | following predecessors back from end and reversing gives a route of at least two triangles from start to end |
| NavMeshes.NavMesh.WalkRoute | Assets/GameFramework/Runtime/FindWay/NavMesh/NavMeshGenerator.cs:128-139 | a predecessor chain from end back to start, read backwards, is a route from start to end |

## Left out

- Agents, the avoidance job, obstacle data for agents and the gizmo drawing of `HexFlowField.cs` (lines 101-346 and 524-623) are not modelled. They are Burst jobs and floating-point force blending.
- `GameFramework/Editor/DataTable/DataTableProcessor` is not part of this model. Its comment prefix and split separators are parameters (`commentPrefix`, `seps`).
- `Physics.CheckSphere` is the parameter `checkSphere`, a predicate on world positions. `Random.Range(-1, 1)` in `GetFlowDirection` is the parameter `jitter`.
- The target `Transform` is an `Option<Vec3>`: `None` is a null target. `Update` reads `target.position` without a null check, so the NullReferenceException it raises is the result `thrown`; Unity's logging of that exception is not modelled.
- Floating-point arithmetic in `HexToWorldPosition` and `WorldToHexCoord` is modelled over exact reals.
  - `Mathf.Sqrt(3)` is its single-precision value.
  - Rounding is `Mathf.RoundToInt`, which rounds half to even.
- `HexCell.bestDirection` is modelled as `Dir`: either the zero vector or "toward neighbour n".
  - The source stores the normalised world-space difference of the two centres.
  - Both are fixed by the chosen neighbour, which is what the model captures.
- The dictionary's enumeration order is modelled as insertion order, kept in the field `order`.
- HexFlowFields.HexFlowField.constructor: a hex size of zero is excluded here and in every member that converts between world positions and cells. With a zero size `WorldToHexCoord` divides by zero, which in single-precision floats gives Infinity or NaN before the rounding; exact reals have no such values, so that case is not modelled. Negative sizes are modelled.
- HexFlowFields.HexFlowField.Start: it does not model `InitializeAgents` and `InitializeObstacleData`.
- HexFlowFields.HexFlowField.Update: it does not model the agent update, the avoidance job or the agent transforms that follow the regeneration check.
- HexFlowFields.HexFlowField.GenerateFlowField and HexFlowFields.HexFlowField.GenerateFlowFieldAsWritten: each writes `targetHexCoord` before the reset and the generated flag before the passes. The source writes them after. No pass reads either field, so the final state is the same. The "Target is outside of grid" warning is not modelled.
- Events.EventRegistry.PublishNow: handlers are modelled as identities whose invocation either returns or throws (the parameter `fails`). Their side effects are not modelled, so a handler cannot re-enter the registry.
- `HandleException` and `HandleBackgroundException` only log, and are modelled as a count of errors.
- `PublishInBackground` and `PublishInNextFrame` are not modelled. They differ from `PublishNow` only in the UniTask thread switch before the loop and, for the background one, in how errors are logged.
- The lock in `EventManager.cs` and the pool are not modelled for concurrency. Everything is sequential.
- Event ids are `typeof(T).GetHashCode()`, modelled as an integer `EventId`.
- Generic type casting inside the wrapper lambda is not modelled.
- The list capacity `8` of pooled lists is not modelled. Capacity has no observable effect.
- EPPlus, `File`, `Directory`, `AssetDatabase`, progress bars and reflection in `GameDataGenerator.cs` are not modelled.
  - The directory listing is a `Host` value: directory existence, the `*.xlsx` files found recursively, the Unicode letter class and the data-table path.
  - A worksheet's used range is a matrix of strings.
  - A text file is a string or `None` when it is missing.
  - The binary output file is the list of strings written, without `BinaryWriter`'s length prefixes.
- GameData.ScanVariableTypes: the reflection over `DataTableProcessor`'s nested types and the `List.Sort` by ShowOrder are not modelled. The sorted list is the input. `List.Sort` is not stable, so the order of equal ShowOrders is not modelled.
- `CreateGameConfigExcel`, `CreateDataTableExcel`, `Excel2TxtFile`, `RefreshAllConfig`, `RefreshAllDataTable`, `GetGameDataRelativeName`, `GetGameDataExcelRelativePath`, `GameDataExcelRelative2FullPath` and `GetGameDataExcelOutputFile` are not modelled. They are path combination and Excel or file I/O with no logic beyond the modelled lookups.
- Strings are sequences of Unicode characters, so lengths are counted in characters, not in the UTF-16 code units C#'s `string.Length` counts. For names outside the Basic Multilingual Plane the 255 limit of GameData.ScanVariableTypes and the one-letter group test of `IsABTestFile` (where `\p{L}` never matches a lone surrogate) can differ from the source.
- `StartsWith` is modelled as an ordinal prefix test. The source calls the one-argument `string.StartsWith`, which is culture-sensitive. The prefix `name#` holds the main workbook's name, which is arbitrary text, so ignorable code points and culture rules can make the source's answer differ from the model's; those differences are not modelled.
- Path splitting (`Path.GetFileName`, `Path.GetFileNameWithoutExtension`) follows the Windows rules: both `/` and `\` are directory separators (`IsDirSeparator`). On macOS and Linux `\` is an ordinary file-name character; that behaviour is not modelled.
- `Delaunator` is not modelled: the triangulation's index array is an input of `GenerateNavMesh`.
- NavMeshes.NavMesh.GenerateNavMesh: its precondition asks that the index array's length is a multiple of three and that every index names a point, which is what Delaunator's output satisfies; the source does not check either.
- `Triangle.Contains` and `PointInTriangle` are the parameter `inside`.
- `Vector2.Distance` is the parameter `distance`, required to be non-negative.
- `FunnelAlgorithm.SmoothPath` is the parameter `smooth`.
- Vector2's approximate `==` is modelled as a squared distance below `1e-10`, over exact reals.
- `Start` and `OnDrawGizmos` of `NavMeshGenerator.cs` are not modelled. `Transform[] points` is a sequence of positions.
- NavMeshes.NavMesh.FindTrianglePath: the search loop runs at most `budget` rounds and returns the empty path once they are used up. A real-valued score has no integer termination measure. The result is therefore proved to be a route whenever it is non-empty, but not proved non-empty whenever a route exists.
- NavMeshes.NavMesh.FindTrianglePath: its precondition asks for start and end to be triangle indices, which is what `FindPath` passes. It also asks that every neighbour index names a triangle, which `GenerateNavMesh` establishes.
- NavMeshes.NavMesh.FindTrianglePath: it does not state that the path is shortest. The search is not proved optimal, because the heuristic is not shown to be admissible.
- The integer widths of the source, such as `int.MaxValue` in the costs, are not wrapped, because no modelled operation reaches them. The propagation only adds 1 to costs below `int.MaxValue`, and `int.MaxValue` is far above any grid's hop distance.

## Findings

| source | as written | input that shows it | evidently intended | confidence | as-written member | corrected member |
|---|---|---|---|---|---|---|
| Assets/GameFramework/Runtime/FindWay/HexFlowField/HexFlowField.cs:396-403 | The reset before each flow field skips obstacle cells, so an obstacle keeps whatever cost an earlier field gave it. A cell that was the target while it was an obstacle keeps cost 0. Its neighbours then pick it as their cheapest neighbour and point into the obstacle. | Radius 1. The obstacle is (1, 0), which was the earlier target. The new target is (0, 0). Cell (1, -1) costs 1, and its first neighbour in table order is the obstacle (1, 0) at cost 0. It points there, and following the field from it never reaches the target. | Every cell, obstacle or not, is reset to int.MaxValue, so obstacles other than the target never attract a direction. | not executed | HexFlowFields.HexFlowField.GenerateFlowFieldAsWritten, HexFlowFields.HexFlowField.Update, FlowFieldSpec.StaleObstacleMisdirects, FlowFieldSpec.StaleObstacleWitness | HexFlowFields.HexFlowField.GenerateFlowField, HexFlowFields.HexFlowField.UpdateCorrected, HexFlowFields.HexFlowField.FieldLeadsToTarget |
| Assets/GameFramework/Runtime/Event/EventManager.cs:77-78 | `RemoveListener` compares the stored delegate's Target and Method with the handler's. The stored delegate is the wrapper lambda that `AddListener` creates (line 35). Its Target is the closure and its Method the generated lambda, so it never equals a user handler, and nothing is ever removed. | `AddListener(h)` then `RemoveListener(h)`, for any handler h. The event keeps its entry. | Compare the handler the wrapper forwards to: remove the entries whose wrapped handler has h's Target and Method. | not executed | Events.EventRegistry.RemoveListenerAsWritten, Events.WrapperNeverMatches | Events.EventRegistry.RemoveListener |
