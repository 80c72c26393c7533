# Honeycomb vent geometry in Dafny

This project models the point-generation core behind the honeycomb vent
holes of a CadQuery vent generator. It covers the two utility modules that
compute where holes go and what shape they have:

- `utils/hexagon_lattice.py`
  - `hex_neighbors_bfs`: a breadth-first search over axial hex coordinates.
  - `axial_to_cartesian`: the pointy-top conversion from cells to planar centres.
  - `hex_lattice`: that conversion mapped over the search result.
  - `hexagon`: the closed 7-entry vertex list of a rotated, translated regular hexagon.
- `utils/geometric_functions.py`
  - `distribute_points`: the staggered row packer.
  - `hexagon`: a fixed hexagon vertex literal.

The Dafny modules follow those files:

| module | file | contents |
|---|---|---|
| `Plane` | `plane.dfy` | points over exact reals, rotation by (cos θ, sin θ), translation, squared distance, midpoint |
| `AxialGrid` | `axial_grid.dfy` | axial cells, hex distance, the six directions, the hex ball and its size 1 + 3k(k + 1) |
| `HexagonLattice` | `hexagon_lattice.dfy` | `utils/hexagon_lattice.py` |
| `GeometricFunctions` | `geometric_functions.dfy` | `utils/geometric_functions.py` |

Floating point is replaced by `real`. `math.sqrt(3)` and `3**0.5` become a
parameter `sqrt3`. `math.cos` and `math.sin` of the rotation angle become
parameters `cosT` and `sinT`. Lemmas that need their algebra assume
`sqrt3 * sqrt3 == 3` and `cosT * cosT + sinT * sinT == 1`.

The search is a method with the source's `while` loop, `popleft`, depth
test and `continue`. Its `for` loop over the six directions is the method
`EnqueueNeighbors`. The deque is a `seq`, and the visited set is a `set`.
Two ghost variables carry the proof:

- `trace`: every entry ever enqueued, in order;
- `head`: how many entries have been popped, so the queue is always `trace[head..]`.

The method is proved to return exactly the hex ball of radius
`max(max_depth, 0)`. The trace shows that each cell is enqueued once, that
each stored depth is the cell's hex distance, and that depths never
decrease. The row packer is a method with the source's `while` loop and
its inner `for` loop with `break`. Its result is proved equal to a closed
form, `Layout`, in which point `k` is point `k % d` of row `k / d`. The row
and order properties are lemmas about `Layout`.

The code validates none of its arguments, and the model keeps that behaviour:

- A negative `max_depth` is not rejected. It behaves like 0.
- A non-positive `radius` is not rejected. Distinctness of the hexagon's vertices is proved for `radius != 0`.
- A non-positive `d` in `distribute_points` is not rejected. With `num <= 0` the loop does not run and the result is `[]`. With `num > 0` the loop never ends, and `NoProgress` shows why. So the method requires `d >= 1 || num <= 0`.
- A negative `num` returns an empty list.

## Model

| member | source | states |
|---|---|---|
| Plane.Rotate | utils/hexagon_lattice.py:37-38 | counter-clockwise rotation x' = x·cos − y·sin, y' = x·sin + y·cos; the angle 0 (cos 1, sin 0) leaves every point where it is |
| Plane.Translate | utils/hexagon_lattice.py:40 | shifts a point by the centre's coordinates; a zero shift leaves it where it is |
| Plane.RotatePreservesNorm | utils/hexagon_lattice.py:36-38 | the rotation x' = x·cos − y·sin, y' = x·sin + y·cos keeps a point's distance to the origin when cos² + sin² = 1 |
| Plane.RotatePreservesDistance | utils/hexagon_lattice.py:36-38 | the same rotation keeps the distance between any two points |
| Plane.RotateInjective | utils/hexagon_lattice.py:36-38 | the same rotation maps distinct points to distinct points |
| AxialGrid.Neighbor | utils/hexagon_lattice.py:54-68 | the cell (q + dq, r + dr) for direction i of `Directions`, the six offsets in the source's order; it is at hex distance exactly 1 from (q, r) |
| AxialGrid.HexBall | utils/hexagon_lattice.py:53-71 | a cell is in the ball exactly when its hex distance (abs(dq) + abs(dr) + abs(dq + dr)) / 2 from the centre is at most k |
| AxialGrid.NeighborDistance | utils/hexagon_lattice.py:54-61 | a step in any of the six directions changes the hex distance to a fixed cell by at most one |
| AxialGrid.Predecessor | utils/hexagon_lattice.py:54-61 | every cell other than the start is a direction-step from a cell exactly one closer to the start |
| AxialGrid.BallOfRadiusZero | utils/hexagon_lattice.py:63-66 | the ball of radius 0 is the centre alone |
| AxialGrid.BallSize | utils/hexagon_lattice.py:46-72 | the ball of radius k ≥ 0 has exactly 1 + 3k(k + 1) cells |
| HexagonLattice.BaseVertices | utils/hexagon_lattice.py:23-31 | the base outline has 7 entries and the last repeats the first |
| HexagonLattice.HexagonVertices | utils/hexagon_lattice.py:33-40 | after rotating and translating each vertex, the outline still has 7 entries and is closed |
| HexagonLattice.Hexagon | utils/hexagon_lattice.py:17-40 | the loop's list is the base outline with each vertex rotated first and then translated to `center` |
| HexagonLattice.HexagonOnCircle | utils/hexagon_lattice.py:5-40 | every vertex is at distance `radius` from `center`, as the docstring promises |
| HexagonLattice.HexagonSides | utils/hexagon_lattice.py:23-40 | consecutive vertices are `radius` apart, so the outline is a regular hexagon |
| HexagonLattice.HexagonDistinct | utils/hexagon_lattice.py:23-40 | for radius ≠ 0 the six vertices are pairwise distinct |
| HexagonLattice.Reached | utils/hexagon_lattice.py:63-71 | once every entry shallower than a level has been popped and expanded, every cell within that level and `max_depth` has been enqueued |
| HexagonLattice.LayerComplete | utils/hexagon_lattice.py:63-71 | when an entry below `max_depth` is popped, every cell no farther from the start than it has been visited |
| HexagonLattice.EnqueueKeeps | utils/hexagon_lattice.py:69-71 | appending an unvisited neighbour one level deeper keeps enqueue-once, depth = distance and non-decreasing depths |
| HexagonLattice.Complete | utils/hexagon_lattice.py:63-72 | when the queue is empty the enqueued cells are exactly the ball of radius max(max_depth, 0) |
| HexagonLattice.InitialState | utils/hexagon_lattice.py:47-51 | the start queued at depth 0 and visited satisfies the search invariant |
| HexagonLattice.PopStep | utils/hexagon_lattice.py:63-64 | each popped cell is new among the popped cells and lies in the ball (the termination measure) |
| HexagonLattice.SkipStep | utils/hexagon_lattice.py:64-66 | popping an entry at depth ≥ `max_depth` without expanding it keeps the invariant |
| HexagonLattice.ExpandStep | utils/hexagon_lattice.py:63-67 | popping an entry below `max_depth` puts the queue in one depth band with its whole layer visited |
| HexagonLattice.EnqueueStep | utils/hexagon_lattice.py:67-71 | marking and enqueueing one unvisited neighbour keeps the expansion state and the popped prefix |
| HexagonLattice.ExpandDone | utils/hexagon_lattice.py:67-71 | once all six neighbours are visited the popped entry counts as expanded |
| HexagonLattice.AppendNew | utils/hexagon_lattice.py:69-71 | marking an unvisited neighbour visited and appending it one level deeper keeps the old queue as a prefix |
| HexagonLattice.AppendNone | utils/hexagon_lattice.py:69 | an already visited neighbour changes neither the visited set nor the queue |
| HexagonLattice.AppendDone | utils/hexagon_lattice.py:67-71 | after all six directions the visited set has gained exactly the six neighbours |
| HexagonLattice.EnqueueNeighbors | utils/hexagon_lattice.py:67-71 | afterwards `visited` is the old set plus all six neighbours; the old queue is kept as a prefix; every appended entry is a neighbour not visited before, one level deeper; the search invariant is restored |
| HexagonLattice.FinalState | utils/hexagon_lattice.py:63-72 | with the queue empty, visited is the ball, {start} when max_depth ≤ 0, of size 1 + 3R(R + 1) |
| HexagonLattice.HexNeighborsBfs | utils/hexagon_lattice.py:46-72 | returns exactly the cells within hex distance max(max_depth, 0) of the start; {start} for max_depth ≤ 0; 1 + 3R(R + 1) cells; each cell enqueued once, at its hex distance, in non-decreasing depth |
| HexagonLattice.AxialToCartesian | utils/hexagon_lattice.py:74-77 | x = radius·√3·(q + r/2), y = 1.5·radius·r; row r = 0 lies on the x-axis with cells radius·√3 apart |
| HexagonLattice.OriginToOrigin | utils/hexagon_lattice.py:74-77 | cell (0, 0) maps to the origin for any radius |
| HexagonLattice.RowFixesY | utils/hexagon_lattice.py:74-77 | y = 1.5·radius·r depends on r alone |
| HexagonLattice.CartesianInjective | utils/hexagon_lattice.py:74-77 | for radius ≠ 0 distinct cells have distinct centres |
| HexagonLattice.NeighborSpacing | utils/hexagon_lattice.py:74-77 | neighbouring cells have centres √3·radius apart |
| HexagonLattice.CellCenters | utils/hexagon_lattice.py:81 | the comprehension yields as many points as visited cells, the centre of every visited cell among them, each cell used once, in some order |
| HexagonLattice.CentersDistinct | utils/hexagon_lattice.py:81 | for radius ≠ 0 the centres of distinct cells are distinct points |
| HexagonLattice.HexLattice | utils/hexagon_lattice.py:79-82 | one centre per cell of the ball, so 1 + 3·depth·(depth + 1) points for depth ≥ 0, each the centre of a distinct ball cell, the centre of every ball cell present, all distinct for radius ≠ 0 |
| GeometricFunctions.FixedHexagon | utils/geometric_functions.py:10-18 | the literal has 7 entries and the last repeats the first |
| GeometricFunctions.FixedHexagonIsUnrotatedAtOrigin | utils/geometric_functions.py:10-18 | the literal is the rotation-0 outline of `utils/hexagon_lattice.py` about the origin |
| GeometricFunctions.FixedHexagonIgnoresCenter | utils/geometric_functions.py:6-19 | the outline is the same for every `center` |
| GeometricFunctions.FixedHexagonCenteredAtOrigin | utils/geometric_functions.py:6-19 | opposite vertices have the origin as midpoint, so for any other `center` the hexagon is not centred there |
| GeometricFunctions.VentHoleAtOrigin | utils/geometric_functions.py:6-19 | `hexagon((10, 0), 8)` has vertex (8, 0), at squared distance 4, not 64, from the requested centre |
| GeometricFunctions.CenteredHexagonIsUnrotated | utils/geometric_functions.py:6-19 | the corrected outline is the rotation-0 outline about `center`, and equals the literal when `center` is the origin |
| GeometricFunctions.CenteredHexagonCentered | utils/geometric_functions.py:6-19 | opposite vertices of the corrected outline have `center` as midpoint |
| GeometricFunctions.CenteredHexagonOnCircle | utils/geometric_functions.py:6-19 | every vertex of the corrected outline is at distance `radius` from `center` |
| GeometricFunctions.RowFill | utils/geometric_functions.py:35 | `points_in_row`: num − count when count + d // 2 ≥ num, else d; for d ≥ 1 with points still to place it is between 1 and d |
| GeometricFunctions.RowStart | utils/geometric_functions.py:32 | `start_x`: 0.5·d on odd rows, 0 on even rows; for d ≥ 1 it lies in [0, d) and is 0 exactly on even rows |
| GeometricFunctions.RowFillIsMin | utils/geometric_functions.py:35-42 | a row is offered 1..d points, and with the `break` it receives min(d, remaining) whichever branch of the `d // 2` test is taken |
| GeometricFunctions.NoProgress | utils/geometric_functions.py:35-37 | with d ≤ 0 and points still to place a row is offered no points, so the loop never ends |
| GeometricFunctions.LayoutPosition | utils/geometric_functions.py:29-38 | point i of row r is at y = r·d and x = i·d, plus d/2 on odd rows |
| GeometricFunctions.DistributePoints | utils/geometric_functions.py:22-46 | whenever the loop ends (d ≥ 1, or num ≤ 0 for any d) it returns exactly max(num, 0) points, the first max(num, 0) of the row layout; [] when num ≤ 0 |
| GeometricFunctions.RowCount | utils/geometric_functions.py:35-42 | row r of n points holds n − r·d points, clipped to [0, d] |
| GeometricFunctions.RowSizes | utils/geometric_functions.py:35-42 | no row holds more than d points, every row before the last is full, the last row (n − 1) / d is non-empty, later rows are empty |
| GeometricFunctions.SmallRemainderFillsLastRow | utils/geometric_functions.py:35 | when at most d // 2 points remain at a row's start, that row takes them all and is the last |
| GeometricFunctions.StepWithinRow | utils/geometric_functions.py:37-40 | within a row each point is d to the right of the previous one at the same height |
| GeometricFunctions.StepToNextRow | utils/geometric_functions.py:27-44 | after a full row the next point starts the next row, d higher, at that row's start |
| GeometricFunctions.LayoutOrder | utils/geometric_functions.py:27-44 | consecutive points go right by d in a row, or up by d to the next row's start |
| GeometricFunctions.LayoutDistinct | utils/geometric_functions.py:29-40 | for d ≥ 1 no two points coincide |
| GeometricFunctions.SameRowOrder | utils/geometric_functions.py:37-39 | within one row a later point lies further right |
| GeometricFunctions.SixPointsOneRow | utils/geometric_functions.py:22-46 | `distribute_points(10, 6)` is x = 0, 10, …, 50 at y = 0 |
| GeometricFunctions.FifteenPointsTwoRows | utils/geometric_functions.py:22-46 | `distribute_points(10, 15)` is ten points on row 0, then x = 5, 15, …, 45 at y = 10 |

## Left out

- CadQuery: `cq.Workplane("XY").polyline(...).close()` in both `hexagon` functions is not modelled. The model stops at the vertex list those calls receive.
- Floating point and `math.radians`, `math.cos`, `math.sin`, `math.sqrt`: values are exact reals, with √3, cos θ and sin θ as parameters. Rounding is not modelled, so `hexagon(c, r, 0)` and `hexagon(c, r, 360)` agree exactly whenever the same cos and sin are supplied.
- Python set iteration order in `hex_lattice`: `CellCenters` takes the cells in an arbitrary order, and its contract speaks about which points appear, not their order.
- HexagonLattice.EnqueueNeighbors: the `for` loop over the six directions is a method of its own rather than inline in the `while` loop. The state it reads and writes is the same.
- `utils/functions.py` (logging, configuration and CSV reading, STL export) is not part of this model. It is file-system and library I/O.
- The vent and shell scripts under `models/` that call these utilities are not part of this model, and neither are the solid operations (extrude, offset, union, cut).
- The code raises no error for a non-positive radius, a negative depth or a non-positive spacing, so the model has no error cases for them.
- GeometricFunctions.DistributePoints: a call with `d <= 0` and `num > 0` is excluded by its requires. The loop never ends there (`NoProgress`), and a Dafny method must terminate.
- Default arguments (`center=(0,0), radius=1` at utils/geometric_functions.py:6 and `rotation=0` at utils/hexagon_lattice.py:5) are not modelled. Every argument is passed explicitly, and rotation 0 is `cosT = 1.0, sinT = 0.0`.

## Findings

| source | as written | input that shows it | evidently intended | confidence | as-written member | corrected member |
|---|---|---|---|---|---|---|
| utils/geometric_functions.py:6-19 | `hexagon(center, radius)` returns a vertex literal about the origin and never uses `center` | `hexagon((10, 0), 8)`: vertex (8, 0) is 2 from the centre (10, 0), not 8; every packed vent hole lands on the origin | each vertex translated by `center`, so the hexagon has circumradius `radius` about `center` | high; not executed | GeometricFunctions.FixedHexagonCenteredAtOrigin | GeometricFunctions.CenteredHexagon |
