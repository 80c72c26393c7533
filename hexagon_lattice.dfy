/** The honeycomb lattice of utils/hexagon_lattice.py: the regular-hexagon
    outline, the breadth-first enumeration of axial cells around a start cell,
    and the conversion of cells to planar centres.

    `math.sqrt(3)` (and `3**0.5`) is the real parameter `sqrt3`, and the cosine
    and sine of the rotation angle are the parameters `cosT` and `sinT`; lemmas
    that need their algebra assume `sqrt3 * sqrt3 == 3` and
    `cosT * cosT + sinT * sinT == 1`. */
module HexagonLattice {
  import opened Plane
  import opened AxialGrid

  // ---------------------------------------------------------------------------
  // hexagon(center, radius, rotation)

  /** The closed outline of a hexagon of circumradius `radius` about the
      origin, first vertex at angle 0; the seventh entry repeats the first. */
  function BaseVertices(radius: real, sqrt3: real): (v: seq<Point>)
    ensures |v| == 7 && v[6] == v[0]
  {
    [ Point(radius, 0.0),
      Point(radius / 2.0, radius * sqrt3 / 2.0),
      Point(-radius / 2.0, radius * sqrt3 / 2.0),
      Point(-radius, 0.0),
      Point(-radius / 2.0, -radius * sqrt3 / 2.0),
      Point(radius / 2.0, -radius * sqrt3 / 2.0),
      Point(radius, 0.0) ]
  }

  /** The outline after rotating each base vertex about the origin and then
      translating it to `center`. */
  function HexagonVertices(center: Point, radius: real, cosT: real, sinT: real, sqrt3: real): (v: seq<Point>)
    ensures |v| == 7 && v[6] == v[0]
  {
    var base := BaseVertices(radius, sqrt3);
    seq(7, i requires 0 <= i < 7 => Translate(Rotate(base[i], cosT, sinT), center))
  }

  /** The vertex list that `hexagon` hands to `polyline`, built by appending
      one rotated and translated vertex at a time. */
  method Hexagon(center: Point, radius: real, cosT: real, sinT: real, sqrt3: real)
    returns (rotatedPoints: seq<Point>)
    ensures rotatedPoints == HexagonVertices(center, radius, cosT, sinT, sqrt3)
  {
    var points := BaseVertices(radius, sqrt3);
    rotatedPoints := [];
    for k := 0 to |points|
      invariant |rotatedPoints| == k
      invariant forall j :: 0 <= j < k ==>
        rotatedPoints[j] == Translate(Rotate(points[j], cosT, sinT), center)
    {
      var p := points[k];
      var rotatedX := p.x * cosT - p.y * sinT;
      var rotatedY := p.x * sinT + p.y * cosT;
      rotatedPoints := rotatedPoints + [Point(center.x + rotatedX, center.y + rotatedY)];
    }
  }

  /** Every base vertex lies at distance `radius` from the origin. */
  lemma BaseOnCircle(radius: real, sqrt3: real, i: nat)
    requires sqrt3 * sqrt3 == 3.0
    requires i < 7
    ensures SqDist(BaseVertices(radius, sqrt3)[i], Origin) == radius * radius
  {
    var h := radius * sqrt3 / 2.0;
    assert h * h == 3.0 * radius * radius / 4.0 by {
      calc {
        h * h;
        radius * radius * (sqrt3 * sqrt3) / 4.0;
        3.0 * radius * radius / 4.0;
      }
    }
  }

  /** Every vertex of the outline lies at distance `radius` from `center`. */
  lemma HexagonOnCircle(center: Point, radius: real, cosT: real, sinT: real, sqrt3: real)
    requires cosT * cosT + sinT * sinT == 1.0
    requires sqrt3 * sqrt3 == 3.0
    ensures forall i :: 0 <= i < 7 ==>
      SqDist(HexagonVertices(center, radius, cosT, sinT, sqrt3)[i], center) == radius * radius
  {
    var v := HexagonVertices(center, radius, cosT, sinT, sqrt3);
    forall i | 0 <= i < 7 ensures SqDist(v[i], center) == radius * radius {
      var b := BaseVertices(radius, sqrt3)[i];
      BaseOnCircle(radius, sqrt3, i);
      RotatePreservesNorm(b, cosT, sinT);
      TranslatePreservesDistance(Rotate(b, cosT, sinT), Origin, center);
      assert Translate(Origin, center) == center;
    }
  }

  /** Consecutive base vertices are `radius` apart. */
  lemma BaseSide(radius: real, sqrt3: real, i: nat)
    requires sqrt3 * sqrt3 == 3.0
    requires i < 6
    ensures SqDist(BaseVertices(radius, sqrt3)[i], BaseVertices(radius, sqrt3)[i + 1]) == radius * radius
  {
    var h := radius * sqrt3 / 2.0;
    assert h * h == 3.0 * radius * radius / 4.0 by {
      calc {
        h * h;
        radius * radius * (sqrt3 * sqrt3) / 4.0;
        3.0 * radius * radius / 4.0;
      }
    }
    assert (2.0 * h) * (2.0 * h) == 3.0 * radius * radius;
  }

  /** The outline is a regular hexagon: each of its six sides has length
      `radius`. */
  lemma HexagonSides(center: Point, radius: real, cosT: real, sinT: real, sqrt3: real)
    requires cosT * cosT + sinT * sinT == 1.0
    requires sqrt3 * sqrt3 == 3.0
    ensures forall i :: 0 <= i < 6 ==>
      var v := HexagonVertices(center, radius, cosT, sinT, sqrt3);
      SqDist(v[i], v[i + 1]) == radius * radius
  {
    var v := HexagonVertices(center, radius, cosT, sinT, sqrt3);
    var base := BaseVertices(radius, sqrt3);
    forall i | 0 <= i < 6 ensures SqDist(v[i], v[i + 1]) == radius * radius {
      BaseSide(radius, sqrt3, i);
      RotatePreservesDistance(base[i], base[i + 1], cosT, sinT);
      TranslatePreservesDistance(Rotate(base[i], cosT, sinT), Rotate(base[i + 1], cosT, sinT), center);
    }
  }

  /** For a non-zero radius the six vertices are pairwise distinct. */
  lemma HexagonDistinct(center: Point, radius: real, cosT: real, sinT: real, sqrt3: real)
    requires cosT * cosT + sinT * sinT == 1.0
    requires sqrt3 * sqrt3 == 3.0
    requires radius != 0.0
    ensures forall i, j :: 0 <= i < j < 6 ==>
      HexagonVertices(center, radius, cosT, sinT, sqrt3)[i] != HexagonVertices(center, radius, cosT, sinT, sqrt3)[j]
  {
    var v := HexagonVertices(center, radius, cosT, sinT, sqrt3);
    var base := BaseVertices(radius, sqrt3);
    assert radius * sqrt3 != 0.0;
    forall i, j | 0 <= i < j < 6 ensures v[i] != v[j] {
      if v[i] == v[j] {
        assert Rotate(base[i], cosT, sinT) == Rotate(base[j], cosT, sinT);
        RotateInjective(base[i], base[j], cosT, sinT);
        assert false;
      }
    }
  }

  // ---------------------------------------------------------------------------
  // hex_neighbors_bfs(axial_coord, max_depth)

  /** A queue entry: a cell and the depth at which it was reached. */
  datatype Entry = Entry(cell: Axial, depth: int)

  /** The cells named by a sequence of entries. */
  function Cells(s: seq<Entry>): set<Axial> {
    set e | e in s :: e.cell
  }

  /** No cell is named twice. */
  predicate EnqueuedOnce(s: seq<Entry>) {
    forall i, j :: 0 <= i < j < |s| ==> s[i].cell != s[j].cell
  }

  /** The depths never decrease along the sequence. */
  predicate DepthsNondecreasing(s: seq<Entry>) {
    forall i, j :: 0 <= i <= j < |s| ==> s[i].depth <= s[j].depth
  }

  /** Every entry's depth is the hex distance of its cell from `start`. */
  predicate DepthIsDistance(start: Axial, s: seq<Entry>) {
    forall i :: 0 <= i < |s| ==> s[i].depth == Distance(start, s[i].cell)
  }

  /** The depth the traversal actually reaches: a negative `max_depth` acts
      like 0, because the start cell is popped at depth 0 and not expanded. */
  function Reach(maxDepth: int): nat {
    if maxDepth < 0 then 0 else maxDepth
  }

  lemma CellOf(s: seq<Entry>, k: nat)
    requires k < |s|
    ensures s[k].cell in Cells(s)
  {
    assert s[k] in s;
  }

  lemma CellIndex(s: seq<Entry>, c: Axial) returns (k: nat)
    requires c in Cells(s)
    ensures k < |s| && s[k].cell == c
  {
    var e :| e in s && e.cell == c;
    var i :| 0 <= i < |s| && s[i] == e;
    k := i;
  }

  lemma CellsAppend(s: seq<Entry>, e: Entry)
    ensures Cells(s + [e]) == Cells(s) + {e.cell}
  {
    forall c | c in Cells(s + [e]) ensures c in Cells(s) + {e.cell} {
      var k := CellIndex(s + [e], c);
      if k < |s| {
        CellOf(s, k);
      }
    }
    forall c | c in Cells(s) ensures c in Cells(s + [e]) {
      var k := CellIndex(s, c);
      CellOf(s + [e], k);
    }
    CellOf(s + [e], |s|);
  }

  /** Popping entry `h` adds its cell to the cells popped so far, and that
      cell was not among them. */
  lemma PopGrowsPrefix(s: seq<Entry>, h: nat)
    requires h < |s| && EnqueuedOnce(s)
    ensures Cells(s[..h + 1]) == Cells(s[..h]) + {s[h].cell}
    ensures s[h].cell !in Cells(s[..h])
  {
    assert s[..h + 1] == s[..h] + [s[h]];
    CellsAppend(s[..h], s[h]);
    if s[h].cell in Cells(s[..h]) {
      var k := CellIndex(s[..h], s[h].cell);
      assert false;
    }
  }

  /** The facts about the entries enqueued so far that every step keeps: the
      start comes first at depth 0, no cell is enqueued twice, every depth is
      the cell's hex distance from `start` and at most `reach`, and depths
      never decrease in enqueue order. */
  ghost predicate TraceInvariant(start: Axial, reach: nat, trace: seq<Entry>) {
    && |trace| > 0 && trace[0] == Entry(start, 0)
    && EnqueuedOnce(trace)
    && DepthIsDistance(start, trace)
    && (forall k :: 0 <= k < |trace| ==> trace[k].depth <= reach)
    && DepthsNondecreasing(trace)
  }

  /** Depths from index `from` on differ by at most one: the queue holds at
      most two consecutive layers. */
  ghost predicate QueueSpread(trace: seq<Entry>, from: nat) {
    forall i, j :: from <= i <= j < |trace| ==> trace[j].depth <= trace[i].depth + 1
  }

  /** Depths from index `from` on lie in [n, n + 1]. */
  ghost predicate QueueBand(trace: seq<Entry>, from: nat, n: int) {
    forall k :: from <= k < |trace| ==> n <= trace[k].depth <= n + 1
  }

  /** The first `upto` entries have been popped, and each of them whose depth
      was below `maxDepth` has had all six neighbours put in `visited`. */
  ghost predicate Expanded(trace: seq<Entry>, upto: nat, maxDepth: int, visited: set<Axial>) {
    forall k :: 0 <= k < upto && k < |trace| && trace[k].depth < maxDepth ==> Neighbors(trace[k].cell) <= visited
  }

  /** Breadth-first closure: if the cells popped so far (the first `h`
      entries of `trace`) have had their neighbours enqueued whenever their
      depth is below `maxDepth`, and every entry shallower than `level` has
      been popped, then every cell within `min(level, maxDepth)` of `start`
      has been enqueued. */
  lemma {:induction false} Reached(start: Axial, trace: seq<Entry>, h: nat, level: int, maxDepth: int, y: Axial)
    requires h <= |trace|
    requires start in Cells(trace)
    requires DepthIsDistance(start, trace)
    requires forall k :: 0 <= k < |trace| && trace[k].depth < level ==> k < h
    requires Expanded(trace, h, maxDepth, Cells(trace))
    requires Distance(start, y) <= level && Distance(start, y) <= maxDepth
    ensures y in Cells(trace)
    decreases Distance(start, y)
  {
    if y != start {
      var w, i := Predecessor(start, y);
      Reached(start, trace, h, level, maxDepth, w);
      var k := CellIndex(trace, w);
      assert trace[k].depth < level && trace[k].depth < maxDepth;
      assert y in Neighbors(w);
    }
  }

  /** When entry `h` is popped, every cell at most as far from `start` as it
      is has already been enqueued. */
  lemma LayerComplete(start: Axial, reach: nat, maxDepth: int, trace: seq<Entry>, h: nat)
    requires h < |trace|
    requires TraceInvariant(start, reach, trace)
    requires Expanded(trace, h, maxDepth, Cells(trace))
    requires trace[h].depth < maxDepth
    ensures forall y :: Distance(start, y) <= trace[h].depth ==> y in Cells(trace)
  {
    CellOf(trace, 0);
    forall y | Distance(start, y) <= trace[h].depth ensures y in Cells(trace) {
      Reached(start, trace, h, trace[h].depth, maxDepth, y);
    }
  }

  /** Enqueueing an unvisited neighbour of the popped entry `h - 1` keeps the
      trace invariant and the depth band. */
  lemma EnqueueKeeps(start: Axial, reach: nat, trace: seq<Entry>, h: nat, n: int, cell: Axial)
    requires 0 < h <= |trace|
    requires TraceInvariant(start, reach, trace)
    requires QueueBand(trace, h - 1, n) && trace[h - 1].depth == n
    requires cell !in Cells(trace)
    requires Distance(start, cell) == n + 1 <= reach
    ensures TraceInvariant(start, reach, trace + [Entry(cell, n + 1)])
    ensures QueueBand(trace + [Entry(cell, n + 1)], h - 1, n)
    ensures Cells(trace + [Entry(cell, n + 1)]) == Cells(trace) + {cell}
    ensures (trace + [Entry(cell, n + 1)])[..h] == trace[..h]
    ensures (trace + [Entry(cell, n + 1)])[h..] == trace[h..] + [Entry(cell, n + 1)]
  {
    var t := trace + [Entry(cell, n + 1)];
    forall k | 0 <= k < |trace| ensures trace[k].cell != cell {
      CellOf(trace, k);
    }
    CellsAppend(trace, Entry(cell, n + 1));
    forall i, j | 0 <= i <= j < |t| ensures t[i].depth <= t[j].depth {
      if j == |trace| && i < h - 1 {
        assert t[i].depth <= trace[h - 1].depth;
      }
    }
    assert t[..h] == trace[..h];
    assert t[h..] == trace[h..] + [Entry(cell, n + 1)];
  }

  /** The neighbours of `c` in the first `i` directions. */
  ghost function FirstNeighbors(c: Axial, i: nat): set<Axial>
    requires i <= 6
  {
    set j | 0 <= j < i :: Neighbor(c, j)
  }

  lemma FirstNeighborsStep(c: Axial, i: nat)
    requires i < 6
    ensures FirstNeighbors(c, i + 1) == FirstNeighbors(c, i) + {Neighbor(c, i)}
  {
  }

  /** Growing the trace at its end and `visited` keeps the expansion facts. */
  lemma ExpandedGrows(trace: seq<Entry>, upto: nat, maxDepth: int, visited: set<Axial>, e: Entry, cell: Axial)
    requires upto <= |trace|
    requires Expanded(trace, upto, maxDepth, visited)
    ensures Expanded(trace + [e], upto, maxDepth, visited + {cell})
  {
    var t := trace + [e];
    forall k | 0 <= k < upto && k < |t| && t[k].depth < maxDepth ensures Neighbors(t[k].cell) <= visited + {cell} {
      assert t[k] == trace[k];
    }
  }

  /** Popping entry `h` without expanding it (depth at least `maxDepth`). */
  lemma SkipKeeps(trace: seq<Entry>, h: nat, maxDepth: int, visited: set<Axial>)
    requires h < |trace| && trace[h].depth >= maxDepth
    requires Expanded(trace, h, maxDepth, visited)
    requires QueueSpread(trace, h)
    ensures Expanded(trace, h + 1, maxDepth, visited)
    ensures QueueSpread(trace, h + 1)
  {
  }

  /** Finishing the expansion of entry `h - 1`. */
  lemma ExpandKeeps(trace: seq<Entry>, h: nat, n: int, maxDepth: int, visited: set<Axial>)
    requires 0 < h <= |trace|
    requires Expanded(trace, h - 1, maxDepth, visited)
    requires Neighbors(trace[h - 1].cell) <= visited
    requires QueueBand(trace, h - 1, n)
    ensures Expanded(trace, h, maxDepth, visited)
    ensures QueueSpread(trace, h)
  {
  }

  /** Before expanding entry `h`, the entries from `h` on lie in one band. */
  lemma SpreadToBand(start: Axial, reach: nat, trace: seq<Entry>, h: nat)
    requires h < |trace|
    requires TraceInvariant(start, reach, trace)
    requires QueueSpread(trace, h)
    ensures QueueBand(trace, h, trace[h].depth)
  {
  }

  /** When the queue is empty, the visited cells are exactly the hex ball of
      radius `Reach(maxDepth)`. */
  lemma Complete(start: Axial, maxDepth: int, trace: seq<Entry>)
    requires TraceInvariant(start, Reach(maxDepth), trace)
    requires Expanded(trace, |trace|, maxDepth, Cells(trace))
    ensures Cells(trace) == HexBall(start, Reach(maxDepth))
  {
    var reach := Reach(maxDepth);
    CellOf(trace, 0);
    forall y | Distance(start, y) <= reach ensures y in Cells(trace) {
      if maxDepth >= 0 {
        Reached(start, trace, |trace|, maxDepth, maxDepth, y);
      } else {
        DistanceZero(start, y);
      }
    }
    forall c | c in Cells(trace) ensures Distance(start, c) <= reach {
      var k := CellIndex(trace, c);
    }
  }

  /** The state of the traversal after `head` entries of `trace` have been
      popped: `visited` is every cell enqueued so far, the trace invariant
      holds, the queue spans at most two consecutive depths, and every popped
      entry shallower than `maxDepth` has been expanded. */
  ghost predicate BfsInvariant(start: Axial, maxDepth: int, visited: set<Axial>, trace: seq<Entry>, head: nat) {
    && head <= |trace|
    && visited == Cells(trace)
    && TraceInvariant(start, Reach(maxDepth), trace)
    && QueueSpread(trace, head)
    && Expanded(trace, head, maxDepth, visited)
  }

  /** Popping entry `head` adds a new cell of the ball to the popped cells. */
  lemma PopStep(start: Axial, maxDepth: int, visited: set<Axial>, trace: seq<Entry>, head: nat)
    requires BfsInvariant(start, maxDepth, visited, trace, head) && head < |trace|
    ensures Cells(trace[..head + 1]) == Cells(trace[..head]) + {trace[head].cell}
    ensures trace[head].cell !in Cells(trace[..head])
    ensures trace[head].cell in HexBall(start, Reach(maxDepth))
  {
    PopGrowsPrefix(trace, head);
  }

  /** Popping an entry at depth `maxDepth` or more, without expanding it. */
  lemma SkipStep(start: Axial, maxDepth: int, visited: set<Axial>, trace: seq<Entry>, head: nat)
    requires BfsInvariant(start, maxDepth, visited, trace, head) && head < |trace|
    requires trace[head].depth >= maxDepth
    ensures BfsInvariant(start, maxDepth, visited, trace, head + 1)
  {
    SkipKeeps(trace, head, maxDepth, visited);
  }

  /** The state of the direction loop while entry `head - 1`, that is `e`,
      is being expanded: the trace invariant holds, the entries from `e` on
      lie in one depth band, earlier popped entries have been expanded, and
      every cell at most as far from `start` as `e` has been visited. */
  ghost predicate Expanding(start: Axial, maxDepth: int, e: Entry, visited: set<Axial>, trace: seq<Entry>, head: nat) {
    && 0 < head <= |trace| && trace[head - 1] == e
    && visited == Cells(trace)
    && TraceInvariant(start, Reach(maxDepth), trace)
    && QueueBand(trace, head - 1, e.depth)
    && Expanded(trace, head - 1, maxDepth, visited)
    && (forall y :: Distance(start, y) <= e.depth ==> y in visited)
  }

  /** Popping an entry shallower than `maxDepth` starts its expansion. */
  lemma ExpandStep(start: Axial, maxDepth: int, visited: set<Axial>, trace: seq<Entry>, head: nat)
    requires BfsInvariant(start, maxDepth, visited, trace, head) && head < |trace|
    requires trace[head].depth < maxDepth
    ensures Expanding(start, maxDepth, trace[head], visited, trace, head + 1)
  {
    LayerComplete(start, Reach(maxDepth), maxDepth, trace, head);
    SpreadToBand(start, Reach(maxDepth), trace, head);
  }

  /** Enqueueing the unvisited neighbour of `e` in direction `i` keeps the
      expansion state and leaves the popped prefix alone. */
  lemma EnqueueStep(start: Axial, maxDepth: int, e: Entry, visited: set<Axial>, trace: seq<Entry>, head: nat, i: nat)
    requires Expanding(start, maxDepth, e, visited, trace, head)
    requires e.depth < maxDepth && i < 6 && Neighbor(e.cell, i) !in visited
    ensures var entry := Entry(Neighbor(e.cell, i), e.depth + 1);
      && Expanding(start, maxDepth, e, visited + {Neighbor(e.cell, i)}, trace + [entry], head)
      && (trace + [entry])[..head] == trace[..head]
      && (trace + [entry])[head..] == trace[head..] + [entry]
  {
    var neighbor := Neighbor(e.cell, i);
    var entry := Entry(neighbor, e.depth + 1);
    NeighborDistance(start, e.cell, i);
    EnqueueKeeps(start, Reach(maxDepth), trace, head, e.depth, neighbor);
    ExpandedGrows(trace, head - 1, maxDepth, visited, entry, neighbor);
  }

  /** Once all six neighbours of `e` are visited, its expansion is done. */
  lemma ExpandDone(start: Axial, maxDepth: int, e: Entry, visited: set<Axial>, trace: seq<Entry>, head: nat)
    requires Expanding(start, maxDepth, e, visited, trace, head)
    requires Neighbors(e.cell) <= visited
    ensures BfsInvariant(start, maxDepth, visited, trace, head)
  {
    ExpandKeeps(trace, head, e.depth, maxDepth, visited);
  }

  /** After the first `i` directions of expanding `e`: `visited` has gained
      exactly those neighbours, and `queue` has kept `queue0` as its prefix and
      gained entries one level deeper for neighbours that were not visited. */
  ghost predicate Appended(e: Entry, visited0: set<Axial>, queue0: seq<Entry>,
                           visited: set<Axial>, queue: seq<Entry>, i: nat)
    requires i <= 6
  {
    && visited == visited0 + FirstNeighbors(e.cell, i)
    && |queue0| <= |queue| && queue[..|queue0|] == queue0
    && forall k :: |queue0| <= k < |queue| ==>
         queue[k].depth == e.depth + 1 && queue[k].cell in FirstNeighbors(e.cell, i) && queue[k].cell !in visited0
  }

  lemma AppendNew(e: Entry, visited0: set<Axial>, queue0: seq<Entry>,
                  visited: set<Axial>, queue: seq<Entry>, i: nat)
    requires i < 6 && Appended(e, visited0, queue0, visited, queue, i)
    requires Neighbor(e.cell, i) !in visited
    ensures Appended(e, visited0, queue0, visited + {Neighbor(e.cell, i)},
                     queue + [Entry(Neighbor(e.cell, i), e.depth + 1)], i + 1)
  {
    FirstNeighborsStep(e.cell, i);
    var queue' := queue + [Entry(Neighbor(e.cell, i), e.depth + 1)];
    assert queue'[..|queue0|] == queue[..|queue0|];
  }

  lemma AppendNone(e: Entry, visited0: set<Axial>, queue0: seq<Entry>,
                   visited: set<Axial>, queue: seq<Entry>, i: nat)
    requires i < 6 && Appended(e, visited0, queue0, visited, queue, i)
    requires Neighbor(e.cell, i) in visited
    ensures Appended(e, visited0, queue0, visited, queue, i + 1)
  {
    FirstNeighborsStep(e.cell, i);
  }

  lemma AppendDone(e: Entry, visited0: set<Axial>, queue0: seq<Entry>, visited: set<Axial>, queue: seq<Entry>)
    requires Appended(e, visited0, queue0, visited, queue, 6)
    ensures visited == visited0 + Neighbors(e.cell)
    ensures |queue0| <= |queue| && queue[..|queue0|] == queue0
    ensures forall k :: |queue0| <= k < |queue| ==>
      queue[k].depth == e.depth + 1 && queue[k].cell in Neighbors(e.cell) && queue[k].cell !in visited0
  {
    assert FirstNeighbors(e.cell, 6) == Neighbors(e.cell);
  }

  /** The `for` loop of `hex_neighbors_bfs` over the six directions, for a
      popped entry `e` (index `head - 1` of the trace) whose depth is below
      `maxDepth`: each neighbour not yet visited is marked visited and
      enqueued one level deeper. */
  method EnqueueNeighbors(start: Axial, maxDepth: int, e: Entry, visited0: set<Axial>, queue0: seq<Entry>,
                          ghost trace0: seq<Entry>, ghost head: nat)
    returns (visited: set<Axial>, queue: seq<Entry>, ghost trace: seq<Entry>)
    requires Expanding(start, maxDepth, e, visited0, trace0, head)
    requires queue0 == trace0[head..] && e.depth < maxDepth
    ensures head <= |trace| && queue == trace[head..] && trace[..head] == trace0[..head]
    ensures BfsInvariant(start, maxDepth, visited, trace, head)
    ensures visited == visited0 + Neighbors(e.cell)
    ensures |queue0| <= |queue| && queue[..|queue0|] == queue0
    ensures forall k :: |queue0| <= k < |queue| ==>
      queue[k].depth == e.depth + 1 && queue[k].cell in Neighbors(e.cell) && queue[k].cell !in visited0
  {
    visited, queue, trace := visited0, queue0, trace0;
    for i := 0 to |Directions|
      invariant Expanding(start, maxDepth, e, visited, trace, head)
      invariant queue == trace[head..] && trace[..head] == trace0[..head]
      invariant Appended(e, visited0, queue0, visited, queue, i)
    {
      var (dq, dr) := Directions[i];
      var neighbor := Axial(e.cell.q + dq, e.cell.r + dr);
      assert neighbor == Neighbor(e.cell, i);
      if neighbor !in visited {
        var entry := Entry(neighbor, e.depth + 1);
        EnqueueStep(start, maxDepth, e, visited, trace, head, i);
        AppendNew(e, visited0, queue0, visited, queue, i);
        visited := visited + {neighbor};
        queue := queue + [entry];
        trace := trace + [entry];
      } else {
        AppendNone(e, visited0, queue0, visited, queue, i);
      }
    }
    ExpandDone(start, maxDepth, e, visited, trace, head);
    AppendDone(e, visited0, queue0, visited, queue);
  }

  /** The traversal's starting state: the start cell visited and queued at
      depth 0, nothing popped. */
  lemma InitialState(start: Axial, maxDepth: int)
    ensures BfsInvariant(start, maxDepth, {start}, [Entry(start, 0)], 0)
  {
    var t := [Entry(start, 0)];
    CellsAppend([], Entry(start, 0));
    assert [] + t == t;
    assert Cells(t) == {start};
    assert TraceInvariant(start, Reach(maxDepth), t);
    assert QueueSpread(t, 0);
  }

  /** With every entry popped, `visited` is the ball of radius
      `Reach(maxDepth)` and has its size. */
  lemma FinalState(start: Axial, maxDepth: int, visited: set<Axial>, trace: seq<Entry>)
    requires BfsInvariant(start, maxDepth, visited, trace, |trace|)
    ensures visited == HexBall(start, Reach(maxDepth))
    ensures maxDepth <= 0 ==> visited == {start}
    ensures |visited| == 1 + 3 * Reach(maxDepth) * (Reach(maxDepth) + 1)
  {
    Complete(start, maxDepth, trace);
    BallSize(start, Reach(maxDepth));
    if maxDepth <= 0 {
      BallOfRadiusZero(start);
    }
  }

  /** `hex_neighbors_bfs`: breadth-first search from `start` over the six
      axial directions, expanding a popped cell only while its depth is below
      `maxDepth`. The ghost `trace` is every entry ever enqueued, in order,
      and the queue is always the part of it from the ghost index `head`. */
  method HexNeighborsBfs(start: Axial, maxDepth: int) returns (visited: set<Axial>, ghost trace: seq<Entry>)
    ensures visited == HexBall(start, Reach(maxDepth))
    ensures maxDepth <= 0 ==> visited == {start}
    ensures |visited| == 1 + 3 * Reach(maxDepth) * (Reach(maxDepth) + 1)
    ensures |trace| > 0 && trace[0] == Entry(start, 0)
    ensures Cells(trace) == visited
    ensures EnqueuedOnce(trace)
    ensures DepthIsDistance(start, trace)
    ensures DepthsNondecreasing(trace)
  {
    visited := {start};
    var queue := [Entry(start, 0)];
    trace := queue;
    InitialState(start, maxDepth);
    ghost var head := 0;
    while queue != []
      invariant BfsInvariant(start, maxDepth, visited, trace, head)
      invariant queue == trace[head..]
      decreases HexBall(start, Reach(maxDepth)) - Cells(trace[..head])
    {
      var e := queue[0];
      queue := queue[1..];
      PopStep(start, maxDepth, visited, trace, head);
      if e.depth >= maxDepth {
        SkipStep(start, maxDepth, visited, trace, head);
        head := head + 1;
        continue;
      }
      ExpandStep(start, maxDepth, visited, trace, head);
      head := head + 1;
      visited, queue, trace := EnqueueNeighbors(start, maxDepth, e, visited, queue, trace, head);
    }
    FinalState(start, maxDepth, visited, trace);
  }

  // ---------------------------------------------------------------------------
  // axial_to_cartesian(q, r, radius) and hex_lattice(center, radius, depth)

  /** The planar centre of cell (q, r) in the pointy-top layout:
      x = radius * sqrt3 * (q + r / 2), y = radius * 1.5 * r. */
  function AxialToCartesian(q: int, r: int, radius: real, sqrt3: real): (p: Point)
    ensures r == 0 ==> p == Point(radius * sqrt3 * q as real, 0.0)
  {
    Point(radius * sqrt3 * (q as real + r as real / 2.0), radius * 1.5 * r as real)
  }

  /** The origin cell maps to the origin, whatever the radius. */
  lemma OriginToOrigin(radius: real, sqrt3: real)
    ensures AxialToCartesian(0, 0, radius, sqrt3) == Origin
  {
  }

  /** The y coordinate depends on the row r alone, and is 1.5 * radius * r. */
  lemma RowFixesY(q1: int, q2: int, r: int, radius: real, sqrt3: real)
    ensures AxialToCartesian(q1, r, radius, sqrt3).y == AxialToCartesian(q2, r, radius, sqrt3).y == 1.5 * radius * r as real
  {
  }

  /** For a non-zero radius, distinct cells have distinct centres. */
  lemma CartesianInjective(c1: Axial, c2: Axial, radius: real, sqrt3: real)
    requires radius != 0.0 && sqrt3 != 0.0
    requires AxialToCartesian(c1.q, c1.r, radius, sqrt3) == AxialToCartesian(c2.q, c2.r, radius, sqrt3)
    ensures c1 == c2
  {
    var p1, p2 := AxialToCartesian(c1.q, c1.r, radius, sqrt3), AxialToCartesian(c2.q, c2.r, radius, sqrt3);
    assert (radius * 1.5) * (c1.r as real - c2.r as real) == p1.y - p2.y == 0.0;
    assert c1.r == c2.r;
    assert (radius * sqrt3) * (c1.q as real - c2.q as real) == p1.x - p2.x == 0.0;
    assert c1.q == c2.q;
  }

  /** Neighbouring cells have centres sqrt3 * radius apart: the lattice
      spacing the vent holes get. */
  lemma NeighborSpacing(c: Axial, i: nat, radius: real, sqrt3: real)
    requires i < 6
    requires sqrt3 * sqrt3 == 3.0
    ensures var n := Neighbor(c, i);
      SqDist(AxialToCartesian(c.q, c.r, radius, sqrt3), AxialToCartesian(n.q, n.r, radius, sqrt3)) == 3.0 * radius * radius
  {
    var n := Neighbor(c, i);
    var a, b := AxialToCartesian(c.q, c.r, radius, sqrt3), AxialToCartesian(n.q, n.r, radius, sqrt3);
    var dq, dr := (n.q - c.q) as real, (n.r - c.r) as real;
    assert a.x - b.x == -(radius * sqrt3) * (dq + dr / 2.0);
    assert a.y - b.y == -(radius * 1.5) * dr;
    assert (dq + dr / 2.0) * (dq + dr / 2.0) == 1.0 / 4.0 || (dq + dr / 2.0) * (dq + dr / 2.0) == 1.0;
    if dr == 0.0 {
      assert (dq + dr / 2.0) * (dq + dr / 2.0) == 1.0;
      calc {
        SqDist(a, b);
        (radius * sqrt3) * (radius * sqrt3) * 1.0 + 0.0;
        radius * radius * (sqrt3 * sqrt3);
        3.0 * radius * radius;
      }
    } else {
      assert dr * dr == 1.0;
      assert (dq + dr / 2.0) * (dq + dr / 2.0) == 1.0 / 4.0;
      calc {
        SqDist(a, b);
        (radius * sqrt3) * (radius * sqrt3) * (1.0 / 4.0) + (radius * 1.5) * (radius * 1.5) * 1.0;
        radius * radius * (sqrt3 * sqrt3) / 4.0 + 2.25 * radius * radius;
        3.0 * radius * radius;
      }
    }
  }

  /** The list comprehension of `hex_lattice`: one centre per cell of
      `visited`, taken in the unspecified order of set iteration (each step
      takes an arbitrary cell not yet converted). The ghost `cells` records
      which cell each point came from. */
  method CellCenters(visited: set<Axial>, radius: real, sqrt3: real)
    returns (points: seq<Point>, ghost cells: seq<Axial>)
    ensures |points| == |visited|
    ensures |cells| == |points|
    ensures forall i :: 0 <= i < |points| ==>
      cells[i] in visited && points[i] == AxialToCartesian(cells[i].q, cells[i].r, radius, sqrt3)
    ensures forall i, j :: 0 <= i < j < |cells| ==> cells[i] != cells[j]
    ensures forall c :: c in visited ==> c in cells
    ensures forall c :: c in visited ==> AxialToCartesian(c.q, c.r, radius, sqrt3) in points
  {
    points, cells := [], [];
    var rest := visited;
    while rest != {}
      invariant rest <= visited
      invariant |points| == |cells| && |cells| + |rest| == |visited|
      invariant forall i :: 0 <= i < |points| ==>
        cells[i] in visited && cells[i] !in rest && points[i] == AxialToCartesian(cells[i].q, cells[i].r, radius, sqrt3)
      invariant forall i, j :: 0 <= i < j < |cells| ==> cells[i] != cells[j]
      invariant forall c :: c in visited ==> c in rest || c in cells
      invariant forall c :: c in visited ==> c in rest || AxialToCartesian(c.q, c.r, radius, sqrt3) in points
      decreases |rest|
    {
      var c :| c in rest;
      points := points + [AxialToCartesian(c.q, c.r, radius, sqrt3)];
      cells := cells + [c];
      rest := rest - {c};
    }
  }

  /** Distinct cells give distinct centres when the radius is non-zero. */
  lemma CentersDistinct(points: seq<Point>, cells: seq<Axial>, radius: real, sqrt3: real)
    requires radius != 0.0 && sqrt3 != 0.0
    requires |points| == |cells|
    requires forall i :: 0 <= i < |points| ==> points[i] == AxialToCartesian(cells[i].q, cells[i].r, radius, sqrt3)
    requires forall i, j :: 0 <= i < j < |cells| ==> cells[i] != cells[j]
    ensures forall i, j :: 0 <= i < j < |points| ==> points[i] != points[j]
  {
    forall i, j | 0 <= i < j < |points| ensures points[i] != points[j] {
      if points[i] == points[j] {
        CartesianInjective(cells[i], cells[j], radius, sqrt3);
      }
    }
  }

  /** `hex_lattice`: the centres of every cell `hex_neighbors_bfs` visits, one
      point per cell of the ball of radius max(depth, 0). */
  method HexLattice(center: Axial, radius: real, sqrt3: real, depth: int)
    returns (points: seq<Point>, ghost cells: seq<Axial>)
    ensures |points| == |cells| == |HexBall(center, Reach(depth))|
    ensures depth >= 0 ==> |points| == 1 + 3 * depth * (depth + 1)
    ensures forall i :: 0 <= i < |points| ==>
      Distance(center, cells[i]) <= Reach(depth) && points[i] == AxialToCartesian(cells[i].q, cells[i].r, radius, sqrt3)
    ensures forall i, j :: 0 <= i < j < |cells| ==> cells[i] != cells[j]
    ensures forall c: Axial :: Distance(center, c) <= Reach(depth) ==> c in cells
    ensures forall c: Axial :: Distance(center, c) <= Reach(depth) ==> AxialToCartesian(c.q, c.r, radius, sqrt3) in points
    ensures radius != 0.0 && sqrt3 != 0.0 ==> forall i, j :: 0 <= i < j < |points| ==> points[i] != points[j]
  {
    var visited, _ := HexNeighborsBfs(center, depth);
    points, cells := CellCenters(visited, radius, sqrt3);
    if radius != 0.0 && sqrt3 != 0.0 {
      CentersDistinct(points, cells, radius, sqrt3);
    }
  }
}
