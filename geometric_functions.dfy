/** The staggered row packing and the fixed hexagon outline of
    utils/geometric_functions.py. */
module GeometricFunctions {
  import opened Plane
  import HexagonLattice

  // ---------------------------------------------------------------------------
  // hexagon(center, radius)

  /** The vertex list `hexagon(center, radius)` hands to `polyline`: a closed
      hexagon of circumradius `radius` about the origin. The literal never
      uses `center`, so the outline is the rotation-0 hexagon at the origin
      whatever centre is asked for. */
  function FixedHexagon(center: Point, radius: real, sqrt3: real): (v: seq<Point>)
    ensures |v| == 7 && v[6] == v[0]
  {
    [ Point(radius, 0.0),
      Point(radius / 2.0, radius * sqrt3 / 2.0),
      Point(-radius / 2.0, radius * sqrt3 / 2.0),
      Point(-radius, 0.0),
      Point(-radius / 2.0, -radius * sqrt3 / 2.0),
      Point(radius / 2.0, -radius * sqrt3 / 2.0),
      Point(radius, 0.0) ]
  }

  /** The literal is the outline `hexagon` of utils/hexagon_lattice.py builds
      for rotation 0 about the origin. */
  lemma FixedHexagonIsUnrotatedAtOrigin(center: Point, radius: real, sqrt3: real)
    ensures FixedHexagon(center, radius, sqrt3) == HexagonLattice.HexagonVertices(Origin, radius, 1.0, 0.0, sqrt3)
  {
    var v, w := FixedHexagon(center, radius, sqrt3), HexagonLattice.HexagonVertices(Origin, radius, 1.0, 0.0, sqrt3);
    forall i | 0 <= i < 7 ensures v[i] == w[i] {
      assert v[i] == HexagonLattice.BaseVertices(radius, sqrt3)[i];
    }
  }

  /** Two calls that differ only in the centre return the same outline. */
  lemma FixedHexagonIgnoresCenter(c1: Point, c2: Point, radius: real, sqrt3: real)
    ensures FixedHexagon(c1, radius, sqrt3) == FixedHexagon(c2, radius, sqrt3)
  {
  }

  /** Opposite vertices of the outline have the origin as their midpoint:
      the hexagon is centred at the origin, so for any other `center` it is
      not centred where it was asked to be. */
  lemma FixedHexagonCenteredAtOrigin(center: Point, radius: real, sqrt3: real)
    ensures var v := FixedHexagon(center, radius, sqrt3);
      forall i :: 0 <= i < 3 ==> Midpoint(v[i], v[i + 3]) == Origin
    ensures center != Origin ==> Midpoint(FixedHexagon(center, radius, sqrt3)[0], FixedHexagon(center, radius, sqrt3)[3]) != center
  {
    var v := FixedHexagon(center, radius, sqrt3);
    forall i | 0 <= i < 3 ensures Midpoint(v[i], v[i + 3]) == Origin {
      assert v[i + 3] == Point(-v[i].x, -v[i].y);
    }
  }

  /** The vent's call `hexagon(point, 8)` at the packed point (10, 0): the
      first vertex (8, 0) is 2 away from the requested centre, not 8. */
  lemma VentHoleAtOrigin(sqrt3: real)
    ensures var v := FixedHexagon(Point(10.0, 0.0), 8.0, sqrt3);
      v[0] == Point(8.0, 0.0) && SqDist(v[0], Point(10.0, 0.0)) == 4.0 != 8.0 * 8.0
  {
  }

  /** The outline the function's name and parameters promise: the same
      vertices, each translated to `center`. */
  function CenteredHexagon(center: Point, radius: real, sqrt3: real): (v: seq<Point>)
    ensures |v| == 7 && v[6] == v[0]
  {
    var fixed := FixedHexagon(center, radius, sqrt3);
    seq(7, i requires 0 <= i < 7 => Translate(fixed[i], center))
  }

  /** The corrected outline is the rotation-0 outline of utils/hexagon_lattice.py
      about `center`, and it agrees with the literal when the centre is the
      origin. */
  lemma CenteredHexagonIsUnrotated(center: Point, radius: real, sqrt3: real)
    ensures CenteredHexagon(center, radius, sqrt3) == HexagonLattice.HexagonVertices(center, radius, 1.0, 0.0, sqrt3)
    ensures center == Origin ==> CenteredHexagon(center, radius, sqrt3) == FixedHexagon(center, radius, sqrt3)
  {
    var v, w := CenteredHexagon(center, radius, sqrt3), HexagonLattice.HexagonVertices(center, radius, 1.0, 0.0, sqrt3);
    FixedHexagonIsUnrotatedAtOrigin(center, radius, sqrt3);
    forall i | 0 <= i < 7 ensures v[i] == w[i] {
      assert v[i] == Translate(FixedHexagon(center, radius, sqrt3)[i], center);
    }
  }

  /** Opposite vertices of the corrected outline have `center` as their
      midpoint. */
  lemma CenteredHexagonCentered(center: Point, radius: real, sqrt3: real)
    ensures var v := CenteredHexagon(center, radius, sqrt3);
      forall i :: 0 <= i < 3 ==> Midpoint(v[i], v[i + 3]) == center
  {
    var v, fixed := CenteredHexagon(center, radius, sqrt3), FixedHexagon(center, radius, sqrt3);
    forall i | 0 <= i < 3 ensures Midpoint(v[i], v[i + 3]) == center {
      assert fixed[i + 3] == Point(-fixed[i].x, -fixed[i].y);
      assert v[i] == Translate(fixed[i], center) && v[i + 3] == Translate(fixed[i + 3], center);
    }
  }

  /** Every vertex of the corrected outline lies at distance `radius` from
      `center`. */
  lemma CenteredHexagonOnCircle(center: Point, radius: real, sqrt3: real)
    requires sqrt3 * sqrt3 == 3.0
    ensures forall i :: 0 <= i < 7 ==> SqDist(CenteredHexagon(center, radius, sqrt3)[i], center) == radius * radius
  {
    CenteredHexagonIsUnrotated(center, radius, sqrt3);
    HexagonLattice.HexagonOnCircle(center, radius, 1.0, 0.0, sqrt3);
  }

  // ---------------------------------------------------------------------------
  // distribute_points(d, num)

  /** The number of points offered to the row that starts once `count` points
      have been placed: `num - count` when at most `d // 2` remain, else `d`.
      Dafny's `/` by 2 rounds down like Python's `//`. */
  function RowFill(d: int, num: int, count: int): (n: int)
    ensures d >= 1 && count < num ==> 1 <= n <= d
  {
    if count + d / 2 >= num then num - count else d
  }

  /** The `d // 2` test never changes how many points a row gets: the row
      receives min(offered, remaining) points, and that is min(d, remaining)
      either way. */
  lemma RowFillIsMin(d: int, num: int, count: int)
    requires d >= 1 && count < num
    ensures var n := RowFill(d, num, count);
      1 <= n <= d && (if n < num - count then n else num - count) == (if d < num - count then d else num - count)
  {
  }

  /** With `d <= 0` a row is offered no points, so the `for` loop adds
      nothing, `count` never grows and the `while` loop never ends. */
  lemma NoProgress(d: int, num: int, count: int)
    requires d <= 0 && count < num
    ensures RowFill(d, num, count) <= 0
  {
  }

  /** The abscissa at which row `row` starts: odd rows are shifted right by
      half a pitch. */
  function RowStart(d: int, row: int): (x: real)
    ensures d >= 1 ==> 0.0 <= x < d as real
    ensures d >= 1 ==> (x == 0.0 <==> row % 2 == 0)
  {
    if row % 2 == 1 then 0.5 * d as real else 0.0
  }

  /** The position of the `k`-th point emitted: it is point `k % d` of row
      `k / d`. */
  function PointAt(d: int, k: nat): Point
    requires d >= 1
  {
    var row, i := k / d, k % d;
    Point(RowStart(d, row) + (i * d) as real, (row * d) as real)
  }

  /** The first `n` points emitted (none at all for a non-positive pitch). */
  function Layout(d: int, n: nat): (s: seq<Point>)
    requires d >= 1 || n == 0
    ensures |s| == n
  {
    seq(n, k requires 0 <= k < n => PointAt(d, k))
  }

  /** Whole rows are at least a pitch apart. */
  lemma MulStep(a: int, b: int, d: int)
    requires a < b && d >= 1
    ensures a * d + d <= b * d
  {
    assert (b - a - 1) * d >= 0;
    assert b * d == a * d + d + (b - a - 1) * d;
  }

  /** One more row advances the row's first index by a pitch. */
  lemma NextRowBase(d: int, r: int)
    ensures (r + 1) * d == r * d + d
  {
  }

  /** Index `k` falls in row `r` exactly when r * d <= k < (r + 1) * d. */
  lemma RowOfIndex(d: int, k: nat, r: int)
    requires d >= 1
    ensures k / d == r <==> r * d <= k < r * d + d
  {
    var q, m := k / d, k % d;
    assert k == q * d + m && 0 <= m < d;
    if q > r {
      MulStep(r, q, d);
    } else if q < r {
      MulStep(q, r, d);
    }
  }

  /** Index r * d + i is point `i` of row `r`. */
  lemma RowAndColumn(d: int, r: nat, i: nat)
    requires d >= 1 && i < d
    ensures (r * d + i) / d == r && (r * d + i) % d == i
  {
    RowOfIndex(d, r * d + i, r);
  }

  /** Point `i` of row `r` is at height r * d, and `i` pitches to the right of
      the row's start (half a pitch in on odd rows). */
  lemma LayoutPosition(d: int, n: nat, r: nat, i: nat)
    requires d >= 1 && i < d && r * d + i < n
    ensures Layout(d, n)[r * d + i] == Point(RowStart(d, r) + (i * d) as real, (r * d) as real)
  {
    RowAndColumn(d, r, i);
  }

  lemma LayoutAppend(d: int, n: nat)
    requires d >= 1
    ensures Layout(d, n + 1) == Layout(d, n) + [PointAt(d, n)]
  {
  }

  /** Emitting point `i` of row `row` extends the layout by one point. */
  lemma EmitStep(d: int, row: nat, i: nat, points: seq<Point>)
    requires d >= 1 && i < d
    requires points == Layout(d, row * d + i)
    ensures points + [Point(RowStart(d, row) + (i * d) as real, (row * d) as real)] == Layout(d, row * d + i + 1)
  {
    RowAndColumn(d, row, i);
    LayoutAppend(d, row * d + i);
  }

  /** `distribute_points(d, num)`: fill rows `d` apart, left to right at pitch
      `d`, until `num` points have been placed. The method is the source's
      nested loop; the result is the first max(num, 0) points of `Layout`. */
  method DistributePoints(d: int, num: int) returns (points: seq<Point>)
    requires d >= 1 || num <= 0
    ensures points == Layout(d, if num < 0 then 0 else num)
    ensures |points| == (if num < 0 then 0 else num)
    ensures num <= 0 ==> points == []
  {
    points := [];
    var count := 0;
    var row := 0;
    while count < num
      invariant 0 <= row && 0 <= count == |points|
      invariant count <= num || count == 0
      invariant count < num ==> count == row * d
      invariant points == Layout(d, count)
      decreases num - count
    {
      var y := (row * d) as real;
      var startX := RowStart(d, row);
      var pointsInRow := RowFill(d, num, count);
      RowFillIsMin(d, num, count);
      for i := 0 to pointsInRow
        invariant count == row * d + i < num
        invariant points == Layout(d, count)
      {
        var x := startX + (i * d) as real;
        EmitStep(d, row, i, points);
        points := points + [Point(x, y)];
        count := count + 1;
        if count >= num {
          break;
        }
      }
      NextRowBase(d, row);
      row := row + 1;
    }
  }

  /** The number of points of `s` at height `y`, i.e. on one row. */
  function CountAtHeight(s: seq<Point>, y: real): nat {
    if s == [] then 0 else CountAtHeight(s[..|s| - 1], y) + (if s[|s| - 1].y == y then 1 else 0)
  }

  /** Rows have distinct heights. */
  lemma HeightOfRow(d: int, k: nat, r: nat)
    requires d >= 1
    ensures PointAt(d, k).y == (r * d) as real <==> k / d == r
  {
    var q := k / d;
    if q > r {
      MulStep(r, q, d);
    } else if q < r {
      MulStep(q, r, d);
    }
  }

  /** Row `r` of the first `n` points holds n - r*d points, clipped to [0, d]. */
  lemma {:induction false} RowCount(d: int, n: nat, r: nat)
    requires d >= 1
    ensures CountAtHeight(Layout(d, n), (r * d) as real) ==
      if n <= r * d then 0 else if n - r * d >= d then d else n - r * d
  {
    if n > 0 {
      var s := Layout(d, n);
      assert s[..n - 1] == Layout(d, n - 1);
      RowCount(d, n - 1, r);
      HeightOfRow(d, n - 1, r);
      RowOfIndex(d, n - 1, r);
    }
  }

  /** The row sizes of `distribute_points(d, n)`: no row holds more than `d`
      points, every row before the last is full, the last row is row
      (n - 1) / d and holds at least one point, and no row after it holds any. */
  lemma RowSizes(d: int, n: nat, r: nat)
    requires d >= 1 && n >= 1
    ensures CountAtHeight(Layout(d, n), (r * d) as real) <= d
    ensures r < (n - 1) / d ==> CountAtHeight(Layout(d, n), (r * d) as real) == d
    ensures r == (n - 1) / d ==> CountAtHeight(Layout(d, n), (r * d) as real) >= 1
    ensures r > (n - 1) / d ==> CountAtHeight(Layout(d, n), (r * d) as real) == 0
  {
    RowCount(d, n, r);
    RowOfIndex(d, n - 1, (n - 1) / d);
    var last := (n - 1) / d;
    if r < last {
      MulStep(r, last, d);
    } else if r > last {
      MulStep(last, r, d);
    }
  }

  /** When the row starting at `r * d` has at most `d // 2` points left to
      place, it takes all of them and is the last row. */
  lemma SmallRemainderFillsLastRow(d: int, num: nat, r: nat)
    requires d >= 1
    requires r * d < num <= r * d + d / 2
    ensures (num - 1) / d == r
    ensures CountAtHeight(Layout(d, num), (r * d) as real) == num - r * d
  {
    RowOfIndex(d, num - 1, r);
    RowCount(d, num, r);
  }

  /** Within a row, each point is one pitch to the right of the one before. */
  lemma StepWithinRow(d: int, n: nat, r: nat, i: nat)
    requires d >= 1 && i + 1 < d && r * d + i + 1 < n
    ensures var s := Layout(d, n);
      s[r * d + i + 1] == Point(s[r * d + i].x + d as real, s[r * d + i].y)
  {
    LayoutPosition(d, n, r, i);
    LayoutPosition(d, n, r, i + 1);
    assert (i + 1) * d == i * d + d;
  }

  /** After the last point of row `r` comes the first point of row r + 1,
      one pitch higher, at that row's start. */
  lemma StepToNextRow(d: int, n: nat, r: nat)
    requires d >= 1 && (r + 1) * d < n
    ensures var s := Layout(d, n);
      s[(r + 1) * d].y == s[(r + 1) * d - 1].y + d as real && s[(r + 1) * d].x == RowStart(d, r + 1)
  {
    NextRowBase(d, r);
    LayoutPosition(d, n, r, d - 1);
    LayoutPosition(d, n, r + 1, 0);
  }

  /** Consecutive points: within a row the next point is one pitch to the
      right at the same height; after the last point of a row the next one
      starts the following row, one pitch higher. */
  lemma LayoutOrder(d: int, n: nat, k: nat)
    requires d >= 1 && k + 1 < n
    ensures var s := Layout(d, n);
      if (k + 1) % d != 0 then s[k + 1] == Point(s[k].x + d as real, s[k].y)
      else s[k + 1].y == s[k].y + d as real && s[k + 1].x == RowStart(d, k / d + 1)
  {
    var r, i := k / d, k % d;
    assert k == r * d + i;
    if i + 1 < d {
      RowAndColumn(d, r, i + 1);
      StepWithinRow(d, n, r, i);
    } else {
      NextRowBase(d, r);
      RowAndColumn(d, r + 1, 0);
      StepToNextRow(d, n, r);
    }
  }

  /** For d >= 1 no two points coincide. */
  lemma LayoutDistinct(d: int, n: nat, j: nat, k: nat)
    requires d >= 1 && j < k < n
    ensures Layout(d, n)[j] != Layout(d, n)[k]
  {
    if k / d == j / d {
      SameRowOrder(d, j, k);
    } else {
      HeightOfRow(d, k, j / d);
    }
  }

  /** Within a row, a later point lies further right. */
  lemma SameRowOrder(d: int, j: nat, k: nat)
    requires d >= 1 && j < k && j / d == k / d
    ensures PointAt(d, j).x < PointAt(d, k).x
  {
    MulStep(j % d, k % d, d);
  }

  /** `distribute_points(10, 6)` is one row: x = 0, 10, ..., 50 at y = 0. */
  lemma SixPointsOneRow()
    ensures Layout(10, 6) == [Point(0.0, 0.0), Point(10.0, 0.0), Point(20.0, 0.0),
                              Point(30.0, 0.0), Point(40.0, 0.0), Point(50.0, 0.0)]
  {
  }

  /** `distribute_points(10, 15)` fills row 0 with ten points and puts the
      other five on row 1 at x = 5, 15, ..., 45, y = 10. */
  lemma FifteenPointsTwoRows()
    ensures var s := Layout(10, 15);
      (forall k :: 0 <= k < 10 ==> s[k] == Point((10 * k) as real, 0.0)) &&
      s[10..] == [Point(5.0, 10.0), Point(15.0, 10.0), Point(25.0, 10.0), Point(35.0, 10.0), Point(45.0, 10.0)]
  {
    var s := Layout(10, 15);
    forall k | 0 <= k < 10 ensures s[k] == Point((10 * k) as real, 0.0) {
      RowAndColumn(10, 0, k);
    }
  }
}
