/** Cells of a hexagonal grid in axial coordinates, the hex distance between
    them, and the ball of cells within a given distance of a centre cell. */
module AxialGrid {

  /** A grid cell (q, r) in axial coordinates. */
  datatype Axial = Axial(q: int, r: int)

  function Abs(n: int): nat { if n < 0 then -n else n }

  /** The hex (graph) distance between two cells:
      (|dq| + |dr| + |dq + dr|) / 2. */
  function Distance(a: Axial, b: Axial): nat {
    (Abs(b.q - a.q) + Abs(b.r - a.r) + Abs((b.q - a.q) + (b.r - a.r))) / 2
  }

  /** The six axial offsets, in the order the traversal expands them. */
  const Directions: seq<(int, int)> := [(1, 0), (1, -1), (0, -1), (-1, 0), (-1, 1), (0, 1)]

  /** The neighbour of `c` in direction `i`. */
  function Neighbor(c: Axial, i: nat): (n: Axial)
    requires i < 6
    ensures Distance(c, n) == 1
  {
    Axial(c.q + Directions[i].0, c.r + Directions[i].1)
  }

  /** The six neighbours of `c`. */
  function Neighbors(c: Axial): set<Axial> {
    set i | 0 <= i < 6 :: Neighbor(c, i)
  }

  /** Every cell within hex distance `k` of `center`. */
  function HexBall(center: Axial, k: int): (ball: set<Axial>)
    ensures forall c :: c in ball <==> Distance(center, c) <= k
  {
    var box := set q, r | center.q - k <= q <= center.q + k && center.r - k <= r <= center.r + k
                        && Distance(center, Axial(q, r)) <= k :: Axial(q, r);
    assert forall c :: Distance(center, c) <= k ==> c in box by {
      forall c | Distance(center, c) <= k ensures c in box {
        assert c == Axial(c.q, c.r);
      }
    }
    box
  }

  lemma DistanceZero(a: Axial, c: Axial)
    ensures Distance(a, c) == 0 <==> c == a
  {
  }

  /** One step in any direction changes the distance to a fixed cell by at
      most one. */
  lemma NeighborDistance(a: Axial, c: Axial, i: nat)
    requires i < 6
    ensures Distance(a, Neighbor(c, i)) <= Distance(a, c) + 1
    ensures Distance(a, c) <= Distance(a, Neighbor(c, i)) + 1
  {
  }

  /** Every cell other than `a` has a neighbour one step closer to `a`. */
  lemma Predecessor(a: Axial, c: Axial) returns (w: Axial, i: nat)
    requires c != a
    ensures i < 6 && Neighbor(w, i) == c
    ensures Distance(a, w) + 1 == Distance(a, c)
  {
    var dq, dr := c.q - a.q, c.r - a.r;
    if dq > 0 && dr >= 0 {
      i := 0;
    } else if dq <= 0 && dq + dr > 0 {
      i := 5;
    } else if dr > 0 {
      i := 4;
    } else if dq < 0 {
      i := 3;
    } else if dq + dr < 0 {
      i := 2;
    } else {
      i := 1;
    }
    w := Axial(c.q - Directions[i].0, c.r - Directions[i].1);
  }

  /** The ball of radius 0 is the centre alone. */
  lemma BallOfRadiusZero(center: Axial)
    ensures HexBall(center, 0) == {center}
  {
    forall c | c in HexBall(center, 0) ensures c == center {
      DistanceZero(center, c);
    }
  }

  // ---------------------------------------------------------------------------
  // The size of the ball, counted column by column: in column q = center.q + dq
  // (|dq| <= k) the ball holds the 2k + 1 - |dq| cells with
  // max(-k, -k - dq) <= r - center.r <= min(k, k - dq).

  function Low(k: int, dq: int): int { if dq >= 0 then -k else -k - dq }
  function High(k: int, dq: int): int { if dq >= 0 then k - dq else k }

  /** The cells of column `q` with rows in [lo, hi). */
  function Segment(q: int, lo: int, hi: int): set<Axial>
    decreases hi - lo
  {
    if hi <= lo then {} else Segment(q, lo, hi - 1) + {Axial(q, hi - 1)}
  }

  lemma {:induction false} SegmentMembership(q: int, lo: int, hi: int, c: Axial)
    ensures c in Segment(q, lo, hi) <==> c.q == q && lo <= c.r < hi
    decreases hi - lo
  {
    if lo < hi {
      SegmentMembership(q, lo, hi - 1, c);
    }
  }

  lemma {:induction false} SegmentSize(q: int, lo: int, hi: int)
    requires lo <= hi
    ensures |Segment(q, lo, hi)| == hi - lo
    decreases hi - lo
  {
    if lo < hi {
      SegmentSize(q, lo, hi - 1);
      SegmentMembership(q, lo, hi - 1, Axial(q, hi - 1));
    }
  }

  /** The ball's cells in the first `n` columns, dq = -k, ..., -k + n - 1. */
  function Columns(center: Axial, k: nat, n: nat): set<Axial> {
    if n == 0 then {}
    else
      var dq := n - 1 - k;
      Columns(center, k, n - 1) + Segment(center.q + dq, center.r + Low(k, dq), center.r + High(k, dq) + 1)
  }

  lemma {:induction false} ColumnsMembership(center: Axial, k: nat, n: nat, c: Axial)
    ensures c in Columns(center, k, n) <==>
      0 <= c.q - center.q + k < n && Low(k, c.q - center.q) <= c.r - center.r <= High(k, c.q - center.q)
  {
    if n > 0 {
      ColumnsMembership(center, k, n - 1, c);
      var dq := n - 1 - k;
      SegmentMembership(center.q + dq, center.r + Low(k, dq), center.r + High(k, dq) + 1, c);
    }
  }

  /** The number of cells in the first `n` columns of a ball of radius `k`. */
  function Tally(k: nat, n: nat): int {
    if n == 0 then 0 else Tally(k, n - 1) + (2 * k + 1 - Abs(n - 1 - k))
  }

  /** Adding column `n - 1` adds its High - Low + 1 cells. */
  lemma ColumnsStep(center: Axial, k: nat, n: nat)
    requires 0 < n <= 2 * k + 1
    ensures |Columns(center, k, n)| == |Columns(center, k, n - 1)| + (High(k, n - 1 - k) - Low(k, n - 1 - k) + 1)
  {
    var dq: int := n - 1 - k;
    var q, lo, hi := center.q + dq, center.r + Low(k, dq), center.r + High(k, dq) + 1;
    assert Columns(center, k, n) == Columns(center, k, n - 1) + Segment(q, lo, hi);
    SegmentSize(q, lo, hi);
    ColumnsDisjoint(center, k, n - 1, q, lo, hi);
  }

  /** Column `q = center.q + n - k` is disjoint from the columns before it. */
  lemma ColumnsDisjoint(center: Axial, k: nat, n: nat, q: int, lo: int, hi: int)
    requires q == center.q + n - k
    ensures |Columns(center, k, n) + Segment(q, lo, hi)| == |Columns(center, k, n)| + |Segment(q, lo, hi)|
  {
    var before, seg := Columns(center, k, n), Segment(q, lo, hi);
    forall c | c in seg ensures c !in before {
      SegmentMembership(q, lo, hi, c);
      ColumnsMembership(center, k, n, c);
    }
    assert before * seg == {};
  }

  lemma {:induction false} ColumnsSize(center: Axial, k: nat, n: nat)
    requires n <= 2 * k + 1
    ensures |Columns(center, k, n)| == Tally(k, n)
  {
    if n > 0 {
      var dq := n - 1 - k;
      ColumnsSize(center, k, n - 1);
      ColumnsStep(center, k, n);
      assert High(k, dq) - Low(k, dq) + 1 == 2 * k + 1 - Abs(dq);
    }
  }

  /** Over the left half, dq <= 0, column j has k + 1 + j cells. */
  lemma {:induction false} TallyLeft(k: nat, n: nat)
    requires n <= k + 1
    ensures 2 * Tally(k, n) == 2 * n * (k + 1) + n * (n - 1)
  {
    if n > 0 {
      TallyLeft(k, n - 1);
      assert Abs(n - 1 - k) == k + 1 - n;
      assert 2 * Tally(k, n) == 2 * Tally(k, n - 1) + 2 * (k + n);
      LeftStep(k, n, 2 * Tally(k, n - 1));
    }
  }

  /** Over the right half, column k + 1 + t has 2k - t cells. */
  lemma {:induction false} TallyRight(k: nat, m: nat)
    requires m <= k
    ensures 2 * Tally(k, k + 1 + m) == 2 * (k + 1) * (k + 1) + k * (k + 1) + 4 * k * m - m * (m - 1)
  {
    if m == 0 {
      TallyLeft(k, k + 1);
    } else {
      TallyRight(k, m - 1);
      assert Abs(k + m - k) == m;
      assert 2 * Tally(k, k + 1 + m) == 2 * Tally(k, k + m) + 2 * (2 * k + 1 - m);
      RightStep(k, m, 2 * Tally(k, k + m));
    }
  }

  /** The polynomial step of TallyLeft. */
  lemma LeftStep(k: int, n: int, a: int)
    requires a == 2 * (n - 1) * (k + 1) + (n - 1) * (n - 2)
    ensures a + 2 * (k + n) == 2 * n * (k + 1) + n * (n - 1)
  {
    var nn, nk := n * n, n * k;
    assert 2 * (n - 1) * (k + 1) == 2 * nk + 2 * n - 2 * k - 2;
    assert (n - 1) * (n - 2) == nn - 3 * n + 2;
    assert 2 * n * (k + 1) == 2 * nk + 2 * n;
    assert n * (n - 1) == nn - n;
  }

  /** The polynomial step of TallyRight. */
  lemma RightStep(k: int, m: int, a: int)
    requires a == 2 * (k + 1) * (k + 1) + k * (k + 1) + 4 * k * (m - 1) - (m - 1) * (m - 2)
    ensures a + 2 * (2 * k + 1 - m) == 2 * (k + 1) * (k + 1) + k * (k + 1) + 4 * k * m - m * (m - 1)
  {
    var mm, km := m * m, k * m;
    assert 4 * k * (m - 1) == 4 * km - 4 * k;
    assert (m - 1) * (m - 2) == mm - 3 * m + 2;
    assert 4 * k * m == 4 * km;
    assert m * (m - 1) == mm - m;
  }

  lemma TallyFull(k: nat)
    ensures Tally(k, 2 * k + 1) == 1 + 3 * k * (k + 1)
  {
    TallyRight(k, k);
    ClosedForm(k, Tally(k, 2 * k + 1));
  }

  /** The polynomial step of TallyFull. */
  lemma ClosedForm(k: int, t: int)
    requires 2 * t == 2 * (k + 1) * (k + 1) + k * (k + 1) + 4 * k * k - k * (k - 1)
    ensures t == 1 + 3 * k * (k + 1)
  {
    var kk := k * k;
    assert 2 * (k + 1) * (k + 1) == 2 * kk + 4 * k + 2;
    assert k * (k + 1) == kk + k;
    assert 4 * k * k == 4 * kk;
    assert k * (k - 1) == kk - k;
    assert 3 * k * (k + 1) == 3 * kk + 3 * k;
  }

  lemma ColumnsCoverBall(center: Axial, k: nat)
    ensures Columns(center, k, 2 * k + 1) == HexBall(center, k)
  {
    forall c ensures c in Columns(center, k, 2 * k + 1) <==> c in HexBall(center, k) {
      ColumnsMembership(center, k, 2 * k + 1, c);
    }
  }

  /** A ball of radius k >= 0 holds exactly 1 + 3k(k + 1) cells. */
  lemma BallSize(center: Axial, k: nat)
    ensures |HexBall(center, k)| == 1 + 3 * k * (k + 1)
  {
    ColumnsCoverBall(center, k);
    ColumnsSize(center, k, 2 * k + 1);
    TallyFull(k);
  }
}
