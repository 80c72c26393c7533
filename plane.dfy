/** Points of the plane and the rigid motions the vent geometry applies to them.
    Coordinates are exact reals; the source's floating point is not modelled. */
module Plane {

  /** A 2D point (x, y); the source's `(x, y)` tuple. */
  datatype Point = Point(x: real, y: real)

  const Origin: Point := Point(0.0, 0.0)

  function Sq(v: real): real { v * v }

  /** Squared Euclidean distance between two points. */
  function SqDist(a: Point, b: Point): real {
    Sq(a.x - b.x) + Sq(a.y - b.y)
  }

  /** The midpoint of the segment from `a` to `b`. */
  function Midpoint(a: Point, b: Point): Point {
    Point((a.x + b.x) / 2.0, (a.y + b.y) / 2.0)
  }

  /** Counter-clockwise rotation about the origin by the angle whose cosine is
      `cosT` and whose sine is `sinT`. */
  function Rotate(p: Point, cosT: real, sinT: real): (r: Point)
    ensures cosT == 1.0 && sinT == 0.0 ==> r == p
  {
    Point(p.x * cosT - p.y * sinT, p.x * sinT + p.y * cosT)
  }

  /** Translation of `p` by the vector `offset`. */
  function Translate(p: Point, offset: Point): (r: Point)
    ensures offset == Origin ==> r == p
  {
    Point(offset.x + p.x, offset.y + p.y)
  }

  /** A rotation with cos^2 + sin^2 = 1 is undone by the rotation with the
      opposite sine. */
  lemma RotateInverse(p: Point, cosT: real, sinT: real)
    requires cosT * cosT + sinT * sinT == 1.0
    ensures Rotate(Rotate(p, cosT, sinT), cosT, -sinT) == p
  {
    var q := Rotate(p, cosT, sinT);
    calc {
      q.x * cosT + q.y * sinT;
      (p.x * cosT - p.y * sinT) * cosT + (p.x * sinT + p.y * cosT) * sinT;
      p.x * (cosT * cosT + sinT * sinT);
      p.x;
    }
    calc {
      -q.x * sinT + q.y * cosT;
      -(p.x * cosT - p.y * sinT) * sinT + (p.x * sinT + p.y * cosT) * cosT;
      p.y * (cosT * cosT + sinT * sinT);
      p.y;
    }
  }

  /** Such a rotation is one-to-one. */
  lemma RotateInjective(a: Point, b: Point, cosT: real, sinT: real)
    requires cosT * cosT + sinT * sinT == 1.0
    requires Rotate(a, cosT, sinT) == Rotate(b, cosT, sinT)
    ensures a == b
  {
    RotateInverse(a, cosT, sinT);
    RotateInverse(b, cosT, sinT);
  }

  /** Such a rotation keeps the distance of a point to the origin. */
  lemma RotatePreservesNorm(p: Point, cosT: real, sinT: real)
    requires cosT * cosT + sinT * sinT == 1.0
    ensures SqDist(Rotate(p, cosT, sinT), Origin) == SqDist(p, Origin)
  {
    var q := Rotate(p, cosT, sinT);
    calc {
      SqDist(q, Origin);
      Sq(p.x * cosT - p.y * sinT) + Sq(p.x * sinT + p.y * cosT);
      (p.x * p.x + p.y * p.y) * (cosT * cosT + sinT * sinT);
      p.x * p.x + p.y * p.y;
      SqDist(p, Origin);
    }
  }

  /** Rotation is linear: the rotated difference is the difference of the
      rotated points. */
  lemma RotateDifference(a: Point, b: Point, cosT: real, sinT: real)
    ensures var ra, rb := Rotate(a, cosT, sinT), Rotate(b, cosT, sinT);
      Rotate(Point(a.x - b.x, a.y - b.y), cosT, sinT) == Point(ra.x - rb.x, ra.y - rb.y)
  {
    calc {
      (a.x * cosT - a.y * sinT) - (b.x * cosT - b.y * sinT);
      (a.x - b.x) * cosT - (a.y - b.y) * sinT;
    }
    calc {
      (a.x * sinT + a.y * cosT) - (b.x * sinT + b.y * cosT);
      (a.x - b.x) * sinT + (a.y - b.y) * cosT;
    }
  }

  /** Such a rotation keeps distances between points. */
  lemma RotatePreservesDistance(a: Point, b: Point, cosT: real, sinT: real)
    requires cosT * cosT + sinT * sinT == 1.0
    ensures SqDist(Rotate(a, cosT, sinT), Rotate(b, cosT, sinT)) == SqDist(a, b)
  {
    var d := Point(a.x - b.x, a.y - b.y);
    RotatePreservesNorm(d, cosT, sinT);
    RotateDifference(a, b, cosT, sinT);
  }

  /** Translating both points by the same vector keeps their distance. */
  lemma TranslatePreservesDistance(a: Point, b: Point, offset: Point)
    ensures SqDist(Translate(a, offset), Translate(b, offset)) == SqDist(a, b)
  {
  }
}
