/**
  The geometry kernel of the recognizer: points, paths and the helper
  functions distance, pathLength, pathDistance, centroid and boundingBox.
 */
module Kernel {
  import opened Numerics

  datatype Point = Point(x: real, y: real)

  /** A stroke, in drawing order. */
  type Path = seq<Point>

  /** `distance`: the Euclidean norm of p1 - p2. */
  function Dist(num: Numerics, p1: Point, p2: Point): real {
    num.hypot(p1.x - p2.x, p1.y - p2.y)
  }

  lemma DistNonNegative(num: Numerics, p: Point, q: Point)
    requires num.Valid()
    ensures Dist(num, p, q) >= 0.0
  {
  }

  /** Distance is symmetric and a point is at distance zero from itself. */
  lemma DistSymmetric(num: Numerics, p: Point, q: Point)
    requires num.Valid()
    ensures Dist(num, p, q) == Dist(num, q, p)
    ensures Dist(num, p, p) == 0.0
  {
    HypotNegate(num, p.x - q.x, p.y - q.y);
    assert -(p.x - q.x) == q.x - p.x && -(p.y - q.y) == q.y - p.y;
    HypotZero(num);
    assert p.x - p.x == 0.0 && p.y - p.y == 0.0;
  }

  /** Every point is at distance zero from itself. */
  lemma DistToSelf(num: Numerics)
    requires num.Valid()
    ensures forall p: Point :: Dist(num, p, p) == 0.0
  {
    HypotZero(num);
  }

  /** The point at fraction t of the way from a to b. */
  function Lerp(a: Point, b: Point, t: real): Point {
    Point(a.x + t * (b.x - a.x), a.y + t * (b.y - a.y))
  }

  /** Point q lies on the closed segment from a to b. */
  ghost predicate OnSegment(a: Point, b: Point, q: Point) {
    exists t :: 0.0 <= t <= 1.0 && q == Lerp(a, b, t)
  }

  /** A point on the segment from p to b, moved a further fraction t towards b,
      stays on the segment from a to b. */
  lemma OnSegmentTowardsEnd(a: Point, b: Point, p: Point, t: real)
    requires OnSegment(a, b, p)
    requires 0.0 <= t <= 1.0
    ensures OnSegment(a, b, Lerp(p, b, t))
  {
    var s :| 0.0 <= s <= 1.0 && p == Lerp(a, b, s);
    var s' := s + t * (1.0 - s);
    FractionBounds(t, 1.0 - s);
    LerpCompose(a.x, b.x, s, t);
    LerpCompose(a.y, b.y, s, t);
    assert Lerp(p, b, t) == Lerp(a, b, s');
  }

  /** One coordinate of `OnSegmentTowardsEnd`: moving a fraction t from the
      point at fraction s lands at fraction s + t(1 - s). */
  lemma LerpCompose(a: real, b: real, s: real, t: real)
    ensures (a + s * (b - a)) + t * (b - (a + s * (b - a))) == a + (s + t * (1.0 - s)) * (b - a)
  {
    var d := b - a;
    assert b - (a + s * d) == (1.0 - s) * d;
    assert t * ((1.0 - s) * d) == (t * (1.0 - s)) * d;
  }

  /** What is left of a segment after moving a fraction t along it. */
  lemma DistTowardsEnd(num: Numerics, a: Point, b: Point, t: real)
    requires num.Valid()
    requires 0.0 <= t <= 1.0
    ensures Dist(num, Lerp(a, b, t), b) == (1.0 - t) * Dist(num, a, b)
  {
    var q := Lerp(a, b, t);
    var u := q.x - b.x;
    var v := q.y - b.y;
    assert u == (1.0 - t) * (a.x - b.x);
    assert v == (1.0 - t) * (a.y - b.y);
    HypotScale(num, 1.0 - t, a.x - b.x, a.y - b.y, u, v);
  }

  /** `pathLength`: the left fold summing distance(p[i], p[i-1]) for i > 0. */
  function PathLength(num: Numerics, s: Path): (r: real)
    requires num.Valid()
    ensures r >= 0.0
  {
    if |s| <= 1 then 0.0
    else PathLength(num, s[..|s| - 1]) + Dist(num, s[|s| - 1], s[|s| - 2])
  }

  /** The length of a path is its first segment plus the length of the rest. */
  lemma {:induction false} PathLengthFront(num: Numerics, s: Path)
    requires num.Valid()
    requires |s| >= 2
    ensures PathLength(num, s) == Dist(num, s[0], s[1]) + PathLength(num, s[1..])
  {
    DistSymmetric(num, s[0], s[1]);
    if |s| > 2 {
      var init := s[..|s| - 1];
      PathLengthFront(num, init);
      assert init[1..] == s[1..][..|s[1..]| - 1];
      assert init[0] == s[0] && init[1] == s[1];
    }
  }

  /** Left fold of a sequence of numbers, as Array.prototype.reduce adds them. */
  function Sum(xs: seq<real>): real {
    if |xs| == 0 then 0.0 else Sum(xs[..|xs| - 1]) + xs[|xs| - 1]
  }

  function Xs(s: Path): (r: seq<real>)
    ensures |r| == |s| && forall i :: 0 <= i < |s| ==> r[i] == s[i].x
  {
    seq(|s|, i requires 0 <= i < |s| => s[i].x)
  }

  function Ys(s: Path): (r: seq<real>)
    ensures |r| == |s| && forall i :: 0 <= i < |s| ==> r[i] == s[i].y
  {
    seq(|s|, i requires 0 <= i < |s| => s[i].y)
  }

  /** A sum of non-negative terms is non-negative. */
  lemma {:induction false} SumNonNegative(xs: seq<real>)
    requires forall i :: 0 <= i < |xs| ==> xs[i] >= 0.0
    ensures Sum(xs) >= 0.0
  {
    if |xs| > 0 {
      SumNonNegative(xs[..|xs| - 1]);
    }
  }

  /** A sum of zeros is zero. */
  lemma {:induction false} SumZero(xs: seq<real>)
    requires forall i :: 0 <= i < |xs| ==> xs[i] == 0.0
    ensures Sum(xs) == 0.0
  {
    if |xs| > 0 {
      SumZero(xs[..|xs| - 1]);
    }
  }

  /** The affine combination a·x + b·y + c. */
  function Affine(a: real, b: real, c: real, x: real, y: real): real {
    a * x + b * y + c
  }

  /** The sum of a pointwise affine combination of two sequences is the same
      affine combination of their sums, with the constant counted once per term. */
  lemma {:induction false} SumAffine(u: seq<real>, v: seq<real>, w: seq<real>, a: real, b: real, c: real)
    requires |u| == |v| == |w|
    requires forall i :: 0 <= i < |w| ==> w[i] == Affine(a, b, c, u[i], v[i])
    ensures Sum(w) == Affine(a, b, (|w| as real) * c, Sum(u), Sum(v))
  {
    if |w| == 0 {
      assert (|w| as real) * c == 0.0;
    } else {
      var n := |w| - 1;
      SumAffine(u[..n], v[..n], w[..n], a, b, c);
      assert Sum(w) == Sum(w[..n]) + w[n];
      assert Sum(u) == Sum(u[..n]) + u[n];
      assert Sum(v) == Sum(v[..n]) + v[n];
      AffineStep(a, b, c, |w[..n]| as real, |w| as real, Sum(u[..n]), Sum(v[..n]), Sum(w[..n]), u[n], v[n], w[n]);
    }
  }

  /** One step of `SumAffine`: adding one more affine term. */
  lemma AffineStep(a: real, b: real, c: real, k: real, k': real, su: real, sv: real, sw: real, x: real, y: real, z: real)
    requires k' == k + 1.0
    requires sw == Affine(a, b, k * c, su, sv)
    requires z == Affine(a, b, c, x, y)
    ensures sw + z == Affine(a, b, k' * c, su + x, sv + y)
  {
  }

  /** `centroid`: the mean of the coordinates. An empty path would divide by
      zero, so it is excluded. */
  function Centroid(s: Path): (c: Point)
    requires |s| > 0
    ensures (|s| as real) * c.x == Sum(Xs(s)) && (|s| as real) * c.y == Sum(Ys(s))
  {
    Point(Sum(Xs(s)) / (|s| as real), Sum(Ys(s)) / (|s| as real))
  }

  /** The least element of a non-empty sequence, folded left from the first. */
  function MinOf(xs: seq<real>): (r: real)
    requires |xs| > 0
    ensures r in xs
    ensures forall i :: 0 <= i < |xs| ==> r <= xs[i]
  {
    if |xs| == 1 then xs[0] else Min(MinOf(xs[..|xs| - 1]), xs[|xs| - 1])
  }

  /** The greatest element of a non-empty sequence, folded left from the first. */
  function MaxOf(xs: seq<real>): (r: real)
    requires |xs| > 0
    ensures r in xs
    ensures forall i :: 0 <= i < |xs| ==> xs[i] <= r
  {
    if |xs| == 1 then xs[0] else Max(MaxOf(xs[..|xs| - 1]), xs[|xs| - 1])
  }

  /** A lower bound that occurs in the sequence is its minimum. */
  lemma MinOfUnique(xs: seq<real>, m: real)
    requires m in xs
    requires forall i :: 0 <= i < |xs| ==> m <= xs[i]
    ensures MinOf(xs) == m
  {
    var r := MinOf(xs);
    var i :| 0 <= i < |xs| && xs[i] == r;
    var j :| 0 <= j < |xs| && xs[j] == m;
  }

  /** An upper bound that occurs in the sequence is its maximum. */
  lemma MaxOfUnique(xs: seq<real>, m: real)
    requires m in xs
    requires forall i :: 0 <= i < |xs| ==> xs[i] <= m
    ensures MaxOf(xs) == m
  {
    var r := MaxOf(xs);
    var i :| 0 <= i < |xs| && xs[i] == r;
    var j :| 0 <= j < |xs| && xs[j] == m;
  }

  /** A function on numbers that preserves their order. */
  ghost predicate Monotone(f: real -> real) {
    forall x, y :: x <= y ==> f(x) <= f(y)
  }

  /** The least element of an order-preserving image is the image of the least. */
  lemma MinOfImage(u: seq<real>, w: seq<real>, f: real -> real)
    requires |u| == |w| > 0
    requires Monotone(f)
    requires forall i :: 0 <= i < |w| ==> w[i] == f(u[i])
    ensures MinOf(w) == f(MinOf(u))
  {
    var lo := MinOf(u);
    var i :| 0 <= i < |u| && u[i] == lo;
    assert w[i] == f(lo);
    MinOfUnique(w, f(lo));
  }

  /** The greatest element of an order-preserving image is the image of the greatest. */
  lemma MaxOfImage(u: seq<real>, w: seq<real>, f: real -> real)
    requires |u| == |w| > 0
    requires Monotone(f)
    requires forall i :: 0 <= i < |w| ==> w[i] == f(u[i])
    ensures MaxOf(w) == f(MaxOf(u))
  {
    var hi := MaxOf(u);
    var i :| 0 <= i < |u| && u[i] == hi;
    assert w[i] == f(hi);
    MaxOfUnique(w, f(hi));
  }

  datatype Box = Box(x: real, y: real, width: real, height: real)

  /** `boundingBox`: the smallest axis-aligned box holding every point. */
  function BoundingBox(s: Path): (b: Box)
    requires |s| > 0
    ensures b.width >= 0.0 && b.height >= 0.0
    ensures forall i :: 0 <= i < |s| ==>
      b.x <= s[i].x <= b.x + b.width && b.y <= s[i].y <= b.y + b.height
    ensures exists i :: 0 <= i < |s| && s[i].x == b.x
    ensures exists i :: 0 <= i < |s| && s[i].x == b.x + b.width
    ensures exists i :: 0 <= i < |s| && s[i].y == b.y
    ensures exists i :: 0 <= i < |s| && s[i].y == b.y + b.height
  {
    var minX := MinOf(Xs(s));
    var maxX := MaxOf(Xs(s));
    var minY := MinOf(Ys(s));
    var maxY := MaxOf(Ys(s));
    Box(minX, minY, maxX - minX, maxY - minY)
  }

  /** The larger side of a box, the quantity `scaleTo` divides by. */
  function Extent(b: Box): real {
    Max(b.width, b.height)
  }

  /** The per-index distances between two paths, over the first path's indices. */
  function PairDistances(num: Numerics, p1: Path, p2: Path): (r: seq<real>)
    requires num.Valid()
    requires |p2| >= |p1|
    ensures |r| == |p1|
    ensures forall i :: 0 <= i < |p1| ==> r[i] == Dist(num, p1[i], p2[i])
    ensures forall i :: 0 <= i < |p1| ==> r[i] >= 0.0
    ensures forall i :: 0 <= i < |p1| ==> p1[i] == p2[i] ==> r[i] == 0.0
  {
    DistToSelf(num);
    seq(|p1|, i requires 0 <= i < |p1| => Dist(num, p1[i], p2[i]))
  }

  /** `pathDistance`: the mean of the per-index distances. The second path
      must have a point for every index of the first, and the first must be
      non-empty (the mean divides by its length). */
  function PathDistance(num: Numerics, p1: Path, p2: Path): (r: real)
    requires num.Valid()
    requires 0 < |p1| <= |p2|
    ensures r >= 0.0
  {
    var ds := PairDistances(num, p1, p2);
    SumNonNegative(ds);
    Sum(ds) / (|p1| as real)
  }

  /** A path is at mean distance zero from itself. */
  lemma PathDistanceSelf(num: Numerics, s: Path)
    requires num.Valid()
    requires |s| > 0
    ensures PathDistance(num, s, s) == 0.0
  {
    var ds := PairDistances(num, s, s);
    forall i | 0 <= i < |s|
      ensures ds[i] == 0.0
    {
      DistSymmetric(num, s[i], s[i]);
    }
    SumZero(ds);
  }
}
