/**
  The path normalizer of the recognizer: `resample`, `rotateBy`, `scaleTo`,
  `translateTo` and the pipeline `processPath` that chains them.
 */
module Normalizer {
  import opened Numerics
  import opened Kernel

  /** Every normalized path has this many points. */
  const NumResamplePoints: nat := 64

  /** The side length `processPath` scales to. */
  const ReferenceSize: real := 250.0

  // ---------------------------------------------------------------------------
  // resample
  // ---------------------------------------------------------------------------

  /** The length of the input still ahead of the walk: the rest of the current
      segment from `prev`, then every later segment. */
  ghost function Remaining(num: Numerics, pts: Path, i: nat, prev: Point): real
    requires num.Valid()
    requires 1 <= i <= |pts|
  {
    if i == |pts| then 0.0 else Dist(num, prev, pts[i]) + PathLength(num, pts[i..])
  }

  /** What holds at the top of every iteration of the resample loop: the walk is
      at index i with previous point `prev`, which lies on the current segment;
      D is the distance accumulated since the last emitted point, with
      0 <= D < I; and the k points emitted so far (k·I), the accumulator and the
      length still ahead add up to the whole path length (n - 1)·I. */
  ghost predicate WalkInv(num: Numerics, pts: Path, I: real, n: nat, i: nat, prev: Point, D: real, k: nat)
    requires num.Valid()
  {
    && 1 <= i <= |pts|
    && 0.0 < I
    && 0.0 <= D < I
    && (i < |pts| ==> OnSegment(pts[i - 1], pts[i], prev))
    && (k as real) * I + D + Remaining(num, pts, i, prev) == ((n - 1) as real) * I
  }

  /** The interpolation factor (I - D)/d of the emit branch. Because D < I <= D + d
      the segment length d is positive, so the division is defined, and the
      factor lies in (0, 1]: the new point is on the current segment. */
  function EmitFraction(I: real, D: real, d: real): (t: real)
    requires 0.0 <= D < I <= D + d
    ensures 0.0 < t <= 1.0
    ensures t * d == I - D
  {
    (I - D) / d
  }

  /** The length of g spacings of length I. */
  function Steps(g: int, I: real): real {
    (g as real) * I
  }

  /** Point q lies on a segment of the path with exactly `ahead` of the path's
      length still to come after it. */
  ghost predicate AheadBy(num: Numerics, pts: Path, q: Point, ahead: real)
    requires num.Valid()
  {
    exists m :: 1 <= m < |pts| && OnSegment(pts[m - 1], pts[m], q) && Remaining(num, pts, m, q) == ahead
  }

  /** The resample loop, from the state (i, prev, D) with k points emitted.
      `resample` splices each new point into the input at index i so that the next
      iteration measures from it; here `prev` carries that point instead, and
      the walk stays at index i after an emit. The result is the sequence of
      emitted points: the j-th of them lies on the path with n - 2 - k - j
      spacings still ahead, so consecutive points are one spacing I apart
      along the path. */
  function Walk(num: Numerics, pts: Path, I: real, n: nat, i: nat, prev: Point, D: real, k: nat): (out: Path)
    requires num.Valid()
    requires WalkInv(num, pts, I, n, i, prev, D, k)
    decreases |pts| - i, n - k
    ensures |out| == n - 1 - k
    ensures forall j :: 0 <= j < |out| ==> AheadBy(num, pts, out[j], Steps(n - 2 - k - j, I))
  {
    if i == |pts| then
      WalkDone(num, pts, I, n, i, prev, D, k);
      []
    else
      var d := Dist(num, prev, pts[i]);
      if D + d >= I then
        var q := Lerp(prev, pts[i], EmitFraction(I, D, d));
        WalkEmit(num, pts, I, n, i, prev, D, k);
        EmitAhead(num, pts, I, n, i, q, k);
        var rest := Walk(num, pts, I, n, i, q, 0.0, k + 1);
        PrependAhead(num, pts, q, rest, I, n, k);
        [q] + rest
      else
        WalkAdvance(num, pts, I, n, i, prev, D, k);
        Walk(num, pts, I, n, i + 1, pts[i], D + d, k)
  }

  /** A non-zero whole multiple of a positive step is at least one step away from zero. */
  lemma SignedMultiple(g: int, I: real)
    requires I > 0.0
    ensures g >= 1 ==> (g as real) * I >= I
    ensures g <= -1 ==> (g as real) * I <= -I
  {
    var h := (g as real) - 1.0;
    var h' := (g as real) + 1.0;
    assert (g as real) * I == I + h * I;
    assert (g as real) * I == -I + h' * I;
    if g >= 1 {
      assert h * I >= 0.0;
    }
    if g <= -1 {
      assert h' * I <= 0.0;
    }
  }

  /** A multiple k·I that falls short of m·I by less than I is m·I. */
  lemma WholeSteps(k: int, m: int, I: real, D: real)
    requires I > 0.0 && 0.0 <= D < I
    requires (k as real) * I + D == (m as real) * I
    ensures k == m
  {
    var g := m - k;
    assert (g as real) * I == D;
    SignedMultiple(g, I);
  }

  /** When the input is exhausted, exactly n - 1 points have been emitted. */
  lemma WalkDone(num: Numerics, pts: Path, I: real, n: nat, i: nat, prev: Point, D: real, k: nat)
    requires num.Valid()
    requires WalkInv(num, pts, I, n, i, prev, D, k)
    requires i == |pts|
    ensures k == n - 1
  {
    WholeSteps(k, n - 1, I, D);
  }

  lemma NextMultiple(k: int, I: real)
    ensures ((k + 1) as real) * I == (k as real) * I + I
  {
  }

  /** The emit branch keeps the loop invariant, and another point was still due. */
  lemma WalkEmit(num: Numerics, pts: Path, I: real, n: nat, i: nat, prev: Point, D: real, k: nat)
    requires num.Valid()
    requires WalkInv(num, pts, I, n, i, prev, D, k)
    requires i < |pts|
    requires D + Dist(num, prev, pts[i]) >= I
    ensures k + 1 <= n - 1
    ensures WalkInv(num, pts, I, n, i, Lerp(prev, pts[i], EmitFraction(I, D, Dist(num, prev, pts[i]))), 0.0, k + 1)
  {
    var d := Dist(num, prev, pts[i]);
    var rest := Remaining(num, pts, i, prev);
    assert rest >= d;
    EmitBound(k, n - 1, I, D, d, rest);
    var t := EmitFraction(I, D, d);
    OnSegmentTowardsEnd(pts[i - 1], pts[i], prev, t);
    EmitRemaining(num, pts, I, i, prev, D);
    NextMultiple(k, I);
  }

  /** A point emitted as the (k + 1)-th has n - 2 - k spacings still ahead. */
  lemma EmitAhead(num: Numerics, pts: Path, I: real, n: nat, i: nat, q: Point, k: nat)
    requires num.Valid()
    requires i < |pts|
    requires WalkInv(num, pts, I, n, i, q, 0.0, k + 1)
    ensures AheadBy(num, pts, q, Steps(n - 2 - k, I))
  {
    StepsLeft(k + 1, n - 1, I, Remaining(num, pts, i, q));
    assert OnSegment(pts[i - 1], pts[i], q);
  }

  /** A point with g spacings ahead, followed by points each one spacing
      further along, gives points with g - j spacings ahead. */
  lemma PrependAhead(num: Numerics, pts: Path, q: Point, rest: Path, I: real, n: int, k: int)
    requires num.Valid()
    requires AheadBy(num, pts, q, Steps(n - 2 - k, I))
    requires forall j :: 0 <= j < |rest| ==> AheadBy(num, pts, rest[j], Steps(n - 2 - (k + 1) - j, I))
    ensures forall j :: 0 <= j < |[q] + rest| ==> AheadBy(num, pts, ([q] + rest)[j], Steps(n - 2 - k - j, I))
  {
    var out := [q] + rest;
    forall j | 0 <= j < |out|
      ensures AheadBy(num, pts, out[j], Steps(n - 2 - k - j, I))
    {
      if j > 0 {
        var x := rest[j - 1];
        assert AheadBy(num, pts, x, Steps(n - 2 - (k + 1) - (j - 1), I));
        assert n - 2 - (k + 1) - (j - 1) == n - 2 - k - j;
        assert out[j] == x;
      }
    }
  }

  /** What is left of m spacings after k of them is m - k spacings. */
  lemma StepsLeft(k: int, m: int, I: real, rest: real)
    requires (k as real) * I + 0.0 + rest == (m as real) * I
    ensures rest == Steps(m - k, I)
  {
    assert ((m - k) as real) * I == (m as real) * I - (k as real) * I;
  }

  /** The emitted point q lies I - D further along, so the length ahead of it
      is shorter by I - D. */
  lemma EmitRemaining(num: Numerics, pts: Path, I: real, i: nat, prev: Point, D: real)
    requires num.Valid()
    requires 1 <= i < |pts|
    requires 0.0 <= D < I <= D + Dist(num, prev, pts[i])
    ensures Remaining(num, pts, i, Lerp(prev, pts[i], EmitFraction(I, D, Dist(num, prev, pts[i]))))
         == Remaining(num, pts, i, prev) - (I - D)
  {
    var p := pts[i];
    var d := Dist(num, prev, p);
    var t := EmitFraction(I, D, d);
    // what is left of the segment after q has length (1 - t)·d = d - (I - D)
    DistTowardsEnd(num, prev, p, t);
    assert (1.0 - t) * d == d - t * d;
  }

  /** With k·I + D + rest == m·I and the next step I within D + rest, a
      (k + 1)-th step still fits: k + 1 <= m. */
  lemma EmitBound(k: int, m: int, I: real, D: real, d: real, rest: real)
    requires 0.0 <= D < I <= D + d && d <= rest
    requires (k as real) * I + D + rest == (m as real) * I
    ensures k + 1 <= m
  {
    NextMultiple(k, I);
    var g := m - (k + 1);
    assert (g as real) * I == (m as real) * I - ((k + 1) as real) * I;
    SignedMultiple(g, I);
  }

  /** The advance branch keeps the loop invariant. */
  lemma WalkAdvance(num: Numerics, pts: Path, I: real, n: nat, i: nat, prev: Point, D: real, k: nat)
    requires num.Valid()
    requires WalkInv(num, pts, I, n, i, prev, D, k)
    requires i < |pts|
    requires D + Dist(num, prev, pts[i]) < I
    ensures WalkInv(num, pts, I, n, i + 1, pts[i], D + Dist(num, prev, pts[i]), k)
  {
    var d := Dist(num, prev, pts[i]);
    if i + 1 < |pts| {
      assert Lerp(pts[i], pts[i + 1], 0.0) == pts[i];
      PathLengthFront(num, pts[i..]);
      assert pts[i..][1..] == pts[i + 1..];
      assert Remaining(num, pts, i + 1, pts[i]) == PathLength(num, pts[i..]);
    } else {
      assert pts[i..] == [pts[i]];
    }
  }

  /** The spacing I = length/(n - 1) of `resample`: n - 1 spacings make up the
      whole length of the path. */
  function Spacing(num: Numerics, pts: Path, n: nat): (I: real)
    requires num.Valid()
    requires n >= 2
    ensures Steps(n - 1, I) == PathLength(num, pts)
  {
    PathLength(num, pts) / ((n - 1) as real)
  }

  /** `newPoints` when the loop of `resample` ends: the first input point
      followed by every emitted point. A one-point path has no segment to walk.
      Point j has n - 1 - j spacings of the path still ahead of it: the first
      point has the whole length ahead, and each later point lies one spacing
      further along. */
  function WalkedPoints(num: Numerics, pts: Path, n: nat): (w: Path)
    requires num.Valid()
    requires |pts| >= 1 && n >= 2
    requires |pts| >= 2 ==> PathLength(num, pts) > 0.0
    ensures |w| >= 1 && w[0] == pts[0]
    ensures |pts| >= 2 ==> |w| == n
    ensures |pts| >= 2 ==> forall j :: 0 <= j < |w| ==> AheadBy(num, pts, w[j], Steps(n - 1 - j, Spacing(num, pts, n)))
    ensures |pts| == 1 ==> w == [pts[0]]
  {
    if |pts| == 1 then [pts[0]]
    else
      var I := Spacing(num, pts, n);
      WalkStart(num, pts, n);
      var emitted := Walk(num, pts, I, n, 1, pts[0], 0.0, 0);
      assert AheadBy(num, pts, pts[0], Steps(n - 1, I)) by {
        assert Lerp(pts[0], pts[1], 0.0) == pts[0];
        assert OnSegment(pts[0], pts[1], pts[0]);
      }
      [pts[0]] + emitted
  }

  /** The loop invariant holds on entry: nothing emitted, nothing accumulated,
      the whole path ahead. */
  lemma WalkStart(num: Numerics, pts: Path, n: nat)
    requires num.Valid()
    requires |pts| >= 2 && n >= 2
    requires PathLength(num, pts) > 0.0
    ensures WalkInv(num, pts, Spacing(num, pts, n), n, 1, pts[0], 0.0, 0)
    ensures Remaining(num, pts, 1, pts[0]) == PathLength(num, pts)
  {
    var L := PathLength(num, pts);
    var I := Spacing(num, pts, n);
    SplitEvenly(L, n - 1);
    assert Lerp(pts[0], pts[1], 0.0) == pts[0];
    PathLengthFront(num, pts);
    assert Remaining(num, pts, 1, pts[0]) == L;
  }

  /** Splitting a positive length into m equal parts gives a positive part,
      and m parts make up the whole again. */
  lemma SplitEvenly(L: real, m: int)
    requires L > 0.0 && m >= 1
    ensures L / (m as real) > 0.0
    ensures (m as real) * (L / (m as real)) == L
  {
  }

  /** `resample`: rebuild the path as n points spaced I = length/(n - 1) apart
      along it, padding with the last input point when the walk stopped one
      short. The division by the path length in `resample` needs a positive length once the
      path has a segment.

      In exact arithmetic the walk always lands on exactly n points, so the
      padding never fires for a path with a segment; it fires only for a
      one-point path resampled to two points. */
  function Resample(num: Numerics, pts: Path, n: nat): (r: Path)
    requires num.Valid()
    requires |pts| >= 1 && n >= 2
    requires |pts| >= 2 ==> PathLength(num, pts) > 0.0
    ensures |r| >= 1 && r[0] == pts[0]
    ensures |pts| >= 2 ==> |r| == n
    ensures |pts| >= 2 ==> forall j :: 0 <= j < |r| ==> AheadBy(num, pts, r[j], Steps(n - 1 - j, Spacing(num, pts, n)))
    ensures |pts| == 1 ==> r == if n == 2 then [pts[0], pts[0]] else [pts[0]]
  {
    var newPoints := WalkedPoints(num, pts, n);
    if |newPoints| == n - 1 then newPoints + [pts[|pts| - 1]] else newPoints
  }

  /** The padding step of `resample` fires exactly when the walk emitted n - 1
      points; for a path of positive length that never happens. */
  lemma ResamplePadding(num: Numerics, pts: Path, n: nat)
    requires num.Valid()
    requires |pts| >= 1 && n >= 2
    requires |pts| >= 2 ==> PathLength(num, pts) > 0.0
    ensures Resample(num, pts, n) != WalkedPoints(num, pts, n) <==> |WalkedPoints(num, pts, n)| == n - 1
    ensures |WalkedPoints(num, pts, n)| == n - 1 <==> |pts| == 1 && n == 2
  {
  }

  // ---------------------------------------------------------------------------
  // rotateBy, translateTo, scaleTo
  // ---------------------------------------------------------------------------

  /** p turned about c by the angle whose cosine and sine are given. */
  function RotateAbout(p: Point, c: Point, cos: real, sin: real): Point {
    Point((p.x - c.x) * cos - (p.y - c.y) * sin + c.x,
          (p.x - c.x) * sin + (p.y - c.y) * cos + c.y)
  }

  /** `rotateBy`: every point turned by angle about the centroid of the path,
      which therefore stays where it was. */
  function RotateBy(num: Numerics, s: Path, angle: real): (r: Path)
    requires |s| > 0
    ensures |r| == |s|
    ensures Centroid(r) == Centroid(s)
  {
    var c := Centroid(s);
    var cos := num.cos(angle);
    var sin := num.sin(angle);
    var r := seq(|s|, i requires 0 <= i < |s| => RotateAbout(s[i], c, cos, sin));
    RotationKeepsCentroid(s, r, c, cos, sin);
    r
  }

  /** Turning every point about the centroid leaves the centroid in place. */
  lemma RotationKeepsCentroid(s: Path, r: Path, c: Point, cos: real, sin: real)
    requires |s| > 0 && |r| == |s|
    requires c == Centroid(s)
    requires forall i :: 0 <= i < |s| ==> r[i] == RotateAbout(s[i], c, cos, sin)
    ensures Centroid(r) == c
  {
    var n := |s| as real;
    var cX := c.x - cos * c.x - (-sin) * c.y;
    var cY := c.y - cos * c.y - sin * c.x;
    RotatedAffine(s, r, c, cos, sin, cX, cY);
    CentroidTimesCount(s, c, n);
    RotationKeepsSumX(s, r, c, cos, sin, cX, n);
    RotationKeepsSumY(s, r, c, cos, sin, cY, n);
    CentroidFromSums(r, c, n);
  }
  lemma CentroidTimesCount(s: Path, c: Point, n: real)
    requires |s| > 0 && c == Centroid(s) && n == |s| as real
    ensures n * c.x == Sum(Xs(s)) && n * c.y == Sum(Ys(s))
  {
  }
  lemma CentroidFromSums(s: Path, c: Point, n: real)
    requires |s| > 0 && n == |s| as real
    requires n * c.x == Sum(Xs(s)) && n * c.y == Sum(Ys(s))
    ensures Centroid(s) == c
  {
    DivideBack(Sum(Xs(s)), n, c.x);
    DivideBack(Sum(Ys(s)), n, c.y);
  }
  lemma DivideBack(total: real, n: real, m: real)
    requires n > 0.0 && n * m == total
    ensures total / n == m
  {
  }
  lemma RotationKeepsSumX(s: Path, r: Path, c: Point, cos: real, sin: real, cX: real, n: real)
    requires |s| > 0 && |r| == |s| && n == |s| as real
    requires n * c.x == Sum(Xs(s)) && n * c.y == Sum(Ys(s))
    requires cX == c.x - cos * c.x - (-sin) * c.y
    requires forall i :: 0 <= i < |s| ==> Xs(r)[i] == Affine(cos, -sin, cX, Xs(s)[i], Ys(s)[i])
    ensures n * c.x == Sum(Xs(r))
  {
    AffineKeepsSum(Xs(s), Ys(s), Xs(r), cos, -sin, c.x, c.y, cX, n);
  }
  lemma RotationKeepsSumY(s: Path, r: Path, c: Point, cos: real, sin: real, cY: real, n: real)
    requires |s| > 0 && |r| == |s| && n == |s| as real
    requires n * c.x == Sum(Xs(s)) && n * c.y == Sum(Ys(s))
    requires cY == c.y - cos * c.y - sin * c.x
    requires forall i :: 0 <= i < |s| ==> Ys(r)[i] == Affine(cos, sin, cY, Ys(s)[i], Xs(s)[i])
    ensures n * c.y == Sum(Ys(r))
  {
    AffineKeepsSum(Ys(s), Xs(s), Ys(r), cos, sin, c.y, c.x, cY, n);
  }
  lemma AffineKeepsSum(u: seq<real>, v: seq<real>, w: seq<real>, a: real, b: real, mu: real, mv: real, c: real, n: real)
    requires |u| == |v| == |w| > 0 && n == |w| as real
    requires n * mu == Sum(u) && n * mv == Sum(v)
    requires c == mu - a * mu - b * mv
    requires forall i :: 0 <= i < |w| ==> w[i] == Affine(a, b, c, u[i], v[i])
    ensures n * mu == Sum(w)
  {
    SumAffine(u, v, w, a, b, c);
    AffineSum(a, b, n, mu, mv, Sum(u), Sum(v), c, Sum(w));
  }
  lemma AffineSum(a: real, b: real, n: real, mu: real, mv: real, su: real, sv: real, c: real, sw: real)
    requires su == n * mu && sv == n * mv
    requires c == mu - a * mu - b * mv
    requires sw == Affine(a, b, n * c, su, sv)
    ensures sw == n * mu
  {
    assert a * su == n * (a * mu);
    assert b * sv == n * (b * mv);
  }
  lemma RotatedAffine(s: Path, r: Path, c: Point, cos: real, sin: real, cX: real, cY: real)
    requires |r| == |s|
    requires forall i :: 0 <= i < |s| ==> r[i] == RotateAbout(s[i], c, cos, sin)
    requires cX == c.x - cos * c.x - (-sin) * c.y
    requires cY == c.y - cos * c.y - sin * c.x
    ensures forall i :: 0 <= i < |s| ==> Xs(r)[i] == Affine(cos, -sin, cX, Xs(s)[i], Ys(s)[i])
    ensures forall i :: 0 <= i < |s| ==> Ys(r)[i] == Affine(cos, sin, cY, Ys(s)[i], Xs(s)[i])
  {
    forall i | 0 <= i < |s|
      ensures Xs(r)[i] == Affine(cos, -sin, cX, Xs(s)[i], Ys(s)[i])
      ensures Ys(r)[i] == Affine(cos, sin, cY, Ys(s)[i], Xs(s)[i])
    {
      RotatePoint(s[i], c, cos, sin, cX, cY);
    }
  }
  lemma RotatePoint(p: Point, c: Point, cos: real, sin: real, cX: real, cY: real)
    requires cX == c.x - cos * c.x - (-sin) * c.y
    requires cY == c.y - cos * c.y - sin * c.x
    ensures RotateAbout(p, c, cos, sin).x == Affine(cos, -sin, cX, p.x, p.y)
    ensures RotateAbout(p, c, cos, sin).y == Affine(cos, sin, cY, p.y, p.x)
  {
    RotateRegroupMinus(p.x, p.y, c.x, c.y, cos, sin, cX);
    RotateRegroupPlus(p.y, p.x, c.y, c.x, cos, sin, cY);
  }
  lemma RotateRegroupMinus(x: real, y: real, mx: real, my: real, a: real, b: real, k: real)
    requires k == mx - a * mx - (-b) * my
    ensures (x - mx) * a - (y - my) * b + mx == Affine(a, -b, k, x, y)
  {
    assert (x - mx) * a == a * x - a * mx;
    assert (y - my) * b == b * y - b * my;
  }
  lemma RotateRegroupPlus(x: real, y: real, mx: real, my: real, a: real, b: real, k: real)
    requires k == mx - a * mx - b * my
    ensures (y - my) * b + (x - mx) * a + mx == Affine(a, b, k, x, y)
  {
    assert (x - mx) * a == a * x - a * mx;
    assert (y - my) * b == b * y - b * my;
  }

  /** Adding delta to a number, as a function. */
  function Shifter(delta: real): real -> real {
    (x: real) => x + delta
  }

  /** Multiplying a number by k, as a function. */
  function Scaler(k: real): real -> real {
    (x: real) => x * k
  }

  lemma ShifterMonotone(delta: real)
    ensures Monotone(Shifter(delta))
  {
  }

  lemma ScalerMonotone(k: real)
    requires k >= 0.0
    ensures Monotone(Scaler(k))
  {
    forall x: real, y: real | x <= y
      ensures Scaler(k)(x) <= Scaler(k)(y)
    {
      assert y * k - x * k == (y - x) * k;
    }
  }

  /** `translateTo`: shift the path so its centroid lands on `origin`. The shape
      and the size of its bounding box are unchanged. */
  function TranslateTo(s: Path, origin: Point): (r: Path)
    requires |s| > 0
    ensures |r| == |s|
    ensures Centroid(r) == origin
    ensures BoundingBox(r).width == BoundingBox(s).width
    ensures BoundingBox(r).height == BoundingBox(s).height
  {
    var c := Centroid(s);
    var r := seq(|s|, i requires 0 <= i < |s| => Point(s[i].x - c.x + origin.x, s[i].y - c.y + origin.y));
    TranslationMovesPath(s, r, c, origin);
    r
  }

  lemma TranslationMovesPath(s: Path, r: Path, c: Point, origin: Point)
    requires |s| > 0 && |r| == |s|
    requires c == Centroid(s)
    requires forall i :: 0 <= i < |s| ==> r[i] == Point(s[i].x - c.x + origin.x, s[i].y - c.y + origin.y)
    ensures Centroid(r) == origin
    ensures BoundingBox(r).width == BoundingBox(s).width
    ensures BoundingBox(r).height == BoundingBox(s).height
  {
    var dx := origin.x - c.x;
    var dy := origin.y - c.y;
    var n := |s| as real;
    TranslatedCoordinates(s, r, dx, dy);
    CentroidTimesCount(s, c, n);
    TranslationMovesCentroid(s, r, c, origin, n);
    ShiftBounds(Xs(s), Xs(r), dx);
    ShiftBounds(Ys(s), Ys(r), dy);
  }

  /** Each coordinate of a translated point is the old one plus the shift. */
  lemma TranslatedCoordinates(s: Path, r: Path, dx: real, dy: real)
    requires |r| == |s|
    requires forall i :: 0 <= i < |s| ==> r[i].x == s[i].x + dx && r[i].y == s[i].y + dy
    ensures forall i :: 0 <= i < |s| ==> Xs(r)[i] == Xs(s)[i] + dx
    ensures forall i :: 0 <= i < |s| ==> Ys(r)[i] == Ys(s)[i] + dy
  {
  }

  /** Moving every point by origin minus the centroid c (given through
      n·c = the coordinate sums) puts the centroid at origin. */
  lemma TranslationMovesCentroid(s: Path, r: Path, c: Point, origin: Point, n: real)
    requires |s| > 0 && |r| == |s| && n == |s| as real
    requires n * c.x == Sum(Xs(s)) && n * c.y == Sum(Ys(s))
    requires forall i :: 0 <= i < |s| ==> Xs(r)[i] == Xs(s)[i] + (origin.x - c.x)
    requires forall i :: 0 <= i < |s| ==> Ys(r)[i] == Ys(s)[i] + (origin.y - c.y)
    ensures Centroid(r) == origin
  {
    TranslationMovesSum(Xs(s), Xs(r), c.x, origin.x, n);
    TranslationMovesSum(Ys(s), Ys(r), c.y, origin.y, n);
    CentroidFromSums(r, origin, n);
  }

  /** Moving every element by o - mu, where mu is the mean, makes o the mean. */
  lemma TranslationMovesSum(u: seq<real>, w: seq<real>, mu: real, o: real, n: real)
    requires |u| == |w| > 0 && n == |w| as real
    requires n * mu == Sum(u)
    requires forall i :: 0 <= i < |w| ==> w[i] == u[i] + (o - mu)
    ensures n * o == Sum(w)
  {
    var c := o - mu;
    forall i | 0 <= i < |w|
      ensures w[i] == Affine(1.0, 0.0, c, u[i], u[i])
    {
    }
    SumAffine(u, u, w, 1.0, 0.0, c);
    ShiftSum(n, mu, o, c, Sum(u), Sum(w));
  }

  lemma ShiftSum(n: real, mu: real, o: real, c: real, su: real, sw: real)
    requires su == n * mu && c == o - mu
    requires sw == Affine(1.0, 0.0, n * c, su, su)
    ensures sw == n * o
  {
  }

  /** Shifting every element by delta shifts the least and greatest by delta. */
  lemma ShiftBounds(u: seq<real>, w: seq<real>, delta: real)
    requires |u| == |w| > 0
    requires forall i :: 0 <= i < |w| ==> w[i] == u[i] + delta
    ensures MinOf(w) == MinOf(u) + delta
    ensures MaxOf(w) == MaxOf(u) + delta
  {
    ShifterMonotone(delta);
    MinOfImage(u, w, Shifter(delta));
    MaxOfImage(u, w, Shifter(delta));
  }

  /** Multiplying every element by k >= 0 multiplies the least and greatest by k. */
  lemma ScaleBounds(u: seq<real>, w: seq<real>, k: real)
    requires |u| == |w| > 0
    requires k >= 0.0
    requires forall i :: 0 <= i < |w| ==> w[i] == Scaler(k)(u[i])
    ensures MinOf(w) == Scaler(k)(MinOf(u))
    ensures MaxOf(w) == Scaler(k)(MaxOf(u))
  {
    ScalerMonotone(k);
    MinOfImage(u, w, Scaler(k));
    MaxOfImage(u, w, Scaler(k));
  }

  /** A point with both coordinates multiplied by k. */
  function ScalePoint(p: Point, k: real): Point {
    Point(p.x * k, p.y * k)
  }

  /** `scaleTo`: multiply every coordinate by the one factor
      size / max(width, height). `scaleTo` divides by that maximum, so the
      bounding box must not be a single point. Afterwards the larger side of
      the bounding box is `size`. */
  function ScaleTo(s: Path, size: real): (r: Path)
    requires |s| > 0
    requires Extent(BoundingBox(s)) > 0.0
    ensures |r| == |s|
    ensures forall i :: 0 <= i < |s| ==> r[i] == ScalePoint(s[i], size / Extent(BoundingBox(s)))
    ensures size >= 0.0 ==> Extent(BoundingBox(r)) == size
  {
    var B := BoundingBox(s);
    var scale := size / Max(B.width, B.height);
    var r := seq(|s|, i requires 0 <= i < |s| => ScalePoint(s[i], scale));
    ScaledCoordinates(s, r, scale);
    if size < 0.0 then r
    else
      QuotientNonNegative(size, Extent(B));
      QuotientTimes(size, Extent(B), scale);
      ScaledExtent(s, r, size, scale);
      r
  }

  /** Scaling by k >= 0 so that the larger side becomes `size` makes the
      larger side of the result's bounding box `size`. */
  lemma ScaledExtent(s: Path, r: Path, size: real, k: real)
    requires |s| > 0 && |r| == |s|
    requires k >= 0.0 && Scaler(k)(Extent(BoundingBox(s))) == size
    requires forall i :: 0 <= i < |s| ==> Xs(r)[i] == Scaler(k)(Xs(s)[i])
    requires forall i :: 0 <= i < |s| ==> Ys(r)[i] == Scaler(k)(Ys(s)[i])
    ensures Extent(BoundingBox(r)) == size
  {
    ScaledBox(s, r, k);
    ScaledBoxExtent(BoundingBox(s), BoundingBox(r), k, size);
  }

  /** Scaling every coordinate by k >= 0 scales both sides of the bounding box by k. */
  lemma ScaledBox(s: Path, r: Path, k: real)
    requires |s| > 0 && |r| == |s|
    requires k >= 0.0
    requires forall i :: 0 <= i < |s| ==> Xs(r)[i] == Scaler(k)(Xs(s)[i])
    requires forall i :: 0 <= i < |s| ==> Ys(r)[i] == Scaler(k)(Ys(s)[i])
    ensures BoundingBox(r).width == Scaler(k)(BoundingBox(s).width)
    ensures BoundingBox(r).height == Scaler(k)(BoundingBox(s).height)
  {
    BoxSides(s);
    BoxSides(r);
    ScaledSide(Xs(s), Xs(r), k, BoundingBox(s).width, BoundingBox(r).width);
    ScaledSide(Ys(s), Ys(r), k, BoundingBox(s).height, BoundingBox(r).height);
  }

  lemma ScaledBoxExtent(B: Box, B': Box, k: real, size: real)
    requires k >= 0.0 && Scaler(k)(Extent(B)) == size
    requires B'.width == Scaler(k)(B.width) && B'.height == Scaler(k)(B.height)
    ensures Extent(B') == size
  {
    MaxScale(B.width, B.height, k, B'.width, B'.height);
  }

  /** The sides of the bounding box are the spreads of the coordinates. */
  lemma BoxSides(s: Path)
    requires |s| > 0
    ensures BoundingBox(s).width == MaxOf(Xs(s)) - MinOf(Xs(s))
    ensures BoundingBox(s).height == MaxOf(Ys(s)) - MinOf(Ys(s))
  {
  }

  lemma ScaledCoordinates(s: Path, r: Path, k: real)
    requires |r| == |s|
    requires forall i :: 0 <= i < |s| ==> r[i] == ScalePoint(s[i], k)
    ensures forall i :: 0 <= i < |s| ==> Xs(r)[i] == Scaler(k)(Xs(s)[i])
    ensures forall i :: 0 <= i < |s| ==> Ys(r)[i] == Scaler(k)(Ys(s)[i])
  {
  }

  /** Scaling by k >= 0 scales the spread max - min by k. */
  lemma ScaledSide(u: seq<real>, w: seq<real>, k: real, side: real, side': real)
    requires |u| == |w| > 0
    requires k >= 0.0
    requires forall i :: 0 <= i < |w| ==> w[i] == Scaler(k)(u[i])
    requires side == MaxOf(u) - MinOf(u) && side' == MaxOf(w) - MinOf(w)
    ensures side' == Scaler(k)(side)
  {
    ScaleBounds(u, w, k);
    ScaledSpread(MaxOf(u), MinOf(u), MaxOf(w), MinOf(w), k, side, side');
  }

  /** The spread of scaled bounds is the scaled spread. */
  lemma ScaledSpread(hi: real, lo: real, hi': real, lo': real, k: real, side: real, side': real)
    requires hi' == Scaler(k)(hi) && lo' == Scaler(k)(lo)
    requires side == hi - lo && side' == hi' - lo'
    ensures side' == Scaler(k)(side)
  {
    ScaleDifference(hi, lo, k, side');
  }

  lemma QuotientNonNegative(a: real, b: real)
    requires a >= 0.0 && b > 0.0
    ensures a / b >= 0.0
  {
  }

  lemma QuotientTimes(a: real, b: real, k: real)
    requires b > 0.0 && k == a / b
    ensures Scaler(k)(b) == a
  {
  }

  lemma ScaleDifference(hi: real, lo: real, k: real, d: real)
    requires d == Scaler(k)(hi) - Scaler(k)(lo)
    ensures d == Scaler(k)(hi - lo)
  {
    assert hi * k - lo * k == (hi - lo) * k;
  }

  lemma MaxScale(a: real, b: real, k: real, a': real, b': real)
    requires k >= 0.0
    requires a' == Scaler(k)(a) && b' == Scaler(k)(b)
    ensures Max(a', b') == Scaler(k)(Max(a, b))
  {
    ScalerMonotone(k);
  }

  // ---------------------------------------------------------------------------
  // processPath
  // ---------------------------------------------------------------------------

  /** The indicative angle: atan2 of the first point, measured from the origin
      of the coordinate system (not from the centroid). */
  function IndicativeAngle(num: Numerics, s: Path): real
    requires |s| > 0
  {
    num.atan2(s[0].y, s[0].x)
  }

  /** The first two steps of `processPath`: resample, then rotate by minus the
      indicative angle. */
  function Aligned(num: Numerics, points: Path): (r: Path)
    requires num.Valid()
    requires |points| >= 2 && PathLength(num, points) > 0.0
    ensures |r| == NumResamplePoints
  {
    var resampled := Resample(num, points, NumResamplePoints);
    RotateBy(num, resampled, -IndicativeAngle(num, resampled))
  }

  /** A path `processPath` can normalize without dividing by zero: it has a
      segment, positive length, and after resampling and rotation its points
      are not all one point. */
  ghost predicate Processable(num: Numerics, points: Path) {
    && num.Valid()
    && |points| >= 2
    && PathLength(num, points) > 0.0
    && Extent(BoundingBox(Aligned(num, points))) > 0.0
  }

  /** `processPath`: the normalized form of a stroke has exactly 64 points, its
      centroid at the origin and the larger side of its bounding box equal to
      250. */
  function ProcessPath(num: Numerics, points: Path): (r: Path)
    requires Processable(num, points)
    ensures |r| == NumResamplePoints
    ensures Centroid(r) == Point(0.0, 0.0)
    ensures Extent(BoundingBox(r)) == ReferenceSize
  {
    var rotated := Aligned(num, points);
    var scaled := ScaleTo(rotated, ReferenceSize);
    TranslateTo(scaled, Point(0.0, 0.0))
  }
}
