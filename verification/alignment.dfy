/**
  The rotational alignment of the recognizer: `distanceAtAngle` and the
  golden-section search `distanceAtBestAngle` over the rotation angle.
 */
module Alignment {
  import opened Numerics
  import opened Kernel
  import opened Normalizer

  /** The search stops once the bracket is at most this wide (about one degree). */
  const AnglePrecision: real := 0.02

  /** phi = (sqrt 5 - 1) / 2, computed as `distanceAtBestAngle` does. */
  function Phi(num: Numerics): real {
    0.5 * (-1.0 + num.sqrt(5.0))
  }

  /** The two facts about phi the search uses: it is a little over 0.6, and
      phi² = 1 - phi, which is what lets one probe be reused at every step. */
  ghost predicate GoldenRatio(phi: real) {
    0.6 < phi < 0.625 && phi * phi == 1.0 - phi
  }

  lemma PhiIsGolden(num: Numerics)
    requires num.Valid()
    ensures GoldenRatio(Phi(num))
  {
    var s := num.sqrt(5.0);
    assert s >= 0.0 && s * s == 5.0;
    if s <= 2.2 {
      SquareMonotone(s, 2.2);
      assert false;
    }
    if s >= 2.25 {
      SquareMonotone(2.25, s);
      assert false;
    }
    var phi := Phi(num);
    assert phi * phi == 0.25 * (s * s) - 0.5 * s + 0.25;
  }

  lemma SquareMonotone(x: real, y: real)
    requires 0.0 <= x <= y
    ensures x * x <= y * y
  {
    assert y * y - x * x == (y - x) * (y + x);
  }

  /** `distanceAtAngle`: the mean point distance between the path turned by
      `angle` about its centroid and the template. */
  function DistanceAtAngle(num: Numerics, points: Path, template: Path, angle: real): (r: real)
    requires num.Valid()
    requires 0 < |points| <= |template|
    ensures r >= 0.0
  {
    PathDistance(num, RotateBy(num, points, angle), template)
  }

  /** Turning by zero leaves every point where it is. */
  lemma RotateByZero(num: Numerics, s: Path)
    requires num.Valid()
    requires |s| > 0
    ensures RotateBy(num, s, 0.0) == s
  {
    var r := RotateBy(num, s, 0.0);
    var c := Centroid(s);
    forall i | 0 <= i < |s|
      ensures r[i] == s[i]
    {
      NoTurn(s[i], c);
    }
  }

  lemma NoTurn(p: Point, c: Point)
    ensures RotateAbout(p, c, 1.0, 0.0) == p
  {
  }

  /** A path compared with itself at angle zero is at distance zero. */
  lemma DistanceAtZeroAngleSelf(num: Numerics, s: Path)
    requires num.Valid()
    requires |s| > 0
    ensures DistanceAtAngle(num, s, s, 0.0) == 0.0
  {
    RotateByZero(num, s);
    PathDistanceSelf(num, s);
  }

  /** The state of the search loop: the bracket [a, b] and its two probes
      x1, x2 with their values f1, f2. */
  datatype Bracket = Bracket(a: real, b: real, x1: real, f1: real, x2: real, f2: real)

  /** x1 = phi·a + (1 - phi)·b, the probe nearer a. */
  function LowerProbe(phi: real, a: real, b: real): real {
    phi * a + (1.0 - phi) * b
  }

  /** x2 = (1 - phi)·a + phi·b, the probe nearer b. */
  function UpperProbe(phi: real, a: real, b: real): real {
    (1.0 - phi) * a + phi * b
  }

  /** The loop invariant: both probes sit at the golden positions of the
      current bracket and carry the values of the objective f there. The
      search reads f only at its probes, so it is stated for any f; the
      recognizer's objective is `distanceAtAngle`. */
  ghost predicate Probed(f: real -> real, phi: real, br: Bracket) {
    && br.x1 == LowerProbe(phi, br.a, br.b)
    && br.x2 == UpperProbe(phi, br.a, br.b)
    && br.f1 == f(br.x1)
    && br.f2 == f(br.x2)
  }

  /** The old lower probe is the new upper probe after the bracket shrinks to
      [a, x2]. */
  lemma ReuseLower(phi: real, a: real, b: real)
    requires GoldenRatio(phi)
    ensures UpperProbe(phi, a, UpperProbe(phi, a, b)) == LowerProbe(phi, a, b)
  {
    var x2 := UpperProbe(phi, a, b);
    assert phi * x2 == (phi - phi * phi) * a + (phi * phi) * b;
  }

  /** The old upper probe is the new lower probe after the bracket shrinks to
      [x1, b]. */
  lemma ReuseUpper(phi: real, a: real, b: real)
    requires GoldenRatio(phi)
    ensures LowerProbe(phi, LowerProbe(phi, a, b), b) == UpperProbe(phi, a, b)
  {
    var x1 := LowerProbe(phi, a, b);
    assert phi * x1 == (phi * phi) * a + (phi - phi * phi) * b;
  }

  /** Either shrunken bracket is phi times as wide as the old one, and lies
      within it when a <= b; the lower probe comes strictly before the upper
      one when a < b. */
  lemma ShrinkWidth(phi: real, a: real, b: real)
    requires GoldenRatio(phi)
    ensures UpperProbe(phi, a, b) - a == phi * (b - a)
    ensures b - LowerProbe(phi, a, b) == phi * (b - a)
    ensures a <= b ==> a <= LowerProbe(phi, a, b) <= b && a <= UpperProbe(phi, a, b) <= b
    ensures a < b ==> LowerProbe(phi, a, b) < UpperProbe(phi, a, b)
  {
    if a <= b {
      FractionBounds(phi, b - a);
      FractionBounds(1.0 - phi, b - a);
      assert LowerProbe(phi, a, b) == a + (1.0 - phi) * (b - a);
      assert UpperProbe(phi, a, b) == a + phi * (b - a);
      ProbesOrdered(phi, a, b);
    }
  }

  /** The probes are (2·phi - 1)·(b - a) apart, and phi > 0.5. */
  lemma ProbesOrdered(phi: real, a: real, b: real)
    requires GoldenRatio(phi)
    ensures a < b ==> LowerProbe(phi, a, b) < UpperProbe(phi, a, b)
  {
    var g := 2.0 * phi - 1.0;
    var w := b - a;
    assert UpperProbe(phi, a, b) - LowerProbe(phi, a, b) == g * w;
    if a < b {
      assert g > 0.0 && w > 0.0;
      assert g * w > 0.0;
    }
  }

  /** The bracket the search starts from: the whole interval [a, b], with
      both probes measured, inside it and in order. */
  function InitialBracket(f: real -> real, phi: real, a: real, b: real): (br: Bracket)
    requires GoldenRatio(phi)
    ensures br.a == a && br.b == b
    ensures Probed(f, phi, br)
    ensures a <= b ==> a <= br.x1 <= br.x2 <= b
    ensures a < b ==> br.x1 < br.x2
  {
    ShrinkWidth(phi, a, b);
    var x1 := LowerProbe(phi, a, b);
    var x2 := UpperProbe(phi, a, b);
    Bracket(a, b, x1, f(x1), x2, f(x2))
  }

  /** One iteration of the search loop: keep the side of the smaller
      value (the upper side on a tie), reuse the surviving probe and measure
      one new one. The invariant is kept, the bracket shrinks by phi, and it
      stays inside the old one. */
  function GoldenStep(f: real -> real, phi: real, br: Bracket): (br': Bracket)
    requires GoldenRatio(phi)
    requires Probed(f, phi, br)
    ensures Probed(f, phi, br')
    ensures br'.b - br'.a == phi * (br.b - br.a)
    ensures br.a <= br.b ==> br.a <= br'.a <= br'.b <= br.b
    ensures Abs(br.b - br.a) > AnglePrecision ==> 0 <= Rounds(phi, br'.b - br'.a) < Rounds(phi, br.b - br.a)
  {
    ShrinkWidth(phi, br.a, br.b);
    ShrinkRounds(phi, br.a, br.b);
    if br.f1 < br.f2 then
      ReuseLower(phi, br.a, br.b);
      var x1 := LowerProbe(phi, br.a, br.x2);
      Bracket(br.a, br.x2, x1, f(x1), br.x1, br.f1)
    else
      ReuseUpper(phi, br.a, br.b);
      var x2 := UpperProbe(phi, br.x1, br.b);
      Bracket(br.x1, br.b, br.x2, br.f2, x2, f(x2))
  }

  /** An upper bound on the iterations left: each one removes more than a
      whole unit from |b - a| / (0.02·(1 - phi)) while the bracket is wider
      than 0.02. */
  function Rounds(phi: real, width: real): int
    requires phi < 1.0
  {
    (Abs(width) / (AnglePrecision * (1.0 - phi))).Floor
  }

  /** Either shrunken bracket needs fewer rounds than [a, b] while [a, b] is
      wider than the precision. */
  lemma ShrinkRounds(phi: real, a: real, b: real)
    requires GoldenRatio(phi)
    ensures Abs(b - a) > AnglePrecision ==>
      && 0 <= Rounds(phi, UpperProbe(phi, a, b) - a) < Rounds(phi, b - a)
      && 0 <= Rounds(phi, b - LowerProbe(phi, a, b)) < Rounds(phi, b - a)
  {
    if Abs(b - a) > AnglePrecision {
      ShrinkWidth(phi, a, b);
      RoundsDecrease(phi, b - a, UpperProbe(phi, a, b) - a);
      RoundsDecrease(phi, b - a, b - LowerProbe(phi, a, b));
    }
  }

  lemma RoundsDecrease(phi: real, w: real, w': real)
    requires GoldenRatio(phi)
    requires Abs(w) > AnglePrecision
    requires w' == phi * w
    ensures 0 <= Rounds(phi, w') < Rounds(phi, w)
  {
    var c := AnglePrecision * (1.0 - phi);
    var u := Abs(w);
    var u' := Abs(w');
    assert u' == phi * u;
    var q := u / c;
    var q' := u' / c;
    assert q' == phi * q;
    assert q - q' == (1.0 - phi) * q;
    assert (1.0 - phi) * q == u / AnglePrecision;
    assert q - q' > 1.0;
  }

  /** The search loop, run to the end: the final bracket is at most
      0.02 wide, keeps the invariant, and lies inside the starting bracket. */
  function GoldenLoop(f: real -> real, phi: real, br: Bracket): (r: Bracket)
    requires GoldenRatio(phi)
    requires Probed(f, phi, br)
    ensures Probed(f, phi, r)
    ensures Abs(r.b - r.a) <= AnglePrecision
    ensures br.a <= br.b ==> br.a <= r.a <= r.b <= br.b
    decreases Rounds(phi, br.b - br.a)
  {
    if Abs(br.b - br.a) > AnglePrecision then
      GoldenLoop(f, phi, GoldenStep(f, phi, br))
    else
      br
  }

  /** The final bracket of the search over [a, b], with phi computed from the square
      root of 5. */
  function FinalBracket(num: Numerics, f: real -> real, a: real, b: real): (r: Bracket)
    requires num.Valid()
    ensures Probed(f, Phi(num), r)
    ensures Abs(r.b - r.a) <= AnglePrecision
    ensures a <= b ==> a <= r.a <= r.b <= b
  {
    PhiIsGolden(num);
    GoldenLoop(f, Phi(num), InitialBracket(f, Phi(num), a, b))
  }

  /** The objective of the search: the distance at a given angle. */
  function Objective(num: Numerics, points: Path, template: Path): (f: real -> real)
    requires num.Valid()
    requires 0 < |points| <= |template|
    ensures forall x :: f(x) == DistanceAtAngle(num, points, template, x)
  {
    x => DistanceAtAngle(num, points, template, x)
  }

  /** `distanceAtBestAngle`: the smaller of the two distances at the last two
      probes. The result is a distance actually measured at an angle inside
      [a, b] (when a <= b), and no larger than either final probe's. */
  function DistanceAtBestAngle(num: Numerics, points: Path, template: Path, a: real, b: real): (r: real)
    requires num.Valid()
    requires 0 < |points| <= |template|
    ensures r >= 0.0
    ensures var br := FinalBracket(num, Objective(num, points, template), a, b);
      r <= br.f1 && r <= br.f2 && (r == br.f1 || r == br.f2)
    ensures a <= b ==> exists x :: a <= x <= b && r == DistanceAtAngle(num, points, template, x)
  {
    var f := Objective(num, points, template);
    var br := FinalBracket(num, f, a, b);
    BestProbeInside(num, f, br, a, b);
    var x := if br.f1 <= br.f2 then br.x1 else br.x2;
    assert f(x) == DistanceAtAngle(num, points, template, x);
    Min(br.f1, br.f2)
  }

  /** The smaller final value was measured at a probe inside [a, b]. */
  lemma BestProbeInside(num: Numerics, f: real -> real, br: Bracket, a: real, b: real)
    requires num.Valid()
    requires Probed(f, Phi(num), br)
    requires a <= b ==> a <= br.a <= br.b <= b
    ensures a <= b ==> exists x :: a <= x <= b && Min(br.f1, br.f2) == f(x)
  {
    if a <= b {
      PhiIsGolden(num);
      ShrinkWidth(Phi(num), br.a, br.b);
      var x := if br.f1 <= br.f2 then br.x1 else br.x2;
      assert a <= x <= b && Min(br.f1, br.f2) == f(x);
    }
  }

  // ---------------------------------------------------------------------------
  // The search on a unimodal objective
  // ---------------------------------------------------------------------------

  /** f falls strictly up to xs and rises strictly after it, within [lo, hi]:
      xs is the one minimizer of f there. */
  ghost predicate Unimodal(f: real -> real, lo: real, hi: real, xs: real) {
    && lo <= xs <= hi
    && (forall x, y :: lo <= x < y <= xs ==> Falls(f, x, y))
    && (forall x, y :: xs <= x < y <= hi ==> Falls(f, y, x))
  }

  /** f is strictly lower at y than at x. */
  ghost predicate Falls(f: real -> real, x: real, y: real) {
    f(x) > f(y)
  }

  /** One iteration never discards the minimizer of a unimodal objective:
      keeping [a, x2] when f1 < f2 is safe because the minimizer cannot lie
      beyond x2, and keeping [x1, b] otherwise is safe because it cannot lie
      before x1. */
  lemma StepKeepsMinimizer(f: real -> real, phi: real, br: Bracket, lo: real, hi: real, xs: real)
    requires GoldenRatio(phi)
    requires Probed(f, phi, br)
    requires Unimodal(f, lo, hi, xs)
    requires lo <= br.a <= xs <= br.b <= hi
    ensures GoldenStep(f, phi, br).a <= xs <= GoldenStep(f, phi, br).b
  {
    ShrinkWidth(phi, br.a, br.b);
    if br.a < br.b {
      ProbesLocateMinimizer(f, lo, hi, xs, br.x1, br.x2);
    }
  }

  /** Comparing two probes tells on which side the minimizer lies: beyond
      neither when the lower probe measures less, before neither
      otherwise. */
  lemma ProbesLocateMinimizer(f: real -> real, lo: real, hi: real, xs: real, x1: real, x2: real)
    requires Unimodal(f, lo, hi, xs)
    requires lo <= x1 < x2 <= hi
    ensures f(x1) < f(x2) ==> xs <= x2
    ensures f(x1) >= f(x2) ==> x1 <= xs
  {
    if x2 < xs {
      assert Falls(f, x1, x2);
    }
    if xs < x1 {
      assert Falls(f, x2, x1);
    }
  }

  /** The whole loop never discards the minimizer. */
  lemma {:induction false} LoopKeepsMinimizer(f: real -> real, phi: real, br: Bracket, lo: real, hi: real, xs: real)
    requires GoldenRatio(phi)
    requires Probed(f, phi, br)
    requires Unimodal(f, lo, hi, xs)
    requires lo <= br.a <= xs <= br.b <= hi
    ensures GoldenLoop(f, phi, br).a <= xs <= GoldenLoop(f, phi, br).b
    decreases Rounds(phi, br.b - br.a)
  {
    if Abs(br.b - br.a) > AnglePrecision {
      var br' := GoldenStep(f, phi, br);
      StepKeepsMinimizer(f, phi, br, lo, hi, xs);
      LoopKeepsMinimizer(f, phi, br', lo, hi, xs);
      assert GoldenLoop(f, phi, br) == GoldenLoop(f, phi, br');
    }
  }

  /** Golden-section correctness: on an objective unimodal over [a, b], the
      final bracket still holds the minimizer, is at most 0.02 wide, and
      neither final probe measures less than the minimum. */
  lemma SearchFindsMinimizer(num: Numerics, f: real -> real, a: real, b: real, xs: real)
    requires num.Valid()
    requires Unimodal(f, a, b, xs)
    ensures var br := FinalBracket(num, f, a, b);
      && br.a <= xs <= br.b
      && br.b - br.a <= AnglePrecision
      && f(xs) <= Min(br.f1, br.f2)
  {
    var phi := Phi(num);
    PhiIsGolden(num);
    var br0 := InitialBracket(f, phi, a, b);
    LoopKeepsMinimizer(f, phi, br0, a, b, xs);
    var br := FinalBracket(num, f, a, b);
    assert br == GoldenLoop(f, phi, br0);
    ShrinkWidth(phi, br.a, br.b);
    AtLeastMinimum(f, a, b, xs, br.x1);
    AtLeastMinimum(f, a, b, xs, br.x2);
  }

  /** No point of [lo, hi] measures less than the minimizer of a unimodal f. */
  lemma AtLeastMinimum(f: real -> real, lo: real, hi: real, xs: real, x: real)
    requires Unimodal(f, lo, hi, xs)
    requires lo <= x <= hi
    ensures f(xs) <= f(x)
  {
    if x < xs {
      assert Falls(f, x, xs);
    } else if xs < x {
      assert Falls(f, x, xs);
    }
  }

  /** `distanceAtBestAngle` on a stroke whose distance is unimodal in the
      angle over [a, b]: the result is measured at an angle within 0.02 of the
      best angle, and it is no smaller than the least distance. */
  lemma BestAngleNearMinimizer(num: Numerics, points: Path, template: Path, a: real, b: real, xs: real)
    requires num.Valid()
    requires 0 < |points| <= |template|
    requires Unimodal(Objective(num, points, template), a, b, xs)
    ensures DistanceAtAngle(num, points, template, xs) <= DistanceAtBestAngle(num, points, template, a, b)
    ensures exists x ::
      && -AnglePrecision <= x - xs <= AnglePrecision
      && DistanceAtBestAngle(num, points, template, a, b) == DistanceAtAngle(num, points, template, x)
  {
    var f := Objective(num, points, template);
    SearchFindsMinimizer(num, f, a, b, xs);
    var br := FinalBracket(num, f, a, b);
    PhiIsGolden(num);
    ShrinkWidth(Phi(num), br.a, br.b);
    var x := if br.f1 <= br.f2 then br.x1 else br.x2;
    assert DistanceAtBestAngle(num, points, template, a, b) == f(x);
  }
}
