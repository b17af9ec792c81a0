# MathMastery game cores in Dafny

This project models two pieces of logic from the MathMastery browser games.

The first is the shape recognizer of the geometry builder. It is a simplified
"$1 Unistroke" recognizer:

- the drawn stroke is resampled to 64 points spaced evenly along its length;
- the stroke is rotated about its centroid by minus its indicative angle;
- it is scaled so the larger side of its bounding box is 250;
- it is translated so its centroid sits at the origin;
- it is compared with every preprocessed template, using a golden-section
  search over the rotation angle in [-π/2, π/2];
- the first template at the least distance wins, and its distance becomes a
  score.

The second is the equation builder:

- one attempt of the challenge generator: draw two or three digits and
  operators, compute the target left to right, reject unusable attempts, pad
  to five numbers and shuffle them with Fisher–Yates;
- the text of the equation the player builds by pressing buttons.

Geometry is over `real`. Math.hypot, Math.sqrt, Math.cos, Math.sin,
Math.atan2 and Math.PI have no concrete values here. They are the fields of a
`Numerics` record (`numerics.dfy`), whose `Valid` predicate states the laws
the proofs use:

- the norm is non-negative and absolutely homogeneous;
- the square root of a non-negative number is its non-negative root;
- cos 0 = 1 and sin 0 = 0;
- 3.14 < π < 3.15.

Math.random becomes a parameter: a stream `draw: nat -> real` of values in
[0, 1), read from a given position. Each outcome reports how many draws it
read.

Files:

- `numerics.dfy`: the primitives and their laws;
- `kernel.dfy`: points, distance, path length, sums, centroid, bounding box,
  path distance;
- `normalizer.dfy`: `resample`, `rotateBy`, `translateTo`, `scaleTo`,
  `processPath`;
- `alignment.dfy`: `distanceAtAngle` and the golden-section search;
- `recognizer.dfy`: template preprocessing, `recognize` and the score;
- `challenge.dfy`: one attempt of `generateNewChallenge`;
- `equation_text.dfy`: `addToEquation`;
- `options.dfy`: the optional value shared by the recognizer and the generator.

Modelling notes:

- `resample` inserts each new point into its input array (`splice`), so the
  next segment starts at that point. `Normalizer.Walk` models this walk
  without mutation: a "previous point" argument plays the role of the
  inserted point. The caller's array is not modified in the model.
- The indicative angle is `atan2` of the first resampled point, measured from
  the origin of the coordinate system. It is not measured from the centroid,
  as the original $1 algorithm does. The model keeps the code's choice.
- The golden-section search is stated for any objective `f` on angles. The
  source only ever calls it with `distanceAtAngle` of the stroke and a
  template, and `Alignment.DistanceAtBestAngle` supplies exactly that.
- `pathDistance` reads `path2[i]` for every index of `path1`. The model
  therefore requires the template to have at least as many points as the
  stroke. Preprocessed templates have exactly 64 points.
- The JavaScript `%` truncates toward zero while Dafny's is Euclidean. They
  agree on whether the remainder is zero, and an exact quotient is the same
  under both. The generator only divides when the remainder is zero, so the
  model uses Dafny's operators.
- The target is computed strictly left to right, and
  `Challenge.AcceptedIsSolvable` proves only that it is reachable that way.
  A typed equation is checked with the usual operator precedence and without
  parentheses. So an accepted 1 + 2, then × 9, has target 27, while the
  typed "1 + 2 * 9" evaluates to 19.
- Line 53 of `equation-builder.js` also rejects non-finite and non-integer
  targets. With exact-division guards and digits 1–9, neither can happen:
  the model's target is an `int`.

## Model

| member | source | states |
|---|---|---|
| Kernel.Dist | js/games/geometry-builder.js:173 | `distance`; it has no contract of its own, and its properties are stated by Kernel.DistNonNegative and Kernel.DistSymmetric |
| Kernel.DistNonNegative | js/games/geometry-builder.js:173 | the distance between two points is never negative |
| Kernel.DistSymmetric | js/games/geometry-builder.js:173 | distance is symmetric, and a point is at distance zero from itself |
| Kernel.PathLength | js/games/geometry-builder.js:174 | the summed length of a path's segments is never negative |
| Kernel.PathLengthFront | js/games/geometry-builder.js:174 | the left fold of segment lengths equals the first segment plus the length of the rest, which is how the resample walk consumes it |
| Kernel.DistTowardsEnd | js/games/geometry-builder.js:95-99 | after moving a fraction t along a segment, the distance left to its end is (1 - t) times its length |
| Kernel.OnSegmentTowardsEnd | js/games/geometry-builder.js:97-101 | a point interpolated between an inserted point and the segment's end still lies on the original segment |
| Kernel.SumAffine | js/games/geometry-builder.js:176 | the reduce-sum of a pointwise affine combination is that combination of the sums, with the constant counted once per point |
| Kernel.MinOf | js/games/geometry-builder.js:178-184 | the running Math.min over a non-empty sequence is one of its elements and is below all of them |
| Kernel.MaxOf | js/games/geometry-builder.js:178-184 | the running Math.max over a non-empty sequence is one of its elements and is above all of them |
| Kernel.MinOfImage | js/games/geometry-builder.js:178-184 | the minimum of an order-preserving image of a sequence is the image of its minimum |
| Kernel.MaxOfImage | js/games/geometry-builder.js:178-184 | the maximum of an order-preserving image of a sequence is the image of its maximum |
| Kernel.Centroid | js/games/geometry-builder.js:176 | `centroid`: the point whose coordinates, times the point count, are the coordinate sums, i.e. the mean point |
| Kernel.BoundingBox | js/games/geometry-builder.js:177-186 | the box has non-negative sides, holds every point, and each of its four sides is touched by some point |
| Kernel.PairDistances | js/games/geometry-builder.js:175 | one distance per index of the first path, between the points at that index of the two paths; each is non-negative, and zero where the two paths hold the same point |
| Kernel.PathDistance | js/games/geometry-builder.js:175 | the mean per-index distance is never negative |
| Kernel.PathDistanceSelf | js/games/geometry-builder.js:175 | a path is at mean distance zero from itself |
| Normalizer.EmitFraction | js/games/geometry-builder.js:96-98 | when the emit branch is taken, the interpolation factor (I - D)/d lies in (0, 1], so d is positive and nothing divides by zero |
| Normalizer.Walk | js/games/geometry-builder.js:94-106 | from a state satisfying the walk invariant (0 <= D < I, the distance walked so far is a whole number of intervals plus D), the walk emits exactly the points still owed, each on a segment of the input, and the j-th of them has n - 2 - k - j spacings I of the path still ahead, so consecutive points are exactly I apart along the path |
| Normalizer.WalkEmit | js/games/geometry-builder.js:96-102 | the emit branch keeps the walk invariant with D reset to zero and the emitted count still below n - 1 |
| Normalizer.EmitAhead | js/games/geometry-builder.js:96-102 | the point emitted as the (k + 1)-th lies on the current segment with exactly n - 2 - k spacings of the path still ahead |
| Normalizer.EmitRemaining | js/games/geometry-builder.js:96-101 | the emitted point lies I - D further along the segment, so the length still ahead shrinks by exactly I - D |
| Normalizer.WalkAdvance | js/games/geometry-builder.js:103-105 | the advance branch keeps the walk invariant with D increased by the segment length |
| Normalizer.WalkDone | js/games/geometry-builder.js:94-106 | when the loop ends, exactly n - 1 points have been emitted after the first |
| Normalizer.Spacing | js/games/geometry-builder.js:91 | n - 1 spacings of I = length/(n - 1) make up the whole path length |
| Normalizer.WalkStart | js/games/geometry-builder.js:91-93 | with a positive path length, the initial state (I = length/(n - 1), D = 0, one point) satisfies the walk invariant |
| Normalizer.WalkedPoints | js/games/geometry-builder.js:91-106 | the points of the loop start with the first input point; for a path with a segment there are n of them, and point j lies on the path with n - 1 - j spacings of length I = length/(n - 1) still ahead; a single point gives just itself |
| Normalizer.Resample | js/games/geometry-builder.js:90-109 | the result is non-empty and starts with the first input point; for a path with a segment it has exactly n points, and point j lies on the path with n - 1 - j spacings still ahead, so the points are evenly spaced along it |
| Normalizer.ResamplePadding | js/games/geometry-builder.js:107 | the last input point is appended exactly when n - 1 points were produced, and that happens only for a one-point path with n = 2 |
| Normalizer.RotateBy | js/games/geometry-builder.js:125-133 | rotation about the centroid keeps the point count and leaves the centroid where it was |
| Normalizer.RotationKeepsCentroid | js/games/geometry-builder.js:125-133 | any path whose points are the rotations of another's about its centroid has the same centroid |
| Normalizer.TranslateTo | js/games/geometry-builder.js:117-123 | translation keeps the point count, puts the centroid at the given origin, and keeps the bounding box's width and height |
| Normalizer.TranslationMovesPath | js/games/geometry-builder.js:117-123 | moving every point by origin minus centroid moves the centroid to the origin and keeps the box sides |
| Normalizer.TranslationMovesCentroid | js/games/geometry-builder.js:118-122 | shifting every coordinate by origin minus centroid makes the centroid equal to origin |
| Normalizer.ShiftBounds | js/games/geometry-builder.js:119-122 | shifting every coordinate by delta shifts its minimum and maximum by delta |
| Normalizer.ScaleBounds | js/games/geometry-builder.js:114 | scaling every coordinate by a non-negative factor scales its minimum and maximum by that factor |
| Normalizer.ScaleTo | js/games/geometry-builder.js:111-115 | scaling keeps the point count, multiplies every coordinate by the one factor size / max(width, height), and for a non-negative size makes the larger side of the new box equal to size |
| Normalizer.ScaledBox | js/games/geometry-builder.js:111-115 | scaling by a non-negative factor scales the box's width and height by that factor |
| Normalizer.ScaledExtent | js/games/geometry-builder.js:111-115 | if the factor maps the old larger side to size, the new larger side is size |
| Normalizer.IndicativeAngle | js/games/geometry-builder.js:84 | the atan2 of the first resampled point, measured from the origin; it has no contract of its own, and Normalizer.Aligned and Normalizer.ProcessPath use it |
| Normalizer.Aligned | js/games/geometry-builder.js:83-85 | resampling to 64 points and then rotating gives 64 points |
| Normalizer.ProcessPath | js/games/geometry-builder.js:82-88 | a normalized stroke has exactly 64 points, its centroid at the origin, and 250 as the larger side of its bounding box |
| Alignment.PhiIsGolden | js/games/geometry-builder.js:146 | 0.5(-1 + √5) is the golden ratio conjugate: it lies in (0.6, 0.625) and φ² = 1 - φ |
| Alignment.DistanceAtAngle | js/games/geometry-builder.js:168-170 | the distance of the stroke rotated by an angle to the template is never negative |
| Alignment.RotateByZero | js/games/geometry-builder.js:125-133 | rotating by angle zero returns the path unchanged |
| Alignment.DistanceAtZeroAngleSelf | js/games/geometry-builder.js:168-170 | a path unrotated is at distance zero from itself |
| Alignment.ReuseLower | js/games/geometry-builder.js:156-157 | after b shrinks to x2, the new upper probe is the old lower probe, so its value f1 can be reused |
| Alignment.ReuseUpper | js/games/geometry-builder.js:160-161 | after a grows to x1, the new lower probe is the old upper probe, so its value f2 can be reused |
| Alignment.ShrinkWidth | js/games/geometry-builder.js:149-162 | either shrink leaves a width of φ times the old width, both probes lie inside [a, b], and for a < b the lower probe is strictly below the upper one |
| Alignment.ProbesOrdered | js/games/geometry-builder.js:149-150 | for a < b the probe x1 lies strictly below the probe x2 |
| Alignment.InitialBracket | js/games/geometry-builder.js:147-152 | the search starts from the whole interval [a, b]; both probes lie inside it and in order (strictly for a < b), at the golden positions, with the objective measured at them |
| Alignment.GoldenStep | js/games/geometry-builder.js:155-163 | one iteration keeps the probes at golden positions with their distances, multiplies the width by φ, stays inside the old interval, and decreases the round count while the width exceeds 0.02 |
| Alignment.GoldenLoop | js/games/geometry-builder.js:154-164 | the loop ends with width at most 0.02, inside the original interval, with the probes still at golden positions |
| Alignment.FinalBracket | js/games/geometry-builder.js:146-164 | starting from [a, b], the search ends inside it with width at most 0.02 and consistent probes |
| Alignment.DistanceAtBestAngle | js/games/geometry-builder.js:142-166 | the result is min(f1, f2) of the last two probes, is non-negative, and is the distance at some angle inside [a, b] |
| Alignment.StepKeepsMinimizer | js/games/geometry-builder.js:154-164 | on an objective that falls strictly to xs and rises strictly after it, one iteration keeps xs inside the bracket: dropping [x2, b] when f1 < f2, or [a, x1] otherwise, never drops the minimizer |
| Alignment.ProbesLocateMinimizer | js/games/geometry-builder.js:154-164 | on a unimodal objective, f(x1) < f(x2) puts the minimizer no later than x2, and f(x1) >= f(x2) puts it no earlier than x1: the comparison the loop branches on |
| Alignment.LoopKeepsMinimizer | js/games/geometry-builder.js:154-165 | on such an objective the whole loop keeps the minimizer inside the bracket |
| Alignment.SearchFindsMinimizer | js/games/geometry-builder.js:146-166 | golden-section correctness: on an objective unimodal over [a, b], the final bracket holds the minimizer, is at most 0.02 wide, and neither final probe measures less than the minimum |
| Alignment.AtLeastMinimum | js/games/geometry-builder.js:154-165 | no angle in the interval measures less than the minimizer of a unimodal objective, which is why the smaller probe approximates the minimum from above |
| Alignment.BestAngleNearMinimizer | js/games/geometry-builder.js:142-166 | when the distance is unimodal in the angle, the result is measured at an angle within 0.02 of the best angle and is no smaller than the least distance |
| Recognizer.PreprocessTemplates | js/games/geometry-builder.js:312-314 | every template keeps its name and becomes a normalized path: 64 points, centroid at the origin, larger side 250 |
| Recognizer.Distances | js/games/geometry-builder.js:61-64 | one best-alignment distance per template; each is non-negative and is the distance measured with the stroke turned by some angle in [-π/2, π/2] |
| Recognizer.FirstMinUnique | js/games/geometry-builder.js:66-69 | there is only one first index of the least distance |
| Recognizer.ScanBest | js/games/geometry-builder.js:57-70 | the scan with a strict `<` ends on the first index of the least distance, so a later tie never replaces an earlier match |
| Recognizer.BestMatch | js/games/geometry-builder.js:57-74 | the match names a template at the first index of the least distance, scored from that distance |
| Recognizer.Score | js/games/geometry-builder.js:73 | the score determines the distance back: (1 - score) times the half diagonal is the distance |
| Recognizer.HalfDiagonal | js/games/geometry-builder.js:73 | the normalizing divisor 0.5·√(2·250²) is positive |
| Recognizer.ScorePerfect | js/games/geometry-builder.js:73 | a distance of zero scores exactly 1 |
| Recognizer.ScoreDecreasing | js/games/geometry-builder.js:73 | the score strictly decreases as the distance grows |
| Recognizer.ScoreAtMostOne | js/games/geometry-builder.js:73 | a non-negative distance scores at most 1 |
| Recognizer.Classify | js/games/geometry-builder.js:56-73 | the normalized stroke's match names one of the templates and scores at most 1 |
| Recognizer.MatchNamesTemplate | js/games/geometry-builder.js:57-74 | the best match of a normalized stroke names one of the templates and scores at most 1 |
| Recognizer.Recognize | js/games/geometry-builder.js:53-75 | no match exactly when the stroke has fewer than 10 points; otherwise the best match of the normalized stroke |
| Challenge.Index | js/games/equation-builder.js:21 | Math.floor(r·m) for a draw r in [0, 1) is the index k below m with k <= r·m < k + 1 |
| Challenge.Digit | js/games/equation-builder.js:19-20 | Math.floor(r·9) + 1 is the digit d in 1..9 whose ninth of [0, 1) holds r |
| Challenge.OpAt | js/games/equation-builder.js:12-21 | the drawn operator is "+" exactly for r < 0.25, "-" exactly for r in [0.25, 0.5), "*" exactly for r in [0.5, 0.75) and "/" exactly for r >= 0.75 |
| Challenge.Apply | js/games/equation-builder.js:27-32 | the switch on the operator; addition, subtraction and exact division can be undone by the inverse operation |
| Challenge.EvalThree | js/games/equation-builder.js:27-48 | the two switches compute n1 op n2 op2 n3 evaluated left to right |
| Challenge.SecondOp | js/games/equation-builder.js:42 | the second operator always applies exactly, and it differs from the drawn one exactly when a drawn "/" would not divide, in which case it is "+" |
| Challenge.Choose | js/games/equation-builder.js:19-49 | the attempt is dropped exactly when the first operator is "/" and n2 does not divide n1; otherwise it keeps the drawn n1, n2 and op, uses a third number exactly when the coin is below 0.5, keeps digits 1..9, and the target is the left-to-right value of the chosen numbers and operators; with a third number, n3 is the next drawn digit and op2 is the drawn operator after the "/"-to-"+" correction |
| Challenge.Pad | js/games/equation-builder.js:56-60 | padding always ends with exactly 5 numbers, keeps the chosen numbers as the prefix, and adds only digits 1..9 |
| Challenge.Swap | js/games/equation-builder.js:65 | exchanging two entries keeps the length and the multiset of numbers |
| Challenge.ShuffleFrom | js/games/equation-builder.js:63-66 | the Fisher–Yates loop with j in [0, i] yields a permutation: same length, same multiset |
| Challenge.Offer | js/games/equation-builder.js:55-66 | the offered numbers are 5 digits from 1..9 and contain the chosen numbers |
| Challenge.Attempt | js/games/equation-builder.js:15-74 | an attempt is accepted exactly when the division guard passes and the target is within ±200; an accepted one offers 5 digits containing the chosen numbers, with the computed target |
| Challenge.InRange | js/games/equation-builder.js:62-66 | a permutation of digits 1..9 consists of digits 1..9 |
| Challenge.AcceptedIsSolvable | js/games/equation-builder.js:26-49 | every accepted challenge is left-to-right solvable: two or three of the offered numbers, combined strictly left to right with some operators, give the target |
| EquationText.AddToEquation | js/games/equation-builder.js:98-101 | the old equation stays as prefix, the value ends the result, and exactly one space is inserted between them exactly when the equation is non-empty and does not already end in a space |
| EquationText.LastSpace | js/games/equation-builder.js:98-101 | helper for reading the text back (used by Split and the round-trip lemmas): the position found holds a space and no later position does |
| EquationText.JoinEnds | js/games/equation-builder.js:100 | an equation built from button labels is non-empty and does not end in a space |
| EquationText.SplitLast | js/games/equation-builder.js:100-101 | splitting an equation that ends in a space and a label peels that label off the end |
| EquationText.BuildIsJoin | js/games/equation-builder.js:98-101 | pressing space-free labels one after another gives those labels separated by single spaces |
| EquationText.SplitJoin | js/games/equation-builder.js:100-101 | splitting labels joined by single spaces at the spaces gives back the labels |
| EquationText.BuildSplits | js/games/equation-builder.js:98-101 | the equation text can be read back into the sequence of buttons pressed |

## Left out

- The DOM, canvas and pointer handling of both games is left out: drawing, rendering, buttons, timers and game-state bookkeeping. That includes the 0.82 acceptance threshold applied to a recognition result, score updates and discovered shapes.
- The concrete templates (`shapesData`, js/games/geometry-builder.js:6-32) are left out, including the circle built with trigonometry. They are static data and floating-point values. `data/games-data.js` is the game catalogue and has no behaviour.
- Floating-point rounding, NaN and Infinity are not modelled. All arithmetic is exact over `real` and `int`.
- `recognize` with an empty template store is excluded by a precondition. The source would return a null name with a score of minus infinity: the best distance stays infinite, and one minus infinity over the half diagonal is minus infinity.
- A zero-length stroke, or one whose normalized points coincide, is excluded by a precondition (`Processable`). The source does not guard against it: it would divide by zero in `resample` and `scaleTo`.
- `centroid` and `boundingBox` of an empty path are excluded by a precondition. The source would produce NaN or an infinite box.
- Normalizer.Resample: the caller's array is not modified. The source's `splice` into its argument is modelled only as the walk's "previous point".
- Alignment.DistanceAtBestAngle: the $1 distance as a function of the angle (`distanceAtAngle`) is not proved unimodal on [-π/2, π/2]. So the minimizer results (SearchFindsMinimizer, BestAngleNearMinimizer) hold only for strokes where it is.
- `evaluateExpression` and `checkEquation` are left out. They evaluate code built at run time and compare floats with a tolerance.
- The outer retry loop of `generateNewChallenge` is left out. It has no bound on the number of attempts; the model describes one attempt and how many draws it reads.
- EquationText.AddToEquation: disabling a used number button is not modelled, because it is UI state.
