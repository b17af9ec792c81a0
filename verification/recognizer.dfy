/**
  `recognize`: normalize the drawn stroke, align it with every stored template
  and report the closest one with a score, together with the template store
  it reads.
 */
module Recognizer {
  import opened Numerics
  import opened Kernel
  import opened Normalizer
  import opened Alignment
  import opened Options

  /** One entry of the template store: a shape name and its normalized points. */
  datatype Template = Template(name: string, points: Path)

  /** The value `recognize` returns when the stroke is long enough. */
  datatype Match = Match(name: string, score: real)

  /** Strokes with fewer points than this are not recognized at all. */
  const MinStrokePoints: nat := 10

  /** The store built at start-up: every shape's template run
      through `processPath`, in the shapes' order. Every stored template has
      64 points, its centroid at the origin and larger side 250. */
  function PreprocessTemplates(num: Numerics, shapes: seq<Template>): (store: seq<Template>)
    requires forall i :: 0 <= i < |shapes| ==> Processable(num, shapes[i].points)
    ensures |store| == |shapes|
    ensures forall i :: 0 <= i < |store| ==>
      && store[i].name == shapes[i].name
      && |store[i].points| == NumResamplePoints
      && Centroid(store[i].points) == Point(0.0, 0.0)
      && Extent(BoundingBox(store[i].points)) == ReferenceSize
  {
    seq(|shapes|, i requires 0 <= i < |shapes| => Template(shapes[i].name, ProcessPath(num, shapes[i].points)))
  }

  /** Every template is long enough to be compared with a normalized stroke. */
  ghost predicate LongTemplates(templates: seq<Template>) {
    forall i :: 0 <= i < |templates| ==> |templates[i].points| >= NumResamplePoints
  }

  lemma PreprocessedAreLong(num: Numerics, shapes: seq<Template>)
    requires forall i :: 0 <= i < |shapes| ==> Processable(num, shapes[i].points)
    ensures LongTemplates(PreprocessTemplates(num, shapes))
  {
  }

  /** d is the distance between the stroke turned by some angle in
      [-pi/2, pi/2] and the template. */
  ghost predicate MeasuredInRange(num: Numerics, stroke: Path, template: Path, d: real)
    requires num.Valid()
    requires 0 < |stroke| <= |template|
  {
    exists x :: -num.pi / 2.0 <= x <= num.pi / 2.0 && d == DistanceAtAngle(num, stroke, template, x)
  }

  /** The best-alignment distance from the normalized stroke to each template,
      searched over [-pi/2, pi/2]. Each is non-negative and is a distance
      actually measured with the stroke turned by an angle in that range. */
  function Distances(num: Numerics, stroke: Path, templates: seq<Template>): (ds: seq<real>)
    requires num.Valid()
    requires |stroke| == NumResamplePoints
    requires LongTemplates(templates)
    ensures |ds| == |templates|
    ensures forall i :: 0 <= i < |ds| ==>
      ds[i] == DistanceAtBestAngle(num, stroke, templates[i].points, -num.pi / 2.0, num.pi / 2.0)
    ensures forall i :: 0 <= i < |ds| ==> ds[i] >= 0.0
    ensures forall i :: 0 <= i < |ds| ==> MeasuredInRange(num, stroke, templates[i].points, ds[i])
  {
    var ds := seq(|templates|, i requires 0 <= i < |templates| =>
      DistanceAtBestAngle(num, stroke, templates[i].points, -num.pi / 2.0, num.pi / 2.0));
    BestAnglesMeasured(num, stroke, templates, ds);
    ds
  }

  lemma BestAnglesMeasured(num: Numerics, stroke: Path, templates: seq<Template>, ds: seq<real>)
    requires num.Valid()
    requires |stroke| == NumResamplePoints
    requires LongTemplates(templates)
    requires |ds| == |templates|
    requires forall i :: 0 <= i < |ds| ==>
      ds[i] == DistanceAtBestAngle(num, stroke, templates[i].points, -num.pi / 2.0, num.pi / 2.0)
    ensures forall i :: 0 <= i < |ds| ==> MeasuredInRange(num, stroke, templates[i].points, ds[i])
  {
    forall i | 0 <= i < |ds|
      ensures MeasuredInRange(num, stroke, templates[i].points, ds[i])
    {
      var t := templates[i].points;
      var lo := -num.pi / 2.0;
      var hi := num.pi / 2.0;
      assert lo <= hi;
      var x :| lo <= x <= hi && ds[i] == DistanceAtAngle(num, stroke, t, x);
    }
  }

  /** k is the first index holding the least value: no value is smaller, and
      every earlier value is strictly larger. */
  ghost predicate IsFirstMin(ds: seq<real>, k: int) {
    && 0 <= k < |ds|
    && (forall j :: 0 <= j < |ds| ==> ds[k] <= ds[j])
    && (forall j :: 0 <= j < k ==> ds[k] < ds[j])
  }

  /** There is only one first minimum. */
  lemma FirstMinUnique(ds: seq<real>, k1: int, k2: int)
    requires IsFirstMin(ds, k1) && IsFirstMin(ds, k2)
    ensures k1 == k2
  {
    assert ds[k1] <= ds[k2] && ds[k2] <= ds[k1];
  }

  /** The matching loop from index i on. `best` is the index of the
      best template so far, None before any distance was seen; a later distance
      replaces the best only when it is strictly smaller. */
  function ScanBest(ds: seq<real>, i: nat, best: Option<nat>): (r: Option<nat>)
    requires i <= |ds|
    requires best.None? ==> i == 0
    requires best.Some? ==> IsFirstMin(ds[..i], best.value)
    ensures |ds| > 0 ==> r.Some? && IsFirstMin(ds, r.value)
    ensures |ds| == 0 ==> r.None?
    decreases |ds| - i
  {
    if i == |ds| then
      assert ds[..i] == ds;
      best
    else if best.None? || ds[i] < ds[best.value] then
      ScanBest(ds, i + 1, Some(i))
    else
      ScanBest(ds, i + 1, best)
  }

  /** The score: one minus the distance over half the diagonal of
      the 250 × 250 reference square. */
  function Score(num: Numerics, d: real): (score: real)
    requires num.Valid()
    ensures (1.0 - score) * HalfDiagonal(num) == d
  {
    1.0 - d / HalfDiagonal(num)
  }

  function HalfDiagonal(num: Numerics): (h: real)
    requires num.Valid()
    ensures h > 0.0
  {
    SqrtPositive(num, 2.0 * 250.0 * 250.0);
    0.5 * num.sqrt(2.0 * 250.0 * 250.0)
  }

  /** A perfect match scores 1. */
  lemma ScorePerfect(num: Numerics)
    requires num.Valid()
    ensures Score(num, 0.0) == 1.0
  {
  }

  /** The score strictly decreases as the distance grows. */
  lemma ScoreDecreasing(num: Numerics, d1: real, d2: real)
    requires num.Valid()
    requires d1 < d2
    ensures Score(num, d2) < Score(num, d1)
  {
    var h := HalfDiagonal(num);
    assert d1 / h < d2 / h;
  }

  /** No distance scores above 1. */
  lemma ScoreAtMostOne(num: Numerics, d: real)
    requires num.Valid()
    requires d >= 0.0
    ensures Score(num, d) <= 1.0
  {
    if d > 0.0 {
      ScoreDecreasing(num, 0.0, d);
    }
  }

  /** Matching a normalized stroke: the name is that of the first
      template with the strictly smallest best-alignment distance (a later tie
      does not replace it), and the score is computed from that distance. */
  function BestMatch(num: Numerics, templates: seq<Template>, stroke: Path): (m: Match)
    requires num.Valid()
    requires |templates| > 0 && LongTemplates(templates)
    requires |stroke| == NumResamplePoints
    ensures var ds := Distances(num, stroke, templates);
      exists k :: IsFirstMin(ds, k) && m == Match(templates[k].name, Score(num, ds[k]))
  {
    var ds := Distances(num, stroke, templates);
    var k := ScanBest(ds, 0, None).value;
    Match(templates[k].name, Score(num, ds[k]))
  }

  /** Normalize the stroke and match it against the store. */
  function Classify(num: Numerics, templates: seq<Template>, points: Path): (m: Match)
    requires |templates| > 0 && LongTemplates(templates)
    requires Processable(num, points)
    ensures exists k :: 0 <= k < |templates| && m.name == templates[k].name
    ensures m.score <= 1.0
  {
    var stroke := ProcessPath(num, points);
    MatchNamesTemplate(num, templates, stroke);
    BestMatch(num, templates, stroke)
  }

  /** The best match names one of the templates and scores at most 1. */
  lemma MatchNamesTemplate(num: Numerics, templates: seq<Template>, stroke: Path)
    requires num.Valid()
    requires |templates| > 0 && LongTemplates(templates)
    requires |stroke| == NumResamplePoints
    ensures var m := BestMatch(num, templates, stroke);
      (exists k :: 0 <= k < |templates| && m.name == templates[k].name) && m.score <= 1.0
  {
    var ds := Distances(num, stroke, templates);
    var m := BestMatch(num, templates, stroke);
    var k :| IsFirstMin(ds, k) && m == Match(templates[k].name, Score(num, ds[k]));
    ScoreAtMostOne(num, ds[k]);
  }

  /** `recognize`. A stroke of fewer than 10 points is not recognized (None,
      where `recognize` returns null); any other stroke is normalized and matched. The
      store must be non-empty, and a stroke of 10 or more points must be one
      `processPath` can normalize. */
  function Recognize(num: Numerics, templates: seq<Template>, points: Path): (r: Option<Match>)
    requires num.Valid()
    requires |templates| > 0 && LongTemplates(templates)
    requires |points| >= MinStrokePoints ==> Processable(num, points)
    ensures r.None? <==> |points| < MinStrokePoints
    ensures r.Some? ==> |points| >= MinStrokePoints && r.value == Classify(num, templates, points)
  {
    if |points| < MinStrokePoints then None
    else Some(Classify(num, templates, points))
  }
}
