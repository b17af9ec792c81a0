/**
  The text of the equation the player builds by pressing buttons
  (`addToEquation`): each pressed value is appended, preceded by a single
  space unless the equation is empty or already ends in one.
 */
module EquationText {

  /** A button label: non-empty and free of spaces, as the digit and operator
      labels are. */
  predicate Word(t: string) {
    |t| > 0 && forall i :: 0 <= i < |t| ==> t[i] != ' '
  }

  predicate Words(ts: seq<string>) {
    forall i :: 0 <= i < |ts| ==> Word(ts[i])
  }

  /** The equation after pressing the button labelled `value`. */
  function AddToEquation(eq: string, value: string): (r: string)
    ensures |r| == |eq| + |value| || |r| == |eq| + 1 + |value|
    ensures r[..|eq|] == eq
    ensures r[|r| - |value|..] == value
    ensures |r| == |eq| + 1 + |value| <==> |eq| > 0 && eq[|eq| - 1] != ' '
    ensures |r| == |eq| + 1 + |value| ==> r[|eq|] == ' '
  {
    var spaced := if |eq| > 0 && eq[|eq| - 1] != ' ' then eq + " " else eq;
    spaced + value
  }

  /** The equation after pressing the buttons labelled `ts` in order, starting
      from the empty equation. */
  function Build(ts: seq<string>): string {
    if |ts| == 0 then "" else AddToEquation(Build(ts[..|ts| - 1]), ts[|ts| - 1])
  }

  /** The words separated by single spaces. */
  function Join(ts: seq<string>): string {
    if |ts| == 0 then ""
    else if |ts| == 1 then ts[0]
    else Join(ts[..|ts| - 1]) + " " + ts[|ts| - 1]
  }

  /** The position of the last space in s, or -1 when there is none. */
  function LastSpace(s: string): (k: int)
    ensures -1 <= k < |s|
    ensures k >= 0 ==> s[k] == ' '
    ensures forall i :: k < i < |s| ==> s[i] != ' '
  {
    if |s| == 0 then -1
    else if s[|s| - 1] == ' ' then |s| - 1
    else LastSpace(s[..|s| - 1])
  }

  /** The pieces of s between its spaces. */
  function Split(s: string): seq<string>
    decreases |s|
  {
    var k := LastSpace(s);
    if k == -1 then [s] else Split(s[..k]) + [s[k + 1..]]
  }

  /** A join of words is non-empty and does not end in a space. */
  lemma {:induction false} JoinEnds(ts: seq<string>)
    requires |ts| > 0 && Words(ts)
    ensures |Join(ts)| > 0 && Join(ts)[|Join(ts)| - 1] != ' '
  {
    var t := ts[|ts| - 1];
    assert Word(t);
  }

  /** Pressing word buttons one after another yields the words separated by
      single spaces. */
  lemma {:induction false} BuildIsJoin(ts: seq<string>)
    requires Words(ts)
    ensures Build(ts) == Join(ts)
  {
    if |ts| > 1 {
      var front := ts[..|ts| - 1];
      WordsFront(ts);
      BuildIsJoin(front);
      JoinEnds(front);
    } else if |ts| == 1 {
      assert Build(ts[..0]) == "";
    }
  }

  /** The last space of j + " " + t, for a word t, is the one before t, so
      splitting peels t off the end. */
  lemma SplitLast(j: string, t: string, s: string)
    requires Word(t) && s == j + " " + t
    ensures Split(s) == Split(j) + [t]
  {
    assert s[|j|] == ' ';
    assert LastSpace(s) == |j|;
    assert s[..|j|] == j && s[|j| + 1..] == t;
  }

  /** A word has no last space. */
  lemma WordHasNoSpace(t: string)
    requires Word(t)
    ensures LastSpace(t) == -1
  {
  }

  /** Dropping the last label leaves labels. */
  lemma WordsFront(ts: seq<string>)
    requires |ts| > 0 && Words(ts)
    ensures Words(ts[..|ts| - 1])
  {
    var front := ts[..|ts| - 1];
    forall i | 0 <= i < |front| ensures Word(front[i]) {
      assert front[i] == ts[i];
    }
  }

  /** Splitting the equation at its spaces gives back the pressed words. */
  lemma {:induction false} SplitJoin(ts: seq<string>)
    requires |ts| > 0 && Words(ts)
    ensures Split(Join(ts)) == ts
  {
    var t := ts[|ts| - 1];
    assert Word(t);
    if |ts| == 1 {
      WordHasNoSpace(t);
    } else {
      var front := ts[..|ts| - 1];
      WordsFront(ts);
      SplitJoin(front);
      SplitJoinStep(ts, front, t, Join(front), Join(ts));
    }
  }

  /** The inductive step of `SplitJoin`, over the two joins as plain strings:
      splitting j + " " + t gives the labels of j followed by t. */
  lemma SplitJoinStep(ts: seq<string>, front: seq<string>, t: string, j: string, s: string)
    requires Word(t) && ts == front + [t]
    requires Split(j) == front && s == j + " " + t
    ensures Split(s) == ts
  {
    SplitLast(j, t, s);
  }

  /** The equation the player sees can be read back into the buttons pressed. */
  lemma BuildSplits(ts: seq<string>)
    requires |ts| > 0 && Words(ts)
    ensures Split(Build(ts)) == ts
  {
    BuildIsJoin(ts);
    SplitJoin(ts);
  }
}
