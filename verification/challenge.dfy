/**
  One attempt of `generateNewChallenge`: draw two or three numbers and
  operators, compute the target left to right, reject unsuitable attempts,
  pad the numbers to five and shuffle them. The random source is a stream of draws
  in [0, 1) passed in as a parameter, read from a given position on.
 */
module Challenge {
  import opened Options

  /** The four operators the generator draws from, in order. */
  datatype Op = Plus | Minus | Times | Divide

  const Operators: seq<Op> := [Plus, Minus, Times, Divide]

  /** The largest absolute target an accepted challenge may have. */
  const MaxTarget: int := 200

  /** The count of numbers offered to the player. */
  const ChallengeSize: nat := 5

  /** Every random draw lies in [0, 1). */
  ghost predicate UnitDraws(draw: nat -> real) {
    forall i :: 0.0 <= draw(i) < 1.0
  }

  /** The floor of r·m for a draw r: the index of the one of m equal parts of
      [0, 1) that holds r. */
  function Index(r: real, m: nat): (k: nat)
    requires 0.0 <= r < 1.0 && m > 0
    ensures k < m
    ensures k as real <= r * (m as real) < (k + 1) as real
  {
    ScaleBelow(r, m as real);
    var k := (r * (m as real)).Floor;
    assert k as real <= r * (m as real) < m as real;
    k
  }

  lemma ScaleBelow(r: real, m: real)
    requires 0.0 <= r < 1.0 && m > 0.0
    ensures 0.0 <= r * m < m
  {
    assert m - r * m == (1.0 - r) * m;
  }

  /** Every number is a digit from 1 to 9. */
  predicate Digits(xs: seq<int>) {
    forall i :: 0 <= i < |xs| ==> 1 <= xs[i] <= 9
  }

  /** A random digit from 1 to 9: d when the draw falls in the d-th ninth of
      [0, 1). */
  function Digit(r: real): (d: int)
    requires 0.0 <= r < 1.0
    ensures 1 <= d <= 9
    ensures (d - 1) as real <= 9.0 * r < d as real
  {
    Index(r, 9) + 1
  }

  /** A random operator: each quarter of [0, 1) selects one operator, in the
      order of the operator list. */
  function OpAt(r: real): (op: Op)
    requires 0.0 <= r < 1.0
    ensures op in Operators
    ensures op == Plus <==> r < 0.25
    ensures op == Minus <==> 0.25 <= r < 0.5
    ensures op == Times <==> 0.5 <= r < 0.75
    ensures op == Divide <==> 0.75 <= r
  {
    Operators[Index(r, |Operators|)]
  }

  /** An operator can be applied to x and y: a division must come out whole. */
  predicate Exact(op: Op, x: int, y: int) {
    op == Divide ==> y != 0 && x % y == 0
  }

  /** One step of the target computation. On whole numbers dividing exactly,
      JavaScript's `/` and Dafny's agree; so do the divisibility tests, since
      a remainder is zero exactly when y divides x under either convention. */
  function Apply(op: Op, x: int, y: int): (r: int)
    requires Exact(op, x, y)
    ensures op == Plus ==> r - y == x
    ensures op == Minus ==> r + y == x
    ensures op == Divide ==> r * y == x
  {
    match op
    case Plus => x + y
    case Minus => x - y
    case Times => x * y
    case Divide => x / y
  }

  /** Left-to-right evaluation of nums[0] ops[0] nums[1] ops[1] ...; None when a
      division along the way is not exact. */
  function EvalLeft(nums: seq<int>, ops: seq<Op>): Option<int>
    requires |nums| >= 1 && |ops| == |nums| - 1
  {
    if |nums| == 1 then Some(nums[0])
    else
      match EvalLeft(nums[..|nums| - 1], ops[..|ops| - 1])
      case None => None
      case Some(v) =>
        var op := ops[|ops| - 1];
        var y := nums[|nums| - 1];
        if Exact(op, v, y) then Some(Apply(op, v, y)) else None
  }

  /** A second "/" that would not divide `final` exactly becomes "+". */
  function SecondOp(op2: Op, final: int, n3: int): (r: Op)
    ensures Exact(r, final, n3)
    ensures r != op2 ==> op2 == Divide && r == Plus
    ensures r == op2 <==> Exact(op2, final, n3)
  {
    if op2 == Divide && (n3 == 0 || final % n3 != 0) then Plus else op2
  }

  /** The numbers and operators an attempt chose and the target they give, or
      the rejection of a first "/" that does not divide exactly, with the count
      of draws read. */
  datatype Choice =
    | Inexact(used: nat)
    | Chosen(nums: seq<int>, ops: seq<Op>, target: int, used: nat)

  /** The choice of an attempt: n1, n2 and op, then the coin for a third number, then n3 and
      op2 when it comes up. */
  function Choose(draw: nat -> real, s: nat): (c: Choice)
    requires UnitDraws(draw)
    ensures c.Inexact? <==> OpAt(draw(s + 2)) == Divide && Digit(draw(s)) % Digit(draw(s + 1)) != 0
    ensures c.Inexact? ==> c.used == 3
    ensures c.Chosen? ==>
      && 2 <= |c.nums| <= 3
      && |c.ops| == |c.nums| - 1
      && c.nums[0] == Digit(draw(s)) && c.nums[1] == Digit(draw(s + 1))
      && c.ops[0] == OpAt(draw(s + 2))
      && (|c.nums| == 3 <==> draw(s + 3) < 0.5)
      && c.used == 2 * |c.nums|
      && Digits(c.nums)
      && EvalLeft(c.nums, c.ops) == Some(c.target)
    ensures c.Chosen? && |c.nums| == 3 ==>
      && Exact(c.ops[0], c.nums[0], c.nums[1])
      && c.nums[2] == Digit(draw(s + 4))
      && c.ops[1] == SecondOp(OpAt(draw(s + 5)), Apply(c.ops[0], c.nums[0], c.nums[1]), c.nums[2])
  {
    var n1 := Digit(draw(s));
    var n2 := Digit(draw(s + 1));
    var op := OpAt(draw(s + 2));
    if op == Divide && (n2 == 0 || n1 % n2 != 0) then Inexact(3)
    else
      var base := Apply(op, n1, n2);
      var useThird := draw(s + 3) < 0.5;
      if useThird then
        var n3 := Digit(draw(s + 4));
        var op2 := SecondOp(OpAt(draw(s + 5)), base, n3);
        var final := Apply(op2, base, n3);
        EvalThree(n1, n2, n3, op, op2);
        Chosen([n1, n2, n3], [op, op2], final, 6)
      else
        EvalTwo(n1, n2, op);
        Chosen([n1, n2], [op], base, 4)
  }

  /** Left-to-right evaluation of n1 op n2. */
  lemma EvalTwo(n1: int, n2: int, op: Op)
    requires Exact(op, n1, n2)
    ensures EvalLeft([n1, n2], [op]) == Some(Apply(op, n1, n2))
  {
    assert [n1, n2][..1] == [n1];
  }

  /** Left-to-right evaluation of n1 op n2 op2 n3. */
  lemma EvalThree(n1: int, n2: int, n3: int, op: Op, op2: Op)
    requires Exact(op, n1, n2) && Exact(op2, Apply(op, n1, n2), n3)
    ensures EvalLeft([n1, n2, n3], [op, op2]) == Some(Apply(op2, Apply(op, n1, n2), n3))
  {
    EvalTwo(n1, n2, op);
    assert [n1, n2, n3][..2] == [n1, n2];
    assert [op, op2][..1] == [op];
  }

  /** Draw extra digits until there are five. Both branches of the
      loop body push the draw, so every iteration adds exactly one number and
      the chosen numbers stay in front. */
  function Pad(nums: seq<int>, draw: nat -> real, s: nat): (r: seq<int>)
    requires UnitDraws(draw)
    requires |nums| <= ChallengeSize
    ensures |r| == ChallengeSize
    ensures r[..|nums|] == nums
    ensures forall i :: |nums| <= i < |r| ==> 1 <= r[i] <= 9
    decreases ChallengeSize - |nums|
  {
    if |nums| >= ChallengeSize then nums
    else
      var extra := Digit(draw(s));
      var nums' :=
        if extra !in nums then nums + [extra]
        else if |nums| < ChallengeSize then nums + [extra]
        else assert false; nums;
      var r := Pad(nums', draw, s + 1);
      assert r[..|nums'|][..|nums|] == r[..|nums|];
      r
  }

  /** Exchange the elements at i and j. */
  function Swap(xs: seq<int>, i: nat, j: nat): (r: seq<int>)
    requires i < |xs| && j < |xs|
    ensures |r| == |xs|
    ensures multiset(r) == multiset(xs)
  {
    xs[i := xs[j]][j := xs[i]]
  }

  /** The Fisher-Yates loop from index i down to 1, reading one draw per
      index: the partner index j = Index(r, i + 1) lies in [0, i]. The result
      is a permutation of the input. */
  function ShuffleFrom(xs: seq<int>, draw: nat -> real, s: nat, i: nat): (r: seq<int>)
    requires UnitDraws(draw)
    requires i < |xs|
    ensures |r| == |xs|
    ensures multiset(r) == multiset(xs)
    decreases i
  {
    if i == 0 then xs
    else
      var j := Index(draw(s), i + 1);
      ShuffleFrom(Swap(xs, i, j), draw, s + 1, i - 1)
  }

  /** The outcome of one attempt: a rejection, after which `generateNewChallenge`
      draws again, or the numbers offered and the target, with the draws read. */
  datatype Outcome =
    | Rejected(used: nat)
    | Accepted(numbers: seq<int>, target: int, used: nat)

  /** The numbers offered for an accepted choice: pad to five, then shuffle. Reads
      ChallengeSize - |nums| draws for the padding and ChallengeSize - 1 for
      the shuffle. The chosen numbers are among the offered ones. */
  function Offer(nums: seq<int>, draw: nat -> real, s: nat): (r: seq<int>)
    requires UnitDraws(draw)
    requires |nums| <= ChallengeSize
    requires Digits(nums)
    ensures |r| == ChallengeSize
    ensures Digits(r)
    ensures multiset(nums) <= multiset(r)
  {
    var padded := Pad(nums, draw, s);
    assert padded == nums + padded[|nums|..] by {
      assert padded[..|nums|] == nums;
    }
    var r := ShuffleFrom(padded, draw, s + (ChallengeSize - |nums|), ChallengeSize - 1);
    InRange(padded, r);
    r
  }

  /** One pass of the loop of `generateNewChallenge`. */
  function Attempt(draw: nat -> real, s: nat): (o: Outcome)
    requires UnitDraws(draw)
    ensures o.Accepted? <==> Choose(draw, s).Chosen? && -MaxTarget <= Choose(draw, s).target <= MaxTarget
    ensures o.Accepted? ==>
      && |o.numbers| == ChallengeSize
      && Digits(o.numbers)
      && o.target == Choose(draw, s).target
      && -MaxTarget <= o.target <= MaxTarget
      && multiset(Choose(draw, s).nums) <= multiset(o.numbers)
      && o.used == |Choose(draw, s).nums| + 9
  {
    var c := Choose(draw, s);
    if c.Inexact? || c.target < -MaxTarget || c.target > MaxTarget then Rejected(c.used)
    else
      var extras := ChallengeSize - |c.nums|;
      Accepted(Offer(c.nums, draw, s + c.used), c.target, c.used + extras + (ChallengeSize - 1))
  }

  /** A permutation of digits is made of digits. */
  lemma InRange(xs: seq<int>, ys: seq<int>)
    requires multiset(ys) == multiset(xs)
    requires Digits(xs)
    ensures Digits(ys)
  {
    forall i | 0 <= i < |ys|
      ensures 1 <= ys[i] <= 9
    {
      assert ys[i] in multiset(ys);
      var k :| 0 <= k < |xs| && xs[k] == ys[i];
    }
  }

  /** The target is left-to-right solvable: some two or three of the offered
      numbers, combined strictly left to right with some operators, give it.
      This is how the target was computed. It is not how a typed equation is
      checked: that uses the usual operator precedence, so a product after a
      sum is evaluated first there. */
  ghost predicate Solvable(numbers: seq<int>, target: int) {
    exists xs: seq<int>, ops: seq<Op> ::
      && 2 <= |xs| <= 3
      && |ops| == |xs| - 1
      && multiset(xs) <= multiset(numbers)
      && EvalLeft(xs, ops) == Some(target)
  }

  /** Every accepted challenge is left-to-right solvable by construction. */
  lemma AcceptedIsSolvable(draw: nat -> real, s: nat)
    requires UnitDraws(draw)
    ensures Attempt(draw, s).Accepted? ==> Solvable(Attempt(draw, s).numbers, Attempt(draw, s).target)
  {
    var o := Attempt(draw, s);
    if o.Accepted? {
      var c := Choose(draw, s);
      assert 2 <= |c.nums| <= 3 && |c.ops| == |c.nums| - 1 && EvalLeft(c.nums, c.ops) == Some(o.target);
    }
  }
}
