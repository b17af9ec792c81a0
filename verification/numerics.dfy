/**
  The non-polynomial primitives the recognizer calls (Math.hypot, Math.sqrt,
  Math.cos, Math.sin, Math.atan2 and the constant Math.PI) are not given
  concrete values here. They are fields of a `Numerics` record, and
  `Numerics.Valid` states the few laws the proofs rely on. Every law holds of
  the exact mathematical functions.
 */
module Numerics {

  /** Multiplication behind a function symbol, so that the homogeneity law of
      `hypot` has a term to trigger on. */
  function Mul(t: real, x: real): real {
    t * x
  }

  function Abs(x: real): real {
    if x < 0.0 then -x else x
  }

  /** Math.min on two finite numbers. */
  function Min(x: real, y: real): real {
    if x <= y then x else y
  }

  /** Math.max on two finite numbers. */
  function Max(x: real, y: real): real {
    if x >= y then x else y
  }

  datatype Numerics = Numerics(
    hypot: (real, real) -> real,
    sqrt: real -> real,
    cos: real -> real,
    sin: real -> real,
    atan2: (real, real) -> real,
    pi: real)
  {
    ghost predicate Valid() {
      // the Euclidean norm is non-negative ...
      && (forall x, y :: hypot(x, y) >= 0.0)
      // ... and absolutely homogeneous: |t·v| = |t|·|v|
      && (forall t, x, y :: hypot(Mul(t, x), Mul(t, y)) == Abs(t) * hypot(x, y))
      // the square root of a non-negative number is its non-negative root
      && (forall x :: x >= 0.0 ==> sqrt(x) >= 0.0 && sqrt(x) * sqrt(x) == x)
      // a turn by zero is no turn
      && cos(0.0) == 1.0 && sin(0.0) == 0.0
      && 3.14 < pi < 3.15
    }
  }

  /** The norm of a vector (u, v) = t·(x, y) scaled by a non-negative factor t. */
  lemma HypotScale(num: Numerics, t: real, x: real, y: real, u: real, v: real)
    requires num.Valid()
    requires t >= 0.0
    requires u == t * x && v == t * y
    ensures num.hypot(u, v) == t * num.hypot(x, y)
  {
    assert Mul(t, x) == t * x && Mul(t, y) == t * y;
  }

  /** The norm does not depend on the direction of the vector. */
  lemma HypotNegate(num: Numerics, x: real, y: real)
    requires num.Valid()
    ensures num.hypot(-x, -y) == num.hypot(x, y)
  {
    assert Mul(-1.0, x) == -x && Mul(-1.0, y) == -y;
  }

  /** The zero vector has norm zero. */
  lemma HypotZero(num: Numerics)
    requires num.Valid()
    ensures num.hypot(0.0, 0.0) == 0.0
  {
    assert Mul(0.0, 0.0) == 0.0;
  }

  /** The square root of a positive number is positive. */
  lemma SqrtPositive(num: Numerics, x: real)
    requires num.Valid()
    requires x > 0.0
    ensures num.sqrt(x) > 0.0
  {
  }

  /** A fraction of a non-negative quantity lies between zero and the quantity. */
  lemma FractionBounds(t: real, u: real)
    requires 0.0 <= t <= 1.0 && u >= 0.0
    ensures 0.0 <= t * u <= u
  {
  }
}
