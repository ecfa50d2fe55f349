/** The network's activation function.

    The source computes the logistic sigmoid 1 / (1 + e^-x) in 32-bit floats. The model
    keeps it abstract: every operation that activates a node takes the activation function
    as a parameter of type `Squash`, and the only fact known about it is that it maps every
    real into the open unit interval. */
module Squashing {

  /** Any function into the open interval (0, 1). */
  type Squash = f: real -> real | forall x :: 0.0 < f(x) < 1.0 witness Midpoint

  /** The constant squash, used only as the witness that `Squash` is inhabited. */
  function Midpoint(x: real): real
  {
    0.5
  }

  /** A strictly increasing rational squash with RationalSquash(0) == 1/2. It shares the
      shape of the logistic sigmoid and is used to exhibit concrete behaviour of the
      forward pass with exact arithmetic. */
  function RationalSquash(x: real): (y: real)
    ensures 0.0 < y < 1.0
    ensures x < 0.0 <==> y < 0.5
    ensures x == 0.0 <==> y == 0.5
  {
    if x >= 0.0 then
      var d := 2.0 * (1.0 + x);
      assert d >= 2.0;
      1.0 - 1.0 / d
    else
      var d := 2.0 * (1.0 - x);
      assert d > 2.0;
      1.0 / d
  }

  /** `RationalSquash` as a value of type `Squash`. */
  const Rational: Squash := RationalSquash

  lemma RationalValues()
    ensures Rational(0.0) == 0.5
    ensures Rational(1.0) == 0.75
    ensures Rational(0.5) == 2.0 / 3.0
    ensures Rational(0.75) == 5.0 / 7.0
    ensures Rational(5.0 / 7.0) == 17.0 / 24.0
    ensures Rational(17.0 / 24.0) == 29.0 / 41.0
  {
  }
}
