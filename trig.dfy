/** The transcendental part of Python's `math` module, as the clock uses it.
    The functions stay abstract: a `MathLib` value carries one implementation of
    each, and the predicates below are the range laws the proofs rely on. */
module Trig {

  /** `math.pi`. */
  const PI: real := 3.141592653589793

  datatype MathLib = MathLib(sin: real -> real, cos: real -> real, tan: real -> real, acos: real -> real)
  {
    /** `sin` never leaves [-1, 1]. */
    ghost predicate SinBounded() {
      forall x :: -1.0 <= sin(x) <= 1.0
    }

    /** `sin` is non-negative on the half turn [0, pi]. */
    ghost predicate SinNonNegativeOnHalfTurn() {
      forall x :: 0.0 <= x <= PI ==> 0.0 <= sin(x)
    }

    /** `cos` never leaves [-1, 1]. */
    ghost predicate CosBounded() {
      forall x :: -1.0 <= cos(x) <= 1.0
    }

    /** `tan` is odd. */
    ghost predicate TanOdd() {
      forall x :: tan(-x) == -tan(x)
    }

    /** On its domain [-1, 1], `acos` lands in [0, pi]. */
    ghost predicate AcosInRange() {
      forall x :: -1.0 <= x <= 1.0 ==> 0.0 <= acos(x) <= PI
    }
  }

  /** `math.acos` raises `ValueError` exactly when its argument lies outside [-1, 1]. */
  predicate AcosDomainError(x: real) {
    x < -1.0 || 1.0 < x
  }

  /** `math.radians`: keeps the sign of the angle, sends 180 degrees to pi and
      commutes with negation. */
  function Radians(degrees: real): (r: real)
    ensures r == 0.0 <==> degrees == 0.0
    ensures r > 0.0 <==> degrees > 0.0
    ensures degrees == 180.0 ==> r == PI
    ensures r * 180.0 == degrees * PI
  {
    degrees * PI / 180.0
  }
}
