/**
 Angle units and the trigonometric functions the coordinate conversions use.
 `math.radians` and `math.degrees` are multiplications by constants and are
 defined exactly over the reals; `sin` and `cos` are not definable here and are
 passed in as a `Trig` record, constrained only by the identities the proofs need.
 */
module Angles {

  /** Pi as the decimal `repr(math.pi)` prints; the double it rounds to is
      3.141592653589793115997963468544185161590576171875. The proofs use only `Pi > 0`. */
  const Pi: real := 3.141592653589793

  /** `math.radians`. */
  function Radians(deg: real): real {
    deg * Pi / 180.0
  }

  /** `math.degrees`. */
  function Degrees(rad: real): real {
    rad * 180.0 / Pi
  }

  /** `math.fabs`. */
  function Abs(x: real): (r: real)
    ensures r >= 0.0 && (r == x || r == -x)
  {
    if x < 0.0 then -x else x
  }

  /** The sine and cosine the conversions are evaluated with. */
  datatype Trig = Trig(sin: real -> real, cos: real -> real)

  /** The identities the proofs rely on: the values at 0 and the Pythagorean identity. */
  ghost predicate Valid(t: Trig) {
    && t.sin(0.0) == 0.0
    && t.cos(0.0) == 1.0
    && forall a: real :: t.sin(a) * t.sin(a) + t.cos(a) * t.cos(a) == 1.0
  }

  /** The concrete `Radians` and `Degrees` meet the inverse identities that an
      abstract treatment of them would assume: each undoes the other. */
  lemma DegreesRadians(a: real)
    ensures Degrees(Radians(a)) == a
    ensures Radians(Degrees(a)) == a
  {
  }

  /** The concrete `Radians` and `Degrees` are linear, as an abstract treatment
      of them would assume. */
  lemma AnglesLinear(a: real, b: real, k: real)
    ensures Radians(a + b) == Radians(a) + Radians(b) && Radians(k * a) == k * Radians(a)
    ensures Degrees(a + b) == Degrees(a) + Degrees(b) && Degrees(k * a) == k * Degrees(a)
  {
  }
}
