/** Angle utilities of the circle dial: wrapping, folding, angular distance,
    and the conversions between the user-facing signed angle in [-90, 90]
    and the internal angle in [0, 180]. Angles are exact reals in degrees. */
module Angles {
  import opened Js

  /** Math.abs */
  function Abs(x: real): (r: real)
    ensures 0.0 <= r && (r == x || r == -x)
  {
    if x < 0.0 then -x else x
  }

  /** The Euclidean residue of `a` modulo 360: the reference definition
      that wrap360 is proved against. */
  function Mod360(a: real): real
  {
    a - 360.0 * ((a / 360.0).Floor as real)
  }

  /** Every angle lands in [0, 360), and the result is `a` minus a whole
      number of turns: sign correction of the truncated remainder gives
      the Euclidean residue. */
  function Wrap360(angle: real): (r: real)
    ensures 0.0 <= r < 360.0
    ensures r == Mod360(angle)
  {
    SignCorrectedRem(angle);
    var a := Rem(angle, 360.0);
    if a < 0.0 then a + 360.0 else a
  }

  /** Adding 360 to a negative truncated remainder gives the Euclidean one. */
  lemma SignCorrectedRem(angle: real)
    ensures 0.0 <= Mod360(angle) < 360.0
    ensures Mod360(angle) ==
      if Rem(angle, 360.0) < 0.0 then Rem(angle, 360.0) + 360.0 else Rem(angle, 360.0)
  {
    var q := angle / 360.0;
    assert angle == 360.0 * q;
    if q >= 0.0 {
      assert Trunc(q) == q.Floor;
    } else {
      var f := (-q).Floor;
      assert Trunc(q) == -f;
      assert Rem(angle, 360.0) == 360.0 * (q + f as real);
      if -q == f as real {
        assert q.Floor == -f;
      } else {
        assert q.Floor == -f - 1;
      }
    }
  }

  /** Shortest separation between two directions on the circle. */
  function AngularDistance(a: real, b: real): (r: real)
    ensures 0.0 <= r <= 180.0
  {
    var diff := Abs(Wrap360(a) - Wrap360(b));
    if diff > 180.0 then 360.0 - diff else diff
  }

  /** Folds any angle onto [0, 180] by mirroring the upper half-turn
      around 180 degrees (the mirror is `360 - w`, not `w - 180`). */
  function NormalizeAngle180(a: real): (r: real)
    ensures 0.0 <= r <= 180.0
  {
    var w := Wrap360(a);
    if w > 180.0 then 360.0 - w else w
  }

  /** Wraps any angle into the half-open interval [-180, 180). */
  function NormalizeSigned180(a: real): (r: real)
    ensures -180.0 <= r < 180.0
    ensures r == Wrap360(a + 180.0) - 180.0
  {
    var w := Rem(Rem(a + 180.0, 360.0) + 360.0, 360.0);
    w - 180.0
  }

  /** Signed angle (external, [-90, 90]) to internal angle ([0, 180]). */
  function ToInternalFromSigned(signed: real): (r: real)
    ensures 0.0 <= r <= 180.0
  {
    NormalizeAngle180(signed + 90.0)
  }

  /** Internal angle back to the signed angle. */
  function ToSignedFromInternal(internal: real): (r: real)
    ensures -180.0 <= r < 180.0
    ensures 0.0 <= internal <= 180.0 ==> -90.0 <= r <= 90.0
  {
    NormalizeSigned180(internal - 90.0)
  }

  /** Math.max(min, Math.min(max, value)): saturation into [min, max].
      When min > max the outer max wins and the result is `min`. */
  function Clamp(value: real, min: real, max: real): (r: real)
    ensures min <= max ==> min <= r <= max
    ensures min <= value <= max ==> r == value
    ensures value < min ==> r == min
    ensures min <= max < value ==> r == max
    ensures max < min ==> r == min
  {
    var low := if max < value then max else value;
    if min < low then low else min
  }

  // ---------------------------------------------------------------------
  // Laws of wrap360

  /** wrap360 is characterised by its range and the whole number of turns
      it removes: any r in [0, 360) with x = r + 360k is the result. */
  lemma Wrap360Unique(x: real, r: real, k: int)
    requires 0.0 <= r < 360.0
    requires x == r + 360.0 * (k as real)
    ensures Wrap360(x) == r
  {
    assert x / 360.0 == r / 360.0 + k as real;
    assert (x / 360.0).Floor == k;
  }

  /** wrap360 is the identity on [0, 360). */
  lemma Wrap360Identity(a: real)
    requires 0.0 <= a < 360.0
    ensures Wrap360(a) == a
  {
    Wrap360Unique(a, a, 0);
  }

  /** Adding whole turns does not change the wrapped angle. */
  lemma Wrap360Periodic(a: real, k: int)
    ensures Wrap360(a + 360.0 * (k as real)) == Wrap360(a)
  {
    var f := (a / 360.0).Floor;
    Wrap360Unique(a + 360.0 * (k as real), Wrap360(a), f + k);
  }

  /** The wrapped difference of two angles, from their wrapped values. */
  lemma Wrap360Difference(a: real, b: real)
    ensures Wrap360(a - b) ==
      if Wrap360(a) >= Wrap360(b) then Wrap360(a) - Wrap360(b)
      else Wrap360(a) - Wrap360(b) + 360.0
  {
    var fa, fb := (a / 360.0).Floor, (b / 360.0).Floor;
    var d := Wrap360(a) - Wrap360(b);
    if d >= 0.0 {
      Wrap360Unique(a - b, d, fa - fb);
    } else {
      Wrap360Unique(a - b, d + 360.0, fa - fb - 1);
    }
  }

  /** Wrapping a negated angle mirrors the wrapped angle. */
  lemma Wrap360Negate(a: real)
    ensures Wrap360(-a) == if Wrap360(a) == 0.0 then 0.0 else 360.0 - Wrap360(a)
  {
    var f := (a / 360.0).Floor;
    if Wrap360(a) == 0.0 {
      Wrap360Unique(-a, 0.0, -f);
    } else {
      Wrap360Unique(-a, 360.0 - Wrap360(a), -f - 1);
    }
  }

  // ---------------------------------------------------------------------
  // Laws of normalizeAngle180

  /** The fold is the identity on [0, 180], hence idempotent. */
  lemma NormalizeAngle180Identity(a: real)
    requires 0.0 <= a <= 180.0
    ensures NormalizeAngle180(a) == a
  {
    Wrap360Identity(a);
  }

  lemma NormalizeAngle180Idempotent(a: real)
    ensures NormalizeAngle180(NormalizeAngle180(a)) == NormalizeAngle180(a)
  {
    NormalizeAngle180Identity(NormalizeAngle180(a));
  }

  /** The documented examples of the mirror fold; 200 goes to 160, not 20. */
  lemma NormalizeAngle180Examples()
    ensures NormalizeAngle180(200.0) == 160.0
    ensures NormalizeAngle180(181.0) == 179.0
    ensures NormalizeAngle180(0.0) == 0.0
    ensures NormalizeAngle180(180.0) == 180.0
  {
    Wrap360Identity(200.0);
    Wrap360Identity(181.0);
    Wrap360Identity(0.0);
    Wrap360Identity(180.0);
  }

  /** The fold does not distinguish an angle from its mirror image. */
  lemma NormalizeAngle180Negate(a: real)
    ensures NormalizeAngle180(-a) == NormalizeAngle180(a)
  {
    Wrap360Negate(a);
  }

  /** The fold does not distinguish angles a whole number of turns apart. */
  lemma NormalizeAngle180Periodic(a: real, k: int)
    ensures NormalizeAngle180(a + 360.0 * (k as real)) == NormalizeAngle180(a)
  {
    Wrap360Periodic(a, k);
  }

  // ---------------------------------------------------------------------
  // Laws of angularDistance

  /** The distance between two angles is the fold of their difference:
      it depends only on `a - b`. */
  lemma AngularDistanceIsFoldedDifference(a: real, b: real)
    ensures AngularDistance(a, b) == NormalizeAngle180(a - b)
  {
    Wrap360Difference(a, b);
  }

  lemma AngularDistanceSymmetric(a: real, b: real)
    ensures AngularDistance(a, b) == AngularDistance(b, a)
  {
    AngularDistanceIsFoldedDifference(a, b);
    AngularDistanceIsFoldedDifference(b, a);
    NormalizeAngle180Negate(a - b);
    assert -(a - b) == b - a;
  }

  lemma AngularDistanceSelf(a: real)
    ensures AngularDistance(a, a) == 0.0
  {
    AngularDistanceIsFoldedDifference(a, a);
    Wrap360Identity(0.0);
  }

  /** Folding onto [0, 180] measures the distance from 0 degrees. */
  lemma NormalizeAngle180IsDistanceFromZero(a: real)
    ensures NormalizeAngle180(a) == AngularDistance(a, 0.0)
  {
    AngularDistanceIsFoldedDifference(a, 0.0);
    assert a - 0.0 == a;
  }

  /** Whole turns added to either argument do not change the distance. */
  lemma AngularDistancePeriodic(a: real, b: real, k: int)
    ensures AngularDistance(a + 360.0 * (k as real), b) == AngularDistance(a, b)
  {
    Wrap360Periodic(a, k);
  }

  // ---------------------------------------------------------------------
  // Laws of normalizeSigned180 and the signed/internal conversions

  /** normalizeSigned180 is the identity on [-180, 180). */
  lemma NormalizeSigned180Identity(a: real)
    requires -180.0 <= a < 180.0
    ensures NormalizeSigned180(a) == a
  {
    Wrap360Identity(a + 180.0);
  }

  lemma NormalizeSigned180Idempotent(a: real)
    ensures NormalizeSigned180(NormalizeSigned180(a)) == NormalizeSigned180(a)
  {
    NormalizeSigned180Identity(NormalizeSigned180(a));
  }

  /** Signed to internal and back is the identity on [-90, 90]. */
  lemma SignedRoundTrip(s: real)
    requires -90.0 <= s <= 90.0
    ensures ToSignedFromInternal(ToInternalFromSigned(s)) == s
  {
    NormalizeAngle180Identity(s + 90.0);
    NormalizeSigned180Identity(s);
  }

  /** Internal to signed and back is the identity on [0, 180]. */
  lemma InternalRoundTrip(i: real)
    requires 0.0 <= i <= 180.0
    ensures ToInternalFromSigned(ToSignedFromInternal(i)) == i
  {
    NormalizeSigned180Identity(i - 90.0);
    NormalizeAngle180Identity(i);
  }
}
