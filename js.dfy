/** The few JavaScript number and value semantics the dial relies on,
    stated over exact reals. */
module Js {

  /** Math.trunc: rounds toward zero. */
  function Trunc(x: real): (t: int)
    ensures 0.0 <= x ==> t as real <= x < t as real + 1.0
    ensures x < 0.0 ==> t as real - 1.0 < x <= t as real
  {
    if x >= 0.0 then x.Floor else -((-x).Floor)
  }

  /** The `%` operator on numbers: the remainder of a truncating division,
      which takes the sign of the dividend. */
  function Rem(a: real, m: real): (r: real)
    requires m != 0.0
    ensures m > 0.0 && 0.0 <= a ==> 0.0 <= r < m
    ensures m > 0.0 && a < 0.0 ==> -m < r <= 0.0
  {
    RemBounds(a, m);
    a - m * (Trunc(a / m) as real)
  }

  /** The truncated remainder by a positive modulus has the dividend's
      sign and is smaller than the modulus in magnitude. */
  lemma RemBounds(a: real, m: real)
    requires m != 0.0
    ensures var r := a - m * (Trunc(a / m) as real);
      (m > 0.0 && 0.0 <= a ==> 0.0 <= r < m) &&
      (m > 0.0 && a < 0.0 ==> -m < r <= 0.0)
  {
    if m > 0.0 {
      var q := a / m;
      var t := Trunc(q) as real;
      if 0.0 <= a {
        ScaleWithin(m, a, q, t);
      } else {
        ScaleWithin(m, m * t, t, q);
      }
    }
  }

  /** With `m * x == y` and `lo <= x < lo + 1`, scaling by a positive `m`
      puts `y - m * lo` in [0, m). */
  lemma ScaleWithin(m: real, y: real, x: real, lo: real)
    requires m > 0.0 && m * x == y && lo <= x < lo + 1.0
    ensures 0.0 <= y - m * lo < m
  {
    var p := m * lo;
    var d := x - lo;
    ScaleFraction(m, d);
    assert m * d == y - p;
  }

  /** A fraction in [0, 1) of a positive `m` lies in [0, m). */
  lemma ScaleFraction(m: real, d: real)
    requires m > 0.0 && 0.0 <= d < 1.0
    ensures 0.0 <= m * d < m
  {
    assert m * (1.0 - d) > 0.0;
  }

  /** Math.round: the nearest integer, halves rounding up. */
  function Round(x: real): (n: int)
    ensures n as real - 0.5 <= x < n as real + 0.5
  {
    (x + 0.5).Floor
  }

  /** A number that may be Number.POSITIVE_INFINITY. */
  datatype Extended = PosInfinity | Finite(value: real)

  /** `x < bound`, with every real below infinity. */
  predicate Below(x: real, bound: Extended)
  {
    bound.PosInfinity? || x < bound.value
  }

  /** A reference that may be null. */
  datatype Option<T> = None | Some(value: T)
}
