/** The active-set selector: which slices the stick lights up.  The stick
    is a diameter, so a slice is lit when its centre is close enough to the
    stick's angle or to the antipode of that angle; if no slice is close
    enough, the slice nearest to the stick itself is lit instead, so the
    set is never empty. */
module ActiveSet {
  import opened Js
  import opened Angles

  // ---------------------------------------------------------------------
  // Scanning [0, n), independently of what is measured

  /** The indices below `n` that satisfy `keep`, in increasing order. */
  function IndicesWhere(keep: int -> bool, n: nat): seq<int>
    decreases n
  {
    if n == 0 then []
    else IndicesWhere(keep, n - 1) + (if keep(n - 1) then [n - 1] else [])
  }

  /** Strictly increasing, hence free of duplicates. */
  predicate Increasing(s: seq<int>)
  {
    forall p, q :: 0 <= p < q < |s| ==> s[p] < s[q]
  }

  function Elements(s: seq<int>): set<int>
  {
    set x | x in s
  }

  lemma {:induction false} IndicesWhereExactly(keep: int -> bool, n: nat)
    ensures Increasing(IndicesWhere(keep, n))
    ensures forall k :: 0 <= k < |IndicesWhere(keep, n)| ==> IndicesWhere(keep, n)[k] < n
    ensures forall x :: x in IndicesWhere(keep, n) <==> 0 <= x < n && keep(x)
    decreases n
  {
    if n > 0 {
      IndicesWhereExactly(keep, n - 1);
      var c, s := IndicesWhere(keep, n - 1), IndicesWhere(keep, n);
      forall p, q | 0 <= p < q < |s| ensures s[p] < s[q] {
        if q >= |c| {
          assert s[p] == c[p] && s[q] == n - 1;
        }
      }
    }
  }

  /** The index a running minimum of `dist` over [0, n) ends on: a later
      index replaces the current best only when strictly smaller. */
  function FirstMinimum(dist: int -> real, n: int): (k: int)
    requires n >= 1
    ensures 0 <= k < n
    decreases n
  {
    if n == 1 then 0
    else
      var k := FirstMinimum(dist, n - 1);
      if dist(n - 1) < dist(k) then n - 1 else k
  }

  /** The running minimum is the earliest minimiser: nothing below `n` is
      smaller, and everything before it is strictly larger. */
  lemma {:induction false} FirstMinimumIsEarliest(dist: int -> real, n: int, j: int)
    requires 0 <= j < n
    ensures dist(FirstMinimum(dist, n)) <= dist(j)
    ensures j < FirstMinimum(dist, n) ==> dist(FirstMinimum(dist, n)) < dist(j)
    decreases n
  {
    if n > 1 && j < n - 1 {
      FirstMinimumIsEarliest(dist, n - 1, j);
    }
  }

  /** The indices below `n` that satisfy `keep`, as a set. */
  function Upto(keep: int -> bool, n: int): set<int>
  {
    set x | 0 <= x < n && keep(x)
  }

  /** What the scan over [0, n) returns: the indices satisfying `keep` in
      increasing order or, if there are none, the running minimum of `dist`
      alone (index 0 when the range is empty). */
  function Chosen(keep: int -> bool, dist: int -> real, n: int): seq<int>
  {
    var lit := IndicesWhere(keep, if n > 0 then n else 0);
    if lit == [] then [if n >= 1 then FirstMinimum(dist, n) else 0] else lit
  }

  /** The scan's result is increasing, holds exactly the indices satisfying
      `keep` when there are any, and is the fallback alone when there are
      none. */
  lemma ChosenExactly(keep: int -> bool, dist: int -> real, n: int)
    ensures Increasing(Chosen(keep, dist, n))
    ensures Upto(keep, n) != {} ==> Elements(Chosen(keep, dist, n)) == Upto(keep, n)
    ensures Upto(keep, n) == {} ==>
      Chosen(keep, dist, n) == [if n >= 1 then FirstMinimum(dist, n) else 0]
  {
    var m := if n > 0 then n else 0;
    var lit := IndicesWhere(keep, m);
    IndicesWhereExactly(keep, m);
    assert Elements(lit) == Upto(keep, n);
    if lit != [] {
      assert lit[0] in Upto(keep, n);
    }
  }

  /** The scan never returns an empty result, and with a non-empty range
      every index it returns lies in the range. */
  lemma ChosenInRange(keep: int -> bool, dist: int -> real, n: int)
    ensures |Chosen(keep, dist, n)| >= 1
    ensures n >= 1 ==> forall k :: 0 <= k < |Chosen(keep, dist, n)| ==> 0 <= Chosen(keep, dist, n)[k] < n
  {
    var lit := IndicesWhere(keep, if n > 0 then n else 0);
    IndicesWhereExactly(keep, if n > 0 then n else 0);
    forall k | 0 <= k < |lit| ensures 0 <= lit[k] {
      assert lit[k] in lit;
    }
  }

  // ---------------------------------------------------------------------
  // The selection

  /** Centre of slice `i` in the internal [0, 180) angle space. */
  function Center(i: int, deltaTheta: real): real
  {
    i as real * deltaTheta + deltaTheta / 2.0
  }

  /** Slice `i` is lit when the nearer of the stick (at `norm`) and its
      antipode lies within half a slice, shrunk by the gap, of the slice's
      centre, distances being measured by `distance`. */
  predicate Lit(distance: (real, real) -> real, norm: real, i: int, deltaTheta: real, gap: real)
    ensures Lit(distance, norm, i, deltaTheta, gap) <==>
      distance(norm, Center(i, deltaTheta)) <= deltaTheta / 2.0 - gap ||
      distance(norm + 180.0, Center(i, deltaTheta)) <= deltaTheta / 2.0 - gap
  {
    var c := Center(i, deltaTheta);
    var d1, d2 := distance(norm, c), distance(norm + 180.0, c);
    (if d1 < d2 then d1 else d2) <= deltaTheta / 2.0 - gap
  }

  function LitAt(distance: (real, real) -> real, norm: real, deltaTheta: real, gap: real): int -> bool
  {
    i => Lit(distance, norm, i, deltaTheta, gap)
  }

  /** Distance from the stick to the centre of each slice. */
  function DistanceTo(distance: (real, real) -> real, norm: real, deltaTheta: real): int -> real
  {
    i => distance(norm, Center(i, deltaTheta))
  }

  /** The slice indices that qualify on their own, as a set. */
  function Qualifying(slices: int, deltaTheta: real, gap: real, angleDeg: real): set<int>
  {
    Upto(LitAt(AngularDistance, NormalizeAngle180(angleDeg), deltaTheta, gap), slices)
  }

  /** The index the selector falls back on: the earliest slice nearest to
      the stick, or 0 when there are no slices. */
  function Fallback(slices: int, deltaTheta: real, angleDeg: real): int
  {
    if slices >= 1
    then FirstMinimum(DistanceTo(AngularDistance, NormalizeAngle180(angleDeg), deltaTheta), slices)
    else 0
  }

  /** The active set: the qualifying slices, or else the fallback alone. */
  function Selected(slices: int, deltaTheta: real, gap: real, angleDeg: real): (s: set<int>)
    ensures s != {}
    ensures slices >= 1 ==> forall i :: i in s ==> 0 <= i < slices
  {
    var q := Qualifying(slices, deltaTheta, gap, angleDeg);
    if q != {} then q else {Fallback(slices, deltaTheta, angleDeg)}
  }

  /** The active set in insertion order (the order a JavaScript Set
      iterates in): the lit slices, or the fallback alone if none is lit. */
  function Selection(slices: int, deltaTheta: real, gap: real, angleDeg: real): (s: seq<int>)
    ensures |s| >= 1
    ensures slices >= 1 ==> forall k :: 0 <= k < |s| ==> 0 <= s[k] < slices
  {
    var norm := NormalizeAngle180(angleDeg);
    ChosenInRange(LitAt(AngularDistance, norm, deltaTheta, gap),
                  DistanceTo(AngularDistance, norm, deltaTheta), slices);
    Chosen(LitAt(AngularDistance, norm, deltaTheta, gap),
           DistanceTo(AngularDistance, norm, deltaTheta), slices)
  }

  /** The loop of the `compute` closure over the slices, for a stick
      already folded to `norm`, with the angular distance passed in. */
  method Scan(slices: int, deltaTheta: real, gap: real, norm: real, distance: (real, real) -> real)
    returns (active: seq<int>)
    ensures active == Chosen(LitAt(distance, norm, deltaTheta, gap),
                             DistanceTo(distance, norm, deltaTheta), slices)
  {
    ghost var lit, dist := LitAt(distance, norm, deltaTheta, gap), DistanceTo(distance, norm, deltaTheta);
    active := [];
    var bestIndex := 0;
    var bestDist := PosInfinity;  // Number.POSITIVE_INFINITY
    var i := 0;
    while i < slices
      invariant 0 <= i <= if slices > 0 then slices else 0
      invariant active == IndicesWhere(lit, i)
      invariant i == 0 ==> bestIndex == 0 && bestDist == PosInfinity
      invariant i > 0 ==> bestIndex == FirstMinimum(dist, i) && bestDist == Finite(dist(bestIndex))
    {
      var c := Center(i, deltaTheta);
      var dist1 := distance(norm, c);
      var dist2 := distance(norm + 180.0, c);
      var minDist := if dist1 < dist2 then dist1 else dist2;
      if minDist <= deltaTheta / 2.0 - gap {
        active := active + [i];
      }
      if Below(dist1, bestDist) {
        bestDist := Finite(dist1);
        bestIndex := i;
      }
      i := i + 1;
    }
    if |active| == 0 {
      active := active + [bestIndex];
    }
  }

  /** The `compute` closure, returning the set as the sequence of its
      elements in insertion order. */
  method Compute(slices: int, deltaTheta: real, gap: real, angleDeg: real)
    returns (active: seq<int>)
    ensures active == Selection(slices, deltaTheta, gap, angleDeg)
    ensures Increasing(active)
    ensures Elements(active) == Selected(slices, deltaTheta, gap, angleDeg)
    ensures Qualifying(slices, deltaTheta, gap, angleDeg) == {} ==>
      active == [Fallback(slices, deltaTheta, angleDeg)]
  {
    var norm := NormalizeAngle180(angleDeg);
    active := Scan(slices, deltaTheta, gap, norm, AngularDistance);
    SelectionIsSelected(slices, deltaTheta, gap, angleDeg);
  }

  // ---------------------------------------------------------------------
  // Laws of the selection

  /** The ordered selection and the set-builder definition agree, the
      selection is in increasing order, and it is the fallback singleton
      when no slice qualifies. */
  lemma SelectionIsSelected(slices: int, deltaTheta: real, gap: real, angleDeg: real)
    ensures Increasing(Selection(slices, deltaTheta, gap, angleDeg))
    ensures Elements(Selection(slices, deltaTheta, gap, angleDeg)) ==
            Selected(slices, deltaTheta, gap, angleDeg)
    ensures Qualifying(slices, deltaTheta, gap, angleDeg) == {} ==>
            Selection(slices, deltaTheta, gap, angleDeg) == [Fallback(slices, deltaTheta, angleDeg)]
  {
    var norm := NormalizeAngle180(angleDeg);
    ChosenExactly(LitAt(AngularDistance, norm, deltaTheta, gap),
                  DistanceTo(AngularDistance, norm, deltaTheta), slices);
  }

  /** The fallback is the earliest slice nearest to the stick: nothing is
      nearer, and every earlier slice is strictly farther. */
  lemma FallbackIsEarliestNearest(slices: int, deltaTheta: real, angleDeg: real, j: int)
    requires 0 <= j < slices
    ensures var f, norm := Fallback(slices, deltaTheta, angleDeg), NormalizeAngle180(angleDeg);
      0 <= f < slices &&
      AngularDistance(norm, Center(f, deltaTheta)) <= AngularDistance(norm, Center(j, deltaTheta)) &&
      (j < f ==> AngularDistance(norm, Center(f, deltaTheta)) < AngularDistance(norm, Center(j, deltaTheta)))
  {
    FirstMinimumIsEarliest(DistanceTo(AngularDistance, NormalizeAngle180(angleDeg), deltaTheta), slices, j);
  }

  /** When some slice qualifies, the active set is exactly the slices
      within half a slice minus the gap of the stick or its antipode. */
  lemma SelectedWhenSomeQualify(slices: int, deltaTheta: real, gap: real, angleDeg: real, i: int)
    requires Qualifying(slices, deltaTheta, gap, angleDeg) != {}
    ensures i in Selected(slices, deltaTheta, gap, angleDeg) <==>
      0 <= i < slices && Lit(AngularDistance, NormalizeAngle180(angleDeg), i, deltaTheta, gap)
  {
  }

  /** A gap wider than half a slice lets no slice qualify, so only the
      fallback is lit. */
  lemma WideGapFallsBack(slices: int, deltaTheta: real, gap: real, angleDeg: real)
    requires gap > deltaTheta / 2.0
    ensures Selected(slices, deltaTheta, gap, angleDeg) == {Fallback(slices, deltaTheta, angleDeg)}
  {
  }

  /** The selection sees the angle only through the fold onto [0, 180]. */
  lemma SelectedThroughFold(slices: int, deltaTheta: real, gap: real, a: real, b: real)
    requires NormalizeAngle180(a) == NormalizeAngle180(b)
    ensures Selected(slices, deltaTheta, gap, a) == Selected(slices, deltaTheta, gap, b)
  {
  }

  /** Angles a whole number of turns apart light the same slices. */
  lemma SelectedPeriodic(slices: int, deltaTheta: real, gap: real, a: real, k: int)
    ensures Selected(slices, deltaTheta, gap, a + 360.0 * (k as real)) ==
            Selected(slices, deltaTheta, gap, a)
  {
    NormalizeAngle180Periodic(a, k);
    SelectedThroughFold(slices, deltaTheta, gap, a + 360.0 * (k as real), a);
  }

  /** Mirror-image angles light the same slices. */
  lemma SelectedMirror(slices: int, deltaTheta: real, gap: real, a: real)
    ensures Selected(slices, deltaTheta, gap, -a) == Selected(slices, deltaTheta, gap, a)
  {
    NormalizeAngle180Negate(a);
    SelectedThroughFold(slices, deltaTheta, gap, -a, a);
  }

  /** With no slices the loop never runs and the fallback index 0 is the
      whole selection, whatever the step. */
  lemma NoSlicesSelectsZero(slices: int, deltaTheta: real, gap: real, angleDeg: real)
    requires slices <= 0
    ensures Selection(slices, deltaTheta, gap, angleDeg) == [0]
  {
  }

  /** A stick pointing at the centre of a slice lights that slice, as long
      as the gap leaves the slice some width. */
  lemma CentreLights(slices: int, deltaTheta: real, gap: real, i: int)
    requires 0 <= i < slices && 0.0 <= Center(i, deltaTheta) <= 180.0
    requires gap <= deltaTheta / 2.0
    ensures i in Selected(slices, deltaTheta, gap, Center(i, deltaTheta))
  {
    var c := Center(i, deltaTheta);
    NormalizeAngle180Identity(c);
    AngularDistanceSelf(c);
    assert LitAt(AngularDistance, NormalizeAngle180(c), deltaTheta, gap)(i);
    assert i in Qualifying(slices, deltaTheta, gap, c);
  }
}
