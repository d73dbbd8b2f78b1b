/** The dial controller: its committed value, the slider handlers, the
    autoplay oscillator and the enter/exit notifications for the active
    set. */
module CircleDial {
  import opened Js
  import opened Angles
  import ActiveSet
  import SlicePaths

  /** The committed value: a slice count and the internal angle. */
  datatype DialValue = DialValue(slices: int, angle: real)

  /** The slice count the dial starts from before clamping. */
  const PreferredSlices := 12
  /** The gap, in degrees, the dial passes to the active-set selector. */
  const Gap := 2.0
  /** Degrees the autoplay moves per frame. */
  const AutoplayStep := 0.5

  function Min(a: int, b: int): int { if a < b then a else b }
  function Max(a: int, b: int): int { if a < b then b else a }

  // ---------------------------------------------------------------------
  // Initial state and the slider handlers

  /** The uncontrolled initial state. */
  function InitialValue(minSlices: int, maxSlices: int, initialAngle: real): (v: DialValue)
    ensures minSlices <= maxSlices ==> minSlices <= v.slices <= maxSlices
    ensures minSlices <= PreferredSlices <= maxSlices ==> v.slices == PreferredSlices
    ensures PreferredSlices < minSlices <= maxSlices ==> v.slices == minSlices
    ensures maxSlices < PreferredSlices ==> v.slices == maxSlices
    ensures maxSlices < minSlices ==> v.slices == maxSlices
    ensures 0.0 <= v.angle <= 180.0
  {
    DialValue(Min(Max(PreferredSlices, minSlices), maxSlices),
              ToInternalFromSigned(NormalizeSigned180(initialAngle)))
  }

  /** An initial angle in [-90, 90] is the signed angle the dial shows. */
  lemma InitialAngleShown(minSlices: int, maxSlices: int, initialAngle: real)
    requires -90.0 <= initialAngle <= 90.0
    ensures ToSignedFromInternal(InitialValue(minSlices, maxSlices, initialAngle).angle) == initialAngle
  {
    NormalizeSigned180Identity(initialAngle);
    SignedRoundTrip(initialAngle);
  }

  /** The slice slider: the rounded count clamped into [minSlices,
      maxSlices] (the lower bound winning if they cross), with the angle
      folded onto [0, 180]. */
  function SlicesChanged(state: DialValue, minSlices: int, maxSlices: int, n: real): (v: DialValue)
    ensures minSlices <= maxSlices ==> minSlices <= v.slices <= maxSlices
    ensures minSlices <= Round(n) <= maxSlices ==> v.slices == Round(n)
    ensures Round(n) < minSlices ==> v.slices == minSlices
    ensures minSlices <= maxSlices < Round(n) ==> v.slices == maxSlices
    ensures maxSlices < minSlices ==> v.slices == minSlices
    ensures 0.0 <= v.angle <= 180.0
  {
    DialValue(Max(minSlices, Min(maxSlices, Round(n))), NormalizeAngle180(state.angle))
  }

  /** With the default bounds [2, 72], requests outside the range
      saturate to the nearer bound, and a fractional request rounds. */
  lemma SlicesChangedExamples(state: DialValue)
    ensures SlicesChanged(state, 2, 72, 1000.0).slices == 72
    ensures SlicesChanged(state, 2, 72, -5.0).slices == 2
    ensures SlicesChanged(state, 2, 72, 12.5).slices == 13
  {
    assert Round(1000.0) == 1000;
    assert Round(-5.0) == -5;
    assert Round(12.5) == 13;
  }

  /** Changing the slice count keeps an angle already in [0, 180]. */
  lemma SlicesChangedKeepsAngle(state: DialValue, minSlices: int, maxSlices: int, n: real)
    requires 0.0 <= state.angle <= 180.0
    ensures SlicesChanged(state, minSlices, maxSlices, n).angle == state.angle
  {
    NormalizeAngle180Identity(state.angle);
  }

  /** The angle slider and the hotkeys: the slice count is kept and the
      signed angle converted to the internal one. */
  function AngleChanged(state: DialValue, signed: real): (v: DialValue)
    ensures v.slices == state.slices
    ensures 0.0 <= v.angle <= 180.0
  {
    DialValue(state.slices, ToInternalFromSigned(signed))
  }

  /** A signed angle in [-90, 90] is the one the dial then shows. */
  lemma AngleChangedShown(state: DialValue, signed: real)
    requires -90.0 <= signed <= 90.0
    ensures ToSignedFromInternal(AngleChanged(state, signed).angle) == signed
  {
    SignedRoundTrip(signed);
  }

  // ---------------------------------------------------------------------
  // Autoplay

  /** The position and direction of the oscillator. */
  datatype Motion = Motion(angle: real, direction: int)

  /** One frame of the oscillator: the angle moved by half a degree in the
      current direction (not at all under reduced motion), stopped and
      turned round at 180 and at 0. */
  function Oscillate(angle: real, direction: int, reduced: bool): (r: Motion)
    ensures 0.0 <= r.angle <= 180.0
    ensures r.direction == direction || r.direction == 1 || r.direction == -1
  {
    var next := angle + direction as real * AutoplayStep * (if reduced then 0.0 else 1.0);
    var m := if next >= 180.0 then Motion(180.0, -1) else Motion(next, direction);
    if m.angle <= 0.0 then Motion(0.0, 1) else m
  }

  /** Away from the ends the oscillator moves by exactly half a degree in
      its direction and keeps that direction; reaching an end forces the
      end and turns the direction round. */
  lemma OscillateLaws(angle: real, direction: int)
    requires direction == 1 || direction == -1
    ensures var next := angle + direction as real * 0.5;
      var r := Oscillate(angle, direction, false);
      (0.0 < next < 180.0 ==> r == Motion(next, direction)) &&
      (next >= 180.0 ==> r == Motion(180.0, -1)) &&
      (next <= 0.0 ==> r == Motion(0.0, 1))
  {
  }

  /** Under reduced motion an angle in [0, 180] does not move. */
  lemma ReducedMotionFixed(angle: real, direction: int)
    requires 0.0 <= angle <= 180.0
    ensures Oscillate(angle, direction, true).angle == angle
  {
  }

  /** The oscillator `k` frames after starting at 0 going up. */
  function Sweep(k: nat): Motion
  {
    if k == 0 then Motion(0.0, 1)
    else
      var p := Sweep(k - 1);
      Oscillate(p.angle, p.direction, false)
  }

  /** The sweep rises half a degree per frame and reaches 180 after 360
      frames, where it turns round. */
  lemma {:induction false} SweepRises(k: nat)
    requires k <= 360
    ensures Sweep(k).angle == k as real * 0.5
    ensures Sweep(k).direction == if k < 360 then 1 else -1
  {
    if k > 0 {
      SweepRises(k - 1);
      OscillateLaws((k - 1) as real * 0.5, 1);
    }
  }

  /** After the turn it falls half a degree per frame back to 0, reached
      720 frames after the start, where it turns round again. */
  lemma {:induction false} SweepFalls(k: nat)
    requires 360 <= k <= 720
    ensures Sweep(k).angle == 180.0 - (k - 360) as real * 0.5
    ensures Sweep(k).direction == if k < 720 then -1 else 1
  {
    if k == 360 {
      SweepRises(360);
    } else {
      SweepFalls(k - 1);
      OscillateLaws(180.0 - (k - 361) as real * 0.5, -1);
    }
  }

  /** The sweep repeats every 720 frames. */
  lemma SweepPeriod()
    ensures Sweep(720) == Sweep(0)
  {
    SweepFalls(720);
  }

  /** The autoplay effect: the direction, and whether a frame request is
      outstanding. */
  class Autoplay {
    var direction: int
    var framePending: bool

    ghost predicate Valid()
      reads this
    {
      direction == 1 || direction == -1
    }

    /** Starting the effect requests the first frame, going up. */
    constructor ()
      ensures Valid() && direction == 1 && framePending
    {
      direction := 1;
      framePending := true;
    }

    /** The frame callback: the value to commit, with the slice count
        kept, and the next frame requested. */
    method Step(cur: DialValue, reduced: bool) returns (next: DialValue)
      requires Valid() && framePending
      modifies this
      ensures Valid() && framePending
      ensures Motion(next.angle, direction) == Oscillate(cur.angle, old(direction), reduced)
      ensures next.slices == cur.slices
    {
      var nextAngle := cur.angle + direction as real * AutoplayStep * (if reduced then 0.0 else 1.0);
      var a := nextAngle;
      if a >= 180.0 {
        a := 180.0;
        direction := -1;
      }
      if a <= 0.0 {
        a := 0.0;
        direction := 1;
      }
      next := cur.(angle := a);
      framePending := true;
    }

    /** The effect cleanup cancels the outstanding frame, so no further
        frame callback runs and nothing more is committed. */
    method Stop()
      modifies this
      ensures !framePending && direction == old(direction)
    {
      framePending := false;
    }
  }

  // ---------------------------------------------------------------------
  // Entering and leaving slices

  /** The elements of `s` not in `other`, in the order of `s`. */
  function Without(s: seq<int>, other: seq<int>): (r: seq<int>)
    ensures |r| <= |s|
    decreases |s|
  {
    if s == [] then []
    else (if s[0] in other then [] else [s[0]]) + Without(s[1..], other)
  }

  /** Filtering keeps exactly the elements of `s` outside `other`. */
  lemma {:induction false} WithoutElements(s: seq<int>, other: seq<int>)
    ensures forall x :: x in Without(s, other) <==> x in s && x !in other
    decreases |s|
  {
    if s != [] {
      WithoutElements(s[1..], other);
      assert forall x :: x in s <==> x == s[0] || x in s[1..];
    }
  }

  /** Filtering an increasing sequence leaves it increasing. */
  lemma {:induction false} WithoutIncreasing(s: seq<int>, other: seq<int>)
    requires ActiveSet.Increasing(s)
    ensures ActiveSet.Increasing(Without(s, other))
    ensures forall x :: x in Without(s, other) ==> x in s
    decreases |s|
  {
    if s != [] {
      WithoutIncreasing(s[1..], other);
      WithoutElements(s[1..], other);
      var rest := Without(s[1..], other);
      forall k | 0 <= k < |rest| ensures s[0] < rest[k] {
        assert rest[k] in rest;
      }
    }
  }

  /** The slices active now but not before, in the new set's order. */
  function Entered(newActive: seq<int>, prev: seq<int>): (r: seq<int>)
    ensures forall x :: x in r <==> x in newActive && x !in prev
  {
    WithoutElements(newActive, prev);
    Without(newActive, prev)
  }

  /** The slices active before but not now, in the previous set's order. */
  function Exited(newActive: seq<int>, prev: seq<int>): (r: seq<int>)
    ensures forall x :: x in r <==> x in prev && x !in newActive
  {
    WithoutElements(prev, newActive);
    Without(prev, newActive)
  }

  /** Entered and exited are disjoint, entered is new minus previous,
      exited is previous minus new, and entered together with the slices
      kept makes up the new set. */
  lemma DiffLaws(newActive: seq<int>, prev: seq<int>)
    ensures ActiveSet.Elements(Entered(newActive, prev)) ==
            ActiveSet.Elements(newActive) - ActiveSet.Elements(prev)
    ensures ActiveSet.Elements(Exited(newActive, prev)) ==
            ActiveSet.Elements(prev) - ActiveSet.Elements(newActive)
    ensures ActiveSet.Elements(Entered(newActive, prev)) * ActiveSet.Elements(Exited(newActive, prev)) == {}
    ensures ActiveSet.Elements(Entered(newActive, prev)) +
            (ActiveSet.Elements(prev) * ActiveSet.Elements(newActive)) == ActiveSet.Elements(newActive)
  {
    WithoutElements(newActive, prev);
    WithoutElements(prev, newActive);
    var entered, exited := Entered(newActive, prev), Exited(newActive, prev);
    forall x ensures x in ActiveSet.Elements(entered) <==> x in newActive && x !in prev {
      assert x in ActiveSet.Elements(entered) <==> x in entered;
    }
    forall x ensures x in ActiveSet.Elements(exited) <==> x in prev && x !in newActive {
      assert x in ActiveSet.Elements(exited) <==> x in exited;
    }
  }

  /** A callback invocation. */
  datatype Notice = Activate(index: int) | Deactivate(index: int)

  function Activations(s: seq<int>): (r: seq<Notice>)
    ensures |r| == |s| && forall k :: 0 <= k < |s| ==> r[k] == Activate(s[k])
  {
    if s == [] then [] else [Activate(s[0])] + Activations(s[1..])
  }

  function Deactivations(s: seq<int>): (r: seq<Notice>)
    ensures |r| == |s| && forall k :: 0 <= k < |s| ==> r[k] == Deactivate(s[k])
  {
    if s == [] then [] else [Deactivate(s[0])] + Deactivations(s[1..])
  }

  /** The callbacks fired for a change of active set, given which of the
      two callbacks the dial was given. */
  function Notices(newActive: seq<int>, prev: seq<int>, hasActivate: bool, hasDeactivate: bool): (r: seq<Notice>)
    ensures forall k :: 0 <= k < |r| && r[k].Activate? ==>
      hasActivate && r[k].index in newActive && r[k].index !in prev
    ensures forall k :: 0 <= k < |r| && r[k].Deactivate? ==>
      hasDeactivate && r[k].index in prev && r[k].index !in newActive
  {
    var entered, exited := Entered(newActive, prev), Exited(newActive, prev);
    (if |entered| > 0 && hasActivate then Activations(entered) else []) +
    (if |exited| > 0 && hasDeactivate then Deactivations(exited) else [])
  }

  /** Every activation comes before every deactivation; with both
      callbacks present the activations are the entered slices and the
      deactivations the exited ones, each in iteration order. */
  lemma NoticesOrdered(newActive: seq<int>, prev: seq<int>, hasActivate: bool, hasDeactivate: bool)
    ensures var ns := Notices(newActive, prev, hasActivate, hasDeactivate);
      forall p, q :: 0 <= p < q < |ns| && ns[q].Activate? ==> ns[p].Activate?
    ensures var ns := Notices(newActive, prev, true, true);
      var m := |Entered(newActive, prev)|;
      |ns| == m + |Exited(newActive, prev)| &&
      (forall k :: 0 <= k < m ==> ns[k] == Activate(Entered(newActive, prev)[k])) &&
      (forall k :: m <= k < |ns| ==> ns[k] == Deactivate(Exited(newActive, prev)[k - m]))
  {
  }

  /** The text of the live region: the first active slice, counted from
      one, out of the slice count; empty when nothing is active. */
  datatype Announcement = ActiveSlice(ordinal: int, total: int) | Silent

  function Announce(newActive: seq<int>, slices: int): (a: Announcement)
    ensures a.ActiveSlice? <==> newActive != []
    ensures a.ActiveSlice? ==> a.ordinal - 1 in newActive && a.total == slices
  {
    if newActive == [] then Silent else ActiveSlice(newActive[0] + 1, slices)
  }

  /** The announced slice is the lowest active one, and lies in [1, slices]. */
  lemma AnnouncesLowest(state: DialValue, deltaTheta: real)
    requires state.slices >= 1
    ensures var active := ActiveSet.Selection(state.slices, deltaTheta, Gap, state.angle);
      var a := Announce(active, state.slices);
      a.ActiveSlice? && 1 <= a.ordinal <= state.slices && a.total == state.slices &&
      (forall i :: i in ActiveSet.Selected(state.slices, deltaTheta, Gap, state.angle) ==> a.ordinal - 1 <= i)
  {
    var active := ActiveSet.Selection(state.slices, deltaTheta, Gap, state.angle);
    ActiveSet.SelectionIsSelected(state.slices, deltaTheta, Gap, state.angle);
    assert active[0] in ActiveSet.Elements(active);
    forall i | i in ActiveSet.Selected(state.slices, deltaTheta, Gap, state.angle)
      ensures active[0] <= i
    {
      assert i in ActiveSet.Elements(active);
      var k :| 0 <= k < |active| && active[k] == i;
      if k > 0 {
        assert active[0] < active[k];
      }
    }
  }

  /** The step the selector measures against for a slice count, as the
      slice partitioner computes it; with no slices the selector's loop
      never runs, so the step is not used. */
  function StepFor(slices: int): (step: real)
    ensures slices > 0 ==> step > 0.0 && step * slices as real == 180.0
    ensures slices < 0 ==> step * slices as real == 180.0
  {
    var w := SlicePaths.SliceWidth(slices);
    if w.Finite? then w.value else 0.0
  }

  /** activeSetRef, with the effect that recomputes it. */
  class ActiveTracker {
    var current: seq<int>

    constructor (initial: seq<int>)
      ensures current == initial
    {
      current := initial;
    }

    /** The effect run on every change of angle or slice count: the new
        active set replaces the previous one, the enter callbacks then the
        exit callbacks fire, and the first active slice is announced. */
    method Sync(state: DialValue, hasActivate: bool, hasDeactivate: bool)
      returns (fired: seq<Notice>, announcement: Announcement)
      modifies this
      ensures current == ActiveSet.Selection(state.slices, StepFor(state.slices), Gap, state.angle)
      ensures fired == Notices(current, old(current), hasActivate, hasDeactivate)
      ensures announcement == Announce(current, state.slices)
      ensures announcement.ActiveSlice?
    {
      var newActive := ActiveSet.Compute(state.slices, StepFor(state.slices), Gap, state.angle);
      var prev := current;
      var entered := Entered(newActive, prev);
      var exited := Exited(newActive, prev);
      fired := [];
      if |entered| > 0 && hasActivate {
        fired := Activations(entered);
      }
      if |exited| > 0 && hasDeactivate {
        fired := fired + Deactivations(exited);
      } else {
        assert fired + [] == fired;
      }
      current := newActive;
      announcement := Announce(current, state.slices);
    }
  }
}
