/** The slice partitioner: N slices of equal width covering the longitudes
    [-90, 90], each with the centre, in the internal [0, 180) angle space,
    that the active-set selector measures against. */
module SlicePaths {
  import opened Js
  import ActiveSet

  /** The SVG path string of a slice, kept uninterpreted: it is recorded
      as the arguments the band path was drawn from. */
  datatype BandPath = MeridianBand(cx: real, cy: real, r: real,
                                   lambdaStart: real, lambdaEnd: real, samples: int)

  datatype ComputedSlice = ComputedSlice(d: BandPath, centerAngle: real,
                                         lambdaStart: real, lambdaEnd: real)

  /** Longitude `x` lies in the half-open band of `s`. */
  predicate InSlice(s: ComputedSlice, x: real)
  {
    s.lambdaStart <= x < s.lambdaEnd
  }

  /** Sample count of every band path. */
  const Samples := 72

  /** `180 / slices` as JavaScript computes it: the width of one slice, in
      longitude and in internal angle alike; dividing by zero gives
      Infinity. */
  function SliceWidth(slices: int): (w: Extended)
    ensures slices != 0 <==> w.Finite?
    ensures slices > 0 ==> w.Finite? && w.value > 0.0 && w.value * slices as real == 180.0
  {
    if slices == 0 then PosInfinity else Finite(180.0 / slices as real)
  }

  /** The record built for slice `i` of `slices`. */
  function SliceAt(slices: int, r: real, cx: real, cy: real, i: int): (s: ComputedSlice)
    requires slices > 0
    ensures s.lambdaEnd - s.lambdaStart == SliceWidth(slices).value
    ensures s.centerAngle == (s.lambdaStart + s.lambdaEnd) / 2.0 + 90.0
    ensures s.d == MeridianBand(cx, cy, r, s.lambdaStart, s.lambdaEnd, Samples)
  {
    var w := 180.0 / slices as real;
    var start := -90.0 + i as real * w;
    var end := start + w;
    ComputedSlice(MeridianBand(cx, cy, r, start, end, Samples), i as real * w + w / 2.0, start, end)
  }

  /** The memoised list construction: one record per slice in index order,
      together with the angular step. */
  method BuildSlices(slices: int, r: real, cx: real, cy: real)
    returns (paths: seq<ComputedSlice>, deltaTheta: Extended)
    ensures deltaTheta == SliceWidth(slices)
    ensures |paths| == if slices > 0 then slices else 0
    ensures forall i :: 0 <= i < |paths| ==> paths[i] == SliceAt(slices, r, cx, cy, i)
    ensures forall i, j :: 0 <= i < j < |paths| ==> paths[i].lambdaStart < paths[j].lambdaStart
  {
    deltaTheta := SliceWidth(slices);
    var deltaLambda := SliceWidth(slices);
    paths := [];
    var i := 0;
    while i < slices
      invariant 0 <= i <= if slices > 0 then slices else 0
      invariant |paths| == i
      invariant forall k :: 0 <= k < i ==> paths[k] == SliceAt(slices, r, cx, cy, k)
    {
      var lambdaStart := -90.0 + i as real * deltaLambda.value;
      var lambdaEnd := lambdaStart + deltaLambda.value;
      var thetaCenter := i as real * deltaTheta.value + deltaTheta.value / 2.0;
      var d := MeridianBand(cx, cy, r, lambdaStart, lambdaEnd, Samples);
      paths := paths + [ComputedSlice(d, thetaCenter, lambdaStart, lambdaEnd)];
      i := i + 1;
    }
    forall i, j | 0 <= i < j < |paths|
      ensures paths[i].lambdaStart < paths[j].lambdaStart
    {
      SliceOrder(slices, r, cx, cy, i, j);
    }
  }

  // ---------------------------------------------------------------------
  // Laws of the partition

  /** Later slices start further east. */
  lemma SliceOrder(slices: int, r: real, cx: real, cy: real, i: int, j: int)
    requires slices > 0 && i < j
    ensures SliceAt(slices, r, cx, cy, i).lambdaStart < SliceAt(slices, r, cx, cy, j).lambdaStart
  {
    var w := 180.0 / slices as real;
    assert w > 0.0;
    assert j as real * w - i as real * w == (j - i) as real * w;
  }

  /** The first slice starts at -90 and the last ends at 90. */
  lemma PartitionEnds(slices: int, r: real, cx: real, cy: real)
    requires slices > 0
    ensures SliceAt(slices, r, cx, cy, 0).lambdaStart == -90.0
    ensures SliceAt(slices, r, cx, cy, slices - 1).lambdaEnd == 90.0
  {
    var w := 180.0 / slices as real;
    assert (slices - 1) as real * w + w == slices as real * w;
  }

  /** Each slice ends where the next begins, and every slice is 180/N wide. */
  lemma Contiguous(slices: int, r: real, cx: real, cy: real, i: int)
    requires slices > 0
    ensures SliceAt(slices, r, cx, cy, i).lambdaEnd == SliceAt(slices, r, cx, cy, i + 1).lambdaStart
    ensures SliceAt(slices, r, cx, cy, i).lambdaEnd - SliceAt(slices, r, cx, cy, i).lambdaStart
            == SliceWidth(slices).value
  {
    var w := 180.0 / slices as real;
    assert i as real * w + w == (i + 1) as real * w;
  }

  /** The centre of each slice lies strictly inside (0, 180), is the
      longitude midpoint shifted by 90, and is the centre the active-set
      selector measures against for the same step. */
  lemma CenterOfSlice(slices: int, r: real, cx: real, cy: real, i: int)
    requires 0 <= i < slices
    ensures var s := SliceAt(slices, r, cx, cy, i);
      0.0 < s.centerAngle < 180.0 &&
      s.centerAngle == (s.lambdaStart + s.lambdaEnd) / 2.0 + 90.0 &&
      s.centerAngle == ActiveSet.Center(i, SliceWidth(slices).value)
  {
    var w := 180.0 / slices as real;
    assert w > 0.0;
    assert i as real * w <= (slices - 1) as real * w;
    assert (slices - 1) as real * w + w == 180.0;
  }

  /** The first `n` slices cover [-90, -90 + n * 180/N). */
  lemma {:induction false} CoversUpTo(slices: int, r: real, cx: real, cy: real, n: int, x: real)
    requires 0 < slices && 0 <= n <= slices
    requires -90.0 <= x < -90.0 + n as real * (180.0 / slices as real)
    ensures exists i :: 0 <= i < n && InSlice(SliceAt(slices, r, cx, cy, i), x)
    decreases n
  {
    var w := 180.0 / slices as real;
    if n == 0 {
      assert false;
    } else if x < -90.0 + (n - 1) as real * w {
      CoversUpTo(slices, r, cx, cy, n - 1, x);
    } else {
      assert n as real * w == (n - 1) as real * w + w;
      assert InSlice(SliceAt(slices, r, cx, cy, n - 1), x);
    }
  }

  /** The slices cover [-90, 90): every longitude there lies in exactly
      one slice. */
  lemma Covers(slices: int, r: real, cx: real, cy: real, x: real)
    requires slices > 0 && -90.0 <= x < 90.0
    ensures exists i :: 0 <= i < slices && InSlice(SliceAt(slices, r, cx, cy, i), x)
    ensures forall i, j ::
      (0 <= i < slices && InSlice(SliceAt(slices, r, cx, cy, i), x) &&
       0 <= j < slices && InSlice(SliceAt(slices, r, cx, cy, j), x)) ==> i == j
  {
    assert slices as real * (180.0 / slices as real) == 180.0;
    CoversUpTo(slices, r, cx, cy, slices, x);
    forall i, j |
      0 <= i < slices && InSlice(SliceAt(slices, r, cx, cy, i), x) &&
      0 <= j < slices && InSlice(SliceAt(slices, r, cx, cy, j), x)
      ensures i == j
    {
      if i < j {
        Contiguous(slices, r, cx, cy, i);
        if i + 1 < j { SliceOrder(slices, r, cx, cy, i + 1, j); }
      } else if j < i {
        Contiguous(slices, r, cx, cy, j);
        if j + 1 < i { SliceOrder(slices, r, cx, cy, j + 1, i); }
      }
    }
  }
}
