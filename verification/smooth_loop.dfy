/** The "Smooth animation loop" operator of the graph editor: it snaps the
    last keyframe of every selected curve to the value of the first, and
    spreads the same correction, weighted by the falloff, over the keyframes
    before the last. */
module SmoothLoop {
  import opened Falloff
  import opened Keyframes

  /** An F-curve: its keyframes, edited in place, and its selection flag. */
  class FCurve {
    const keyframePoints: array<Keyframe>
    var select: bool

    constructor (points: array<Keyframe>, selected: bool)
      ensures keyframePoints == points && select == selected
    {
      keyframePoints := points;
      select := selected;
    }
  }

  /** A keyframe at (`time`, `value`) with flat handles one unit to either
      side. */
  function Key(time: real, value: real): Keyframe {
    Keyframe(Point(time, value), Point(time - 1.0, value), Point(time + 1.0, value))
  }

  /** The ends of the curve `s` have different values, so there is something
      to snap. */
  predicate EndsDiffer(s: seq<Keyframe>) {
    |s| >= 2 && s[|s| - 1].co.value != s[0].co.value
  }

  /** The size is usable for a whole curve: it is non-negative, as the
      property's bound demands, and when the ends differ, so that the
      proportional snap runs, it fits the keyframes measured from the time of
      the last one, the base of that snap. */
  predicate CurveSizeFits(s: seq<Keyframe>, size: real) {
    0.0 <= size && (EndsDiffer(s) ==> SizeFits(s, size, s[|s| - 1].co.time))
  }

  /** The keyframes of a curve after `snap_extremes`: when its ends differ,
      the last keyframe is lowered by `delta = last - first` and the
      correction is spread over the keyframes before it, measured from the
      last keyframe's time; otherwise nothing moves. */
  function LoopSnapped(s: seq<Keyframe>, size: real, falloff: FalloffKind, draws: seq<real>): (r: seq<Keyframe>)
    requires CurveSizeFits(s, size) && ValidDraws(draws, |s|)
    ensures |r| == |s|
  {
    if !EndsDiffer(s) then s
    else
      var last := |s| - 1;
      var delta := s[last].co.value - s[0].co.value;
      var moved := s[last := Shifted(s[last], delta)];
      assert forall i :: 0 <= i < |s| ==> moved[i].co.time == s[i].co.time;
      ProportionalSnapped(moved, delta, size, moved[last].co.time, falloff, draws)
  }

  /** After the snap the loop closes: the last keyframe has the first one's
      value, and the first keyframe is untouched. */
  lemma LoopSnappedCloses(s: seq<Keyframe>, size: real, falloff: FalloffKind, draws: seq<real>)
    requires CurveSizeFits(s, size) && ValidDraws(draws, |s|) && |s| >= 2
    ensures var r := LoopSnapped(s, size, falloff, draws);
      r[|s| - 1].co.value == r[0].co.value && r[0] == s[0]
  {
    if EndsDiffer(s) {
      var last := |s| - 1;
      var delta := s[last].co.value - s[0].co.value;
      var moved := s[last := Shifted(s[last], delta)];
      ProportionalSnappedEffect(moved, delta, size, moved[last].co.time, falloff, draws);
    }
  }

  /** The snap moves nothing in time, neither keys nor handles. */
  lemma LoopSnappedKeepsTimes(s: seq<Keyframe>, size: real, falloff: FalloffKind, draws: seq<real>)
    requires CurveSizeFits(s, size) && ValidDraws(draws, |s|)
    ensures SameTimes(LoopSnapped(s, size, falloff, draws), s)
  {
    if EndsDiffer(s) {
      var last := |s| - 1;
      var delta := s[last].co.value - s[0].co.value;
      var moved := s[last := Shifted(s[last], delta)];
      ProportionalSnappedEffect(moved, delta, size, moved[last].co.time, falloff, draws);
    }
  }

  /** When the ends differ, the last keyframe is lowered by
      `delta = last - first` together with both its handles, and every
      interior keyframe is either out of range of the last keyframe's time
      and untouched, or lowered by `delta` times its weight. */
  lemma LoopSnappedMoves(s: seq<Keyframe>, size: real, falloff: FalloffKind, draws: seq<real>)
    requires CurveSizeFits(s, size) && ValidDraws(draws, |s|) && EndsDiffer(s)
    ensures var r := LoopSnapped(s, size, falloff, draws);
      var last := |s| - 1;
      var delta := s[last].co.value - s[0].co.value;
      var base := s[last].co.time;
      && r[last] == Shifted(s[last], delta)
      && (forall i :: IsInterior(i, |s|) && base - s[i].co.time > size ==> r[i] == s[i])
      && (forall i :: IsInterior(i, |s|) && base - s[i].co.time <= size ==>
            r[i] == Shifted(s[i], Correction(delta, Factor(base - s[i].co.time, size, falloff, draws[i]))))
  {
    var last := |s| - 1;
    var delta := s[last].co.value - s[0].co.value;
    var moved := s[last := Shifted(s[last], delta)];
    ProportionalSnappedEffect(moved, delta, size, moved[last].co.time, falloff, draws);
  }

  /** A curve whose ends already agree, or that has fewer than two
      keyframes, is left exactly as it was. */
  lemma LoopSnappedIdle(s: seq<Keyframe>, size: real, falloff: FalloffKind, draws: seq<real>)
    requires CurveSizeFits(s, size) && ValidDraws(draws, |s|) && !EndsDiffer(s)
    ensures LoopSnapped(s, size, falloff, draws) == s
  {
  }

  /** Snapping a snapped curve again changes nothing. */
  lemma LoopSnappedIdempotent(s: seq<Keyframe>, size: real, falloff: FalloffKind, draws: seq<real>)
    requires CurveSizeFits(s, size) && ValidDraws(draws, |s|)
    ensures var r := LoopSnapped(s, size, falloff, draws);
      CurveSizeFits(r, size) && LoopSnapped(r, size, falloff, draws) == r
  {
    var r := LoopSnapped(s, size, falloff, draws);
    LoopSnappedKeepsTimes(s, size, falloff, draws);
    if |s| >= 2 {
      LoopSnappedCloses(s, size, falloff, draws);
    }
    assert !EndsDiffer(r);
  }

  /** A worked case: four keyframes at times 0, 10, 20 and 25, the ends at
      values 0 and 10, snap size 25 and linear falloff. The keyframe 5
      before the end is lowered by 10 * (25 - 5) / 25 = 8, the one 15 before
      it by 10 * (25 - 15) / 25 = 4, and the end comes down to 0. */
  lemma LinearExample(draws: seq<real>)
    requires ValidDraws(draws, 4)
    ensures var s := [Key(0.0, 0.0), Key(10.0, 3.0), Key(20.0, 7.0), Key(25.0, 10.0)];
      LoopSnapped(s, 25.0, Lin, draws) == [Key(0.0, 0.0), Key(10.0, -1.0), Key(20.0, -1.0), Key(25.0, 0.0)]
  {
    var s := [Key(0.0, 0.0), Key(10.0, 3.0), Key(20.0, 7.0), Key(25.0, 10.0)];
    assert Closeness(5.0, 25.0) == 0.8;
    assert Closeness(15.0, 25.0) == 0.4;
    LoopSnappedMoves(s, 25.0, Lin, draws);
    LoopSnappedCloses(s, 25.0, Lin, draws);
  }

  /** `snap_extremes`: with fewer than two keyframes it does nothing and
      answers false. Otherwise it snaps the last keyframe onto the first
      one's value when they differ, spreading the correction
      proportionally, leaves the curve selected and answers true. */
  method SnapExtremes(curve: FCurve, size: real, falloff: FalloffKind, draws: seq<real>)
    returns (done: bool)
    requires CurveSizeFits(curve.keyframePoints[..], size)
    requires ValidDraws(draws, curve.keyframePoints.Length)
    modifies curve, curve.keyframePoints
    ensures done == (curve.keyframePoints.Length >= 2)
    ensures curve.keyframePoints[..] == LoopSnapped(old(curve.keyframePoints[..]), size, falloff, draws)
    ensures curve.select == (done || old(curve.select))
  {
    var kfPts := curve.keyframePoints;
    if kfPts.Length < 2 {
      return false;
    }
    ghost var s := kfPts[..];
    var n := kfPts.Length;
    var last := kfPts[n - 1];
    var first := kfPts[0];
    if last.co.value != first.co.value {
      var delta := last.co.value - first.co.value;
      TransformPoint(kfPts, n - 1, delta);
      assert kfPts[..] == s[n - 1 := Shifted(s[n - 1], delta)];
      ProportionalSnap(kfPts, delta, size, kfPts[n - 1].co.time, falloff, draws);
    }
    curve.select := false;
    curve.select := true;
    return true;
  }

  /** The curves own distinct keyframe arrays. */
  predicate DistinctKeyframes(curves: seq<FCurve>) {
    forall i, j :: 0 <= i < j < |curves| ==> curves[i].keyframePoints != curves[j].keyframePoints
  }

  /** `execute`: snaps every selected curve, in order, and leaves every other
      curve as it was. No selection flag changes. */
  method Execute(curves: seq<FCurve>, size: real, falloff: FalloffKind, draws: seq<seq<real>>)
    requires DistinctKeyframes(curves) && |draws| == |curves|
    requires forall c :: 0 <= c < |curves| && curves[c].select ==>
      CurveSizeFits(curves[c].keyframePoints[..], size) && ValidDraws(draws[c], curves[c].keyframePoints.Length)
    modifies set c | c in curves, set c | c in curves :: c.keyframePoints
    ensures forall c :: 0 <= c < |curves| ==> curves[c].select == old(curves[c].select)
    ensures forall c :: 0 <= c < |curves| ==>
      curves[c].keyframePoints[..] == if old(curves[c].select)
        then LoopSnapped(old(curves[c].keyframePoints[..]), size, falloff, draws[c])
        else old(curves[c].keyframePoints[..])
  {
    for i := 0 to |curves|
      invariant forall c :: 0 <= c < |curves| ==> curves[c].select == old(curves[c].select)
      invariant forall c :: 0 <= c < i ==>
        curves[c].keyframePoints[..] == if old(curves[c].select)
          then LoopSnapped(old(curves[c].keyframePoints[..]), size, falloff, draws[c])
          else old(curves[c].keyframePoints[..])
      invariant forall c :: i <= c < |curves| ==> curves[c].keyframePoints[..] == old(curves[c].keyframePoints[..])
    {
      var curve := curves[i];
      if !curve.select {
        continue;
      }
      var _ := SnapExtremes(curve, size, falloff, draws[i]);
    }
  }
}
