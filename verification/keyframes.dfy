/** Keyframes of an animation curve and the proportional snap that spreads a
    vertical correction of the curve's last keyframe over the keyframes
    before it. */
module Keyframes {
  import opened Falloff

  /** A (time, value) pair of the graph editor: `co[0]`, `co[1]` in Blender. */
  datatype Point = Point(time: real, value: real)

  /** A keyframe: its own point and its two Bezier handles. */
  datatype Keyframe = Keyframe(co: Point, handleLeft: Point, handleRight: Point)

  /** `transform_point` as a value: the keyframe lowered by `deltaY`. Every
      time coordinate stays where it was, and both handles keep their
      position relative to the key. */
  function Shifted(k: Keyframe, deltaY: real): (r: Keyframe)
    ensures r.co.time == k.co.time
    ensures r.handleLeft.time == k.handleLeft.time && r.handleRight.time == k.handleRight.time
    ensures r.co.value == k.co.value - deltaY
    ensures r.handleLeft.value - r.co.value == k.handleLeft.value - k.co.value
    ensures r.handleRight.value - r.co.value == k.handleRight.value - k.co.value
  {
    Keyframe(Point(k.co.time, k.co.value - deltaY),
             Point(k.handleLeft.time, k.handleLeft.value - deltaY),
             Point(k.handleRight.time, k.handleRight.value - deltaY))
  }

  /** Lowering by `-d` undoes lowering by `d`. */
  lemma ShiftedUndone(k: Keyframe, d: real)
    ensures Shifted(Shifted(k, d), -d) == k
  {
  }

  /** `transform_point`: lowers the value of keyframe `i` and of both its
      handles by `deltaY`, in place. */
  method TransformPoint(kf: array<Keyframe>, i: nat, deltaY: real)
    requires i < kf.Length
    modifies kf
    ensures kf[..] == old(kf[..])[i := Shifted(old(kf[i]), deltaY)]
  {
    var pt := kf[i];
    pt := pt.(co := pt.co.(value := pt.co.value - deltaY));
    pt := pt.(handleRight := pt.handleRight.(value := pt.handleRight.value - deltaY));
    pt := pt.(handleLeft := pt.handleLeft.(value := pt.handleLeft.value - deltaY));
    kf[i] := pt;
  }

  /** The vertical correction of a keyframe whose falloff weight is `w`,
      when the snapped end moved by `delta`: `delta * factor`. */
  function Correction(delta: real, w: real): real {
    delta * w
  }

  /** Index `i` lies strictly between the first and the last keyframe. */
  predicate IsInterior(i: int, n: int) {
    0 < i < n - 1
  }

  /** The snap size is usable for the keyframes `s` measured from time
      `base`: it is non-negative, and if it is 0 every interior keyframe lies
      before `base`, so that none of them reaches the division by the size. */
  predicate SizeFits(s: seq<Keyframe>, size: real, base: real) {
    0.0 <= size && (size == 0.0 ==> forall i :: 0 < i < |s| - 1 ==> s[i].co.time < base)
  }

  /** One random draw per keyframe, each a possible value of `random.random()`. */
  predicate ValidDraws(draws: seq<real>, n: int) {
    |draws| == n && forall i :: 0 <= i < n ==> IsDraw(draws[i])
  }

  /** The interior keyframe `i` is within the snap range of `base`. */
  predicate InRange(s: seq<Keyframe>, i: int, size: real, base: real)
    requires 0 <= i < |s|
  {
    base - s[i].co.time <= size
  }

  /** Keyframe `i` after the proportional snap: an interior keyframe within
      range is lowered by `delta` times its falloff weight; every other one
      keeps its place. */
  function SnappedAt(s: seq<Keyframe>, i: int, delta: real, size: real, base: real,
                     falloff: FalloffKind, draws: seq<real>): Keyframe
    requires 0 <= i < |s| && SizeFits(s, size, base) && ValidDraws(draws, |s|)
  {
    if IsInterior(i, |s|) && InRange(s, i, size, base)
    then Shifted(s[i], Correction(delta, Factor(base - s[i].co.time, size, falloff, draws[i])))
    else s[i]
  }

  /** The keyframes after `proportional_snap(s, delta, size, base)`. */
  function ProportionalSnapped(s: seq<Keyframe>, delta: real, size: real, base: real,
                               falloff: FalloffKind, draws: seq<real>): (r: seq<Keyframe>)
    requires SizeFits(s, size, base) && ValidDraws(draws, |s|)
    ensures |r| == |s|
  {
    seq(|s|, i requires 0 <= i < |s| => SnappedAt(s, i, delta, size, base, falloff, draws))
  }

  /** One pass of the loop of `proportional_snap` on the keyframes `r`: the
      keyframe at `index` is skipped when it lies further than `size` before
      `base`, and lowered by `delta` times its weight otherwise. */
  function SnapStep(r: seq<Keyframe>, index: int, delta: real, size: real, base: real,
                    falloff: FalloffKind, draws: seq<real>): (r': seq<Keyframe>)
    requires 0 <= index < |r| == |draws| && IsDraw(draws[index])
    requires FactorDefined(base - r[index].co.time, size)
    ensures |r'| == |r|
  {
    if InRange(r, index, size, base)
    then r[index := Shifted(r[index], Correction(delta, Factor(base - r[index].co.time, size, falloff, draws[index])))]
    else r
  }

  /** The keyframes `s` after the first `i` passes of the loop of
      `proportional_snap`, which visit indices |s| - 2 down to |s| - 1 - i;
      the keyframes not yet visited are as they were. */
  function Visited(s: seq<Keyframe>, i: int, delta: real, size: real, base: real,
                   falloff: FalloffKind, draws: seq<real>): (r: seq<Keyframe>)
    requires 0 <= i <= |s| - 2 && SizeFits(s, size, base) && ValidDraws(draws, |s|)
    ensures |r| == |s|
    ensures forall j :: 0 <= j < |s| - 1 - i ==> r[j] == s[j]
    decreases i
  {
    if i == 0 then s
    else
      var index := |s| - 1 - i;
      assert IsInterior(index, |s|);
      SnapStep(Visited(s, i - 1, delta, size, base, falloff, draws), index,
               delta, size, base, falloff, draws)
  }

  /** After `i` passes every visited keyframe is snapped and every other one
      is as it was. */
  lemma {:induction false} VisitedAt(s: seq<Keyframe>, i: int, j: int, delta: real, size: real,
                                     base: real, falloff: FalloffKind, draws: seq<real>)
    requires 0 <= i <= |s| - 2 && SizeFits(s, size, base) && ValidDraws(draws, |s|)
    requires 0 <= j < |s|
    ensures Visited(s, i, delta, size, base, falloff, draws)[j] ==
      if |s| - 1 - i <= j < |s| - 1 then SnappedAt(s, j, delta, size, base, falloff, draws) else s[j]
  {
    if i > 0 {
      VisitedAt(s, i - 1, j, delta, size, base, falloff, draws);
    }
  }

  /** Once every interior keyframe is visited, the loop has computed the
      proportional snap. */
  lemma VisitedAll(s: seq<Keyframe>, delta: real, size: real, base: real,
                   falloff: FalloffKind, draws: seq<real>)
    requires 2 <= |s| && SizeFits(s, size, base) && ValidDraws(draws, |s|)
    ensures Visited(s, |s| - 2, delta, size, base, falloff, draws)
         == ProportionalSnapped(s, delta, size, base, falloff, draws)
  {
    var r := Visited(s, |s| - 2, delta, size, base, falloff, draws);
    forall j | 0 <= j < |s|
      ensures r[j] == ProportionalSnapped(s, delta, size, base, falloff, draws)[j]
    {
      VisitedAt(s, |s| - 2, j, delta, size, base, falloff, draws);
    }
  }

  /** `proportional_snap`: walks the interior keyframes from the one before
      the last down to the second, skips those further than `size` before
      `base`, and lowers the others by `delta` times their falloff weight. */
  method ProportionalSnap(kf: array<Keyframe>, delta: real, size: real, base: real,
                          falloff: FalloffKind, draws: seq<real>)
    requires SizeFits(kf[..], size, base) && ValidDraws(draws, kf.Length)
    modifies kf
    ensures kf[..] == ProportionalSnapped(old(kf[..]), delta, size, base, falloff, draws)
  {
    ghost var s := kf[..];
    var n := kf.Length;
    var pointsToSnap := n - 2;
    if pointsToSnap < 1 {
      ProportionalSnappedShort(s, delta, size, base, falloff, draws);
      return;
    }
    for i := 0 to pointsToSnap
      invariant kf[..] == Visited(s, i, delta, size, base, falloff, draws)
    {
      var index := n - 2 - i;
      assert SnapStep(kf[..], index, delta, size, base, falloff, draws)
          == Visited(s, i + 1, delta, size, base, falloff, draws);
      var pt := kf[index];
      var dist := base - pt.co.time;
      if dist > size {
        continue;
      }
      var factor := Factor(dist, size, falloff, draws[index]);
      TransformPoint(kf, index, Correction(delta, factor));
    }
    VisitedAll(s, delta, size, base, falloff, draws);
  }

  /** `r` is `s` with every keyframe, key and handles, at its old time. */
  predicate SameTimes(r: seq<Keyframe>, s: seq<Keyframe>) {
    |r| == |s| &&
    forall i :: 0 <= i < |s| ==>
      r[i].co.time == s[i].co.time &&
      r[i].handleLeft.time == s[i].handleLeft.time &&
      r[i].handleRight.time == s[i].handleRight.time
  }

  /** The proportional snap leaves the first and the last keyframe alone,
      moves no keyframe or handle in time, leaves every keyframe out of range
      as it was, and lowers every interior one in range by exactly `delta`
      times its weight. */
  lemma ProportionalSnappedEffect(s: seq<Keyframe>, delta: real, size: real, base: real,
                                  falloff: FalloffKind, draws: seq<real>)
    requires SizeFits(s, size, base) && ValidDraws(draws, |s|)
    ensures var r := ProportionalSnapped(s, delta, size, base, falloff, draws);
      && (|s| > 0 ==> r[0] == s[0] && r[|s| - 1] == s[|s| - 1])
      && SameTimes(r, s)
      && (forall i :: 0 <= i < |s| && !InRange(s, i, size, base) ==> r[i] == s[i])
      && (forall i :: IsInterior(i, |s|) && InRange(s, i, size, base) ==>
            r[i] == Shifted(s[i], Correction(delta, Factor(base - s[i].co.time, size, falloff, draws[i]))))
  {
  }

  /** With fewer than three keyframes there is nothing between the ends, and
      the proportional snap changes nothing. */
  lemma ProportionalSnappedShort(s: seq<Keyframe>, delta: real, size: real, base: real,
                                 falloff: FalloffKind, draws: seq<real>)
    requires SizeFits(s, size, base) && ValidDraws(draws, |s|) && |s| < 3
    ensures ProportionalSnapped(s, delta, size, base, falloff, draws) == s
  {
    var r := ProportionalSnapped(s, delta, size, base, falloff, draws);
    assert forall i :: 0 <= i < |s| ==> r[i] == s[i];
  }
}
