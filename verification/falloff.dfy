/** The proportional-editing falloff: how strongly a keyframe follows the
    snapped end of the loop, as a function of its distance from that end. */
module Falloff {

  /** The arms of the factor's dispatch on the falloff setting, one per
      literal the code compares against (SHARP, SMOOTH, LIN, CONST, RANDOM,
      INVSQUARE). `Unrecognised` is the default arm, taken by every setting
      that matches none of them. Which arm a host setting selects is
      `ArmAsWritten` below. */
  datatype FalloffKind = Sharp | Smooth | Lin | Const | Random | InvSquare | Unrecognised

  /** A value that may be missing. */
  datatype Option<T> = None | Some(value: T)

  /** The arms whose weight at the edge of the snap range is still 1. */
  predicate IsFlat(falloff: FalloffKind) {
    falloff == Const || falloff == Unrecognised
  }

  /** The sizes for which the factor is defined at `distance`: a non-negative
      size, and a positive one whenever the distance is within it (the
      division by the size is reached only then). */
  predicate FactorDefined(distance: real, size: real) {
    0.0 <= size && (distance <= size ==> 0.0 < size)
  }

  /** A value that `random.random()` may return. */
  predicate IsDraw(draw: real) {
    0.0 <= draw < 1.0
  }

  /** Closeness of a keyframe to the snapped end: `(size - distance) / size`,
      clamped below at 0. */
  function Closeness(distance: real, size: real): (t: real)
    requires 0.0 < size
    ensures 0.0 <= t
    ensures distance >= size ==> t == 0.0
    ensures 0.0 <= distance ==> t <= 1.0
    ensures distance == 0.0 <==> t == 1.0
  {
    var q := (size - distance) / size;
    assert 0.0 <= distance ==> q <= 1.0;
    if q >= 0.0 then q else 0.0
  }

  /** The product of two non-negative reals is non-negative. */
  lemma MulNonNegative(a: real, b: real)
    requires 0.0 <= a && 0.0 <= b
    ensures 0.0 <= a * b
  {
  }

  /** The closer keyframe is never less close. */
  lemma ClosenessNonIncreasing(d1: real, d2: real, size: real)
    requires 0.0 < size && d1 <= d2
    ensures Closeness(d1, size) >= Closeness(d2, size)
  {
    var q1, q2 := (size - d1) / size, (size - d2) / size;
    assert q1 - q2 == (d2 - d1) / size;
    assert (d2 - d1) / size >= 0.0;
  }

  /** The cubic of the SMOOTH arm. */
  function SmoothStep(t: real): real {
    3.0 * t * t - 2.0 * t * t * t
  }

  /** The quadratic of the INVSQUARE arm. */
  function InvSquareStep(t: real): real {
    t * (2.0 - t)
  }

  lemma SmoothStepInUnit(t: real)
    requires 0.0 <= t <= 1.0
    ensures 0.0 <= SmoothStep(t) <= 1.0
  {
    assert SmoothStep(t) == (t * t) * (3.0 - 2.0 * t);
    assert 1.0 - SmoothStep(t) == ((1.0 - t) * (1.0 - t)) * (1.0 + 2.0 * t);
    MulNonNegative(t, t);
    MulNonNegative(1.0 - t, 1.0 - t);
    MulNonNegative(t * t, 3.0 - 2.0 * t);
    MulNonNegative((1.0 - t) * (1.0 - t), 1.0 + 2.0 * t);
  }

  lemma InvSquareStepInUnit(t: real)
    requires 0.0 <= t <= 1.0
    ensures 0.0 <= InvSquareStep(t) <= 1.0
  {
    assert 1.0 - InvSquareStep(t) == (1.0 - t) * (1.0 - t);
    MulNonNegative(1.0 - t, 1.0 - t);
    MulNonNegative(t, 2.0 - t);
  }

  lemma SmoothStepMonotone(a: real, b: real)
    requires 0.0 <= a <= b <= 1.0
    ensures SmoothStep(a) <= SmoothStep(b)
  {
    var k := 3.0 * (a + b) - 2.0 * (a * a + a * b + b * b);
    assert SmoothStep(b) - SmoothStep(a) == (b - a) * k;
    MulNonNegative(a, 1.0 - a);
    MulNonNegative(b, 1.0 - b);
    MulNonNegative(a, 1.0 - b);
    assert a * a <= a && b * b <= b && a * b <= a;
    assert k >= 0.0;
    MulNonNegative(b - a, k);
  }

  lemma InvSquareStepMonotone(a: real, b: real)
    requires 0.0 <= a <= b <= 1.0
    ensures InvSquareStep(a) <= InvSquareStep(b)
  {
    assert InvSquareStep(b) - InvSquareStep(a) == (b - a) * (2.0 - a - b);
    MulNonNegative(b - a, 2.0 - a - b);
  }

  /** The falloff curve chosen by `falloff`, at closeness `t`; `draw` is
      what the RANDOM arm's random source returns. The flat arms ignore `t`;
      at closeness 0 every other arm vanishes, and at closeness 1 every arm
      but RANDOM gives full weight. */
  function Weight(falloff: FalloffKind, t: real, draw: real): (w: real)
    ensures IsFlat(falloff) ==> w == 1.0
    ensures t == 0.0 ==> w == if IsFlat(falloff) then 1.0 else 0.0
    ensures t == 1.0 ==> w == if falloff == Random then draw else 1.0
  {
    match falloff
    case Sharp => t * t
    case Smooth => SmoothStep(t)
    case Lin => t
    case Const => 1.0
    case Random => draw * t
    case InvSquare => InvSquareStep(t)
    case Unrecognised => 1.0
  }

  /** On closeness in [0, 1] every falloff curve stays in [0, 1], and the
      RANDOM arm never exceeds the closeness it scales. */
  lemma WeightInUnit(falloff: FalloffKind, t: real, draw: real)
    requires 0.0 <= t <= 1.0 && IsDraw(draw)
    ensures 0.0 <= Weight(falloff, t, draw) <= 1.0
    ensures falloff == Random ==> Weight(falloff, t, draw) <= t
  {
    match falloff
    case Sharp => MulNonNegative(t, t); MulNonNegative(t, 1.0 - t);
    case Smooth => SmoothStepInUnit(t);
    case Random => MulNonNegative(draw, t); MulNonNegative(1.0 - draw, t);
    case InvSquare => InvSquareStepInUnit(t);
    case _ =>
  }

  /** On closeness in [0, 1] every falloff curve is non-decreasing. */
  lemma WeightMonotone(falloff: FalloffKind, t1: real, t2: real, draw: real)
    requires 0.0 <= t1 <= t2 <= 1.0 && IsDraw(draw)
    ensures Weight(falloff, t1, draw) <= Weight(falloff, t2, draw)
  {
    match falloff
    case Sharp => MulNonNegative(t1, t2 - t1); MulNonNegative(t2, t2 - t1);
    case Smooth => SmoothStepMonotone(t1, t2);
    case Random => MulNonNegative(draw, t2 - t1);
    case InvSquare => InvSquareStepMonotone(t1, t2);
    case _ =>
  }

  /** `calculate_proportional_snap_factor`: the weight of a keyframe at
      `distance` before the snapped end, for the snap range `size`, under the
      falloff tag `falloff`; `draw` is what the RANDOM arm's random source
      returns. Out of range the weight is 0; from the snapped end onwards
      into the range it lies in [0, 1]. */
  function Factor(distance: real, size: real, falloff: FalloffKind, draw: real): (w: real)
    requires FactorDefined(distance, size) && IsDraw(draw)
    ensures distance > size ==> w == 0.0
    ensures 0.0 <= distance ==> 0.0 <= w <= 1.0
  {
    if distance > size then 0.0
    else
      var t := Closeness(distance, size);
      if 0.0 <= distance then WeightInUnit(falloff, t, draw); Weight(falloff, t, draw)
      else Weight(falloff, t, draw)
  }

  /** At the snapped end itself every arm gives full weight, except RANDOM,
      which gives its draw. */
  lemma FactorAtSnappedEnd(size: real, falloff: FalloffKind, draw: real)
    requires 0.0 < size && IsDraw(draw)
    ensures Factor(0.0, size, falloff, draw) == if falloff == Random then draw else 1.0
  {
    assert Closeness(0.0, size) == 1.0;
  }

  /** At the edge of the range every polynomial arm has decayed to 0, while
      CONST and the default arm still give 1. */
  lemma FactorAtEdge(size: real, falloff: FalloffKind, draw: real)
    requires 0.0 < size && IsDraw(draw)
    ensures Factor(size, size, falloff, draw) == if IsFlat(falloff) then 1.0 else 0.0
  {
    assert Closeness(size, size) == 0.0;
  }

  /** Influence decays with distance: with the same draw, a keyframe nearer
      the snapped end never gets less weight than one further away. */
  lemma FactorNonIncreasing(d1: real, d2: real, size: real, falloff: FalloffKind, draw: real)
    requires 0.0 <= d1 <= d2
    requires FactorDefined(d1, size) && FactorDefined(d2, size) && IsDraw(draw)
    ensures Factor(d1, size, falloff, draw) >= Factor(d2, size, falloff, draw)
  {
    if d2 <= size {
      ClosenessNonIncreasing(d1, d2, size);
      WeightMonotone(falloff, Closeness(d2, size), Closeness(d1, size), draw);
    }
  }

  /** The RANDOM arm never exceeds the closeness it scales. */
  lemma RandomFactorBounded(distance: real, size: real, draw: real)
    requires 0.0 <= distance <= size && 0.0 < size && IsDraw(draw)
    ensures 0.0 <= Factor(distance, size, Random, draw) <= Closeness(distance, size)
  {
    WeightInUnit(Random, Closeness(distance, size), draw);
  }

  /** The identifiers the host's proportional-editing falloff setting takes. */
  predicate IsHostSetting(id: string) {
    id in {"SMOOTH", "SPHERE", "ROOT", "INVERSE_SQUARE", "SHARP", "LINEAR", "CONSTANT", "RANDOM"}
  }

  /** The arm the factor's chain of comparisons selects for the setting `id`,
      as written: it compares against the literals LIN, CONST and INVSQUARE.
      ROOT and SPHERE give `None`, because their arms fail (`math` is never
      imported). */
  function ArmAsWritten(id: string): Option<FalloffKind> {
    if id == "SHARP" then Some(Sharp)
    else if id == "SMOOTH" then Some(Smooth)
    else if id == "ROOT" then None
    else if id == "LIN" then Some(Lin)
    else if id == "CONST" then Some(Const)
    else if id == "SPHERE" then None
    else if id == "RANDOM" then Some(Random)
    else if id == "INVSQUARE" then Some(InvSquare)
    else Some(Unrecognised)
  }

  /** The arm each setting evidently should select: the comparisons use the
      host's own identifiers LINEAR, CONSTANT and INVERSE_SQUARE. */
  function ArmIntended(id: string): Option<FalloffKind> {
    if id == "SHARP" then Some(Sharp)
    else if id == "SMOOTH" then Some(Smooth)
    else if id == "ROOT" then None
    else if id == "LINEAR" then Some(Lin)
    else if id == "CONSTANT" then Some(Const)
    else if id == "SPHERE" then None
    else if id == "RANDOM" then Some(Random)
    else if id == "INVERSE_SQUARE" then Some(InvSquare)
    else Some(Unrecognised)
  }

  /** As written, no host setting reaches the LIN, CONST or INVSQUARE arm:
      LINEAR, CONSTANT and INVERSE_SQUARE fall through to the default arm,
      so under LINEAR a keyframe 5 before the end of a range of 25 gets
      weight 1 instead of 0.8. */
  lemma LiteralsMissHostSettings(draw: real)
    requires IsDraw(draw)
    ensures forall id :: IsHostSetting(id) ==>
      ArmAsWritten(id) != Some(Lin) && ArmAsWritten(id) != Some(Const) && ArmAsWritten(id) != Some(InvSquare)
    ensures ArmAsWritten("LINEAR") == Some(Unrecognised)
    ensures ArmAsWritten("CONSTANT") == Some(Unrecognised)
    ensures ArmAsWritten("INVERSE_SQUARE") == Some(Unrecognised)
    ensures Factor(5.0, 25.0, ArmAsWritten("LINEAR").value, draw) == 1.0
  {
  }

  /** With the host's identifiers every arm but the default is reached by
      the setting of its own name, no host setting falls through to the
      default, and only ROOT and SPHERE select no arm; under LINEAR a
      keyframe 5 before the end of a range of 25 gets weight 0.8. */
  lemma IntendedArmsReachable(draw: real)
    requires IsDraw(draw)
    ensures ArmIntended("SHARP") == Some(Sharp) && ArmIntended("SMOOTH") == Some(Smooth)
    ensures ArmIntended("LINEAR") == Some(Lin) && ArmIntended("CONSTANT") == Some(Const)
    ensures ArmIntended("RANDOM") == Some(Random) && ArmIntended("INVERSE_SQUARE") == Some(InvSquare)
    ensures forall id :: IsHostSetting(id) ==> ArmIntended(id) != Some(Unrecognised)
    ensures forall id :: IsHostSetting(id) ==> (ArmIntended(id) == None <==> id == "ROOT" || id == "SPHERE")
    ensures Factor(5.0, 25.0, ArmIntended("LINEAR").value, draw) == 0.8
  {
    assert Closeness(5.0, 25.0) == 0.8;
  }
}
