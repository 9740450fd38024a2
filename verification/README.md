# Smooth animation loop: a Dafny model

This project models the "Smooth animation loop" operator of the Blender
add-on "Animation loop smooth tool" (Graph Editor > Key, operator `graph_key.smoothloop`). For every
selected F-curve the operator makes the curve loop seamlessly. It lowers the
last keyframe by `delta = last - first`, so that its value equals the first
keyframe's value. It then spreads the same correction over the keyframes
before the last one, each weighted by a proportional-editing falloff of its
distance in time from the last keyframe.

The model has three modules, one per part of the operator:

- `Falloff` (falloff.dfy) holds the falloff factor
  (`calculate_proportional_snap_factor`). It is pure: a closeness `t`, and a
  polynomial chosen by a falloff tag.
- `Keyframes` (keyframes.dfy) holds keyframes as records of a key point and
  two handle points, `transform_point`, and `proportional_snap`. The
  keyframes are an `array` that the methods update in place. Each method is
  proved against a specification function on sequences.
- `SmoothLoop` (smooth_loop.dfy) holds the F-curve as a class with its
  keyframe array and its `select` flag, `snap_extremes`, and `execute`.

Values and times are `real`, so IEEE rounding is abstracted away. Two
inputs the source reads from elsewhere are parameters here: the falloff
(global tool settings in the source) and the snap size (the operator's
property). The operations take the falloff as the arm of the factor's
dispatch that the setting selects (`FalloffKind`, one tag per literal the
code compares against: SHARP, SMOOTH, LIN, CONST, RANDOM, INVSQUARE, and the
default arm). Which arm a host setting selects is modelled separately
(`ArmAsWritten`), and it differs from what was evidently intended (see
"## Findings"). The RANDOM arm's random source is a parameter too: a
sequence `draws` of values in [0, 1), one per keyframe index.

The snap size property has lower bound 0.0 (__init__.py:21), so every
operation takes a non-negative size. A size of 0 makes line 33 divide by
zero for any interior keyframe whose distance from the last keyframe's time
is at most 0, and `snap_extremes` reaches that division only when the
curve's end values differ. The curve-level operations require exactly that
this division does not happen: when the ends differ and the size is 0, every
interior keyframe lies before the last one in time (`CurveSizeFits`,
`SizeFits`). A curve whose ends agree is accepted with any non-negative
size. `Factor` requires a non-negative size and, whenever the distance is
within it, a positive one (`FactorDefined`).

Three points of the code that the model follows as written:

- ROOT and SPHERE call `math.sqrt`, which is never imported, so those arms
  raise `NameError`. They are left out (see below).
- With fewer than two keyframes, `snap_extremes` returns False before
  reselecting the curve, so only curves with at least two keyframes end up
  reselected.
- The distance is not clamped at 0. A keyframe later in time than the last
  one has a negative distance and a closeness above 1.

## Model

| member | source | states |
|---|---|---|
| `Falloff.Factor` | __init__.py:29-55 | A keyframe further than `size` from the snapped end gets weight 0 whatever the falloff; one between the snapped end and `size` gets a weight in [0, 1]. |
| `Falloff.Weight` | __init__.py:38-55 | The arms at their end points: CONST and the default give 1 whatever `t`; at `t = 0` every other arm gives 0; at `t = 1` every arm gives 1 except RANDOM, which gives its draw. `WeightInUnit` and `WeightMonotone` bound it and order it on [0, 1]. |
| `Falloff.Closeness` | __init__.py:33 | `t = max((size - distance) / size, 0)` is non-negative, at most 1 for a non-negative distance, 0 from `distance >= size` on, and 1 exactly at distance 0. |
| `Falloff.ClosenessNonIncreasing` | __init__.py:33 | A larger distance never gives a larger closeness. |
| `Falloff.WeightInUnit` | __init__.py:38-55 | On `t` in [0, 1] every arm (SHARP t², SMOOTH 3t²-2t³, LIN t, CONST 1, RANDOM draw·t, INVSQUARE t(2-t), default 1) lies in [0, 1], and RANDOM never exceeds `t`. |
| `Falloff.WeightMonotone` | __init__.py:38-55 | On `t` in [0, 1] every arm is non-decreasing in `t`. |
| `Falloff.FactorAtSnappedEnd` | __init__.py:33-55 | At distance 0 every arm gives 1, except RANDOM, which gives its draw. |
| `Falloff.FactorAtEdge` | __init__.py:29-55 | At distance equal to the size the polynomial arms and RANDOM give 0; CONST and the default arm give 1. |
| `Falloff.FactorNonIncreasing` | __init__.py:29-55 | For the same falloff and draw, a keyframe nearer the snapped end never gets less weight than one further away. |
| `Falloff.RandomFactorBounded` | __init__.py:50-51 | Within range, the RANDOM arm's weight lies between 0 and the closeness `t`. |
| `Keyframes.Shifted` | __init__.py:57-60 | Lowering a keyframe by `deltaY` lowers its value by `deltaY`, changes no time coordinate and keeps both handles at the same offset from the key. |
| `Keyframes.ShiftedUndone` | __init__.py:57-60 | Lowering by `-d` undoes lowering by `d`. |
| `Keyframes.TransformPoint` | __init__.py:57-60 | In place: keyframe `i` becomes its lowered version and every other keyframe is unchanged. |
| `Keyframes.ProportionalSnap` | __init__.py:63-79 | In place: the array ends equal to `ProportionalSnapped` of its old contents. |
| `Keyframes.ProportionalSnapped` | __init__.py:63-79 | The closed form of the snap, keyframe by keyframe; it keeps the keyframe count. `VisitedAll` proves the backwards loop computes it, and `ProportionalSnappedEffect` states what it does to each keyframe. |
| `Keyframes.VisitedAt` | __init__.py:69-79 | After `i` passes of the backwards loop, indices `len-2` down to `len-1-i` hold their snapped keyframe and every other index holds its old one. |
| `Keyframes.VisitedAll` | __init__.py:64-79 | Once all `len-2` passes have run, the loop's result is the proportional snap of the whole sequence. |
| `Keyframes.ProportionalSnappedEffect` | __init__.py:69-79 | The first and last keyframes are untouched. No key or handle moves in time. A keyframe further than `size` before the base is unchanged, wherever it lies (continue, not break). Every other interior keyframe is lowered by exactly `delta × factor(base - time, size)`. |
| `Keyframes.ProportionalSnappedShort` | __init__.py:64-67 | With fewer than three keyframes the proportional snap changes nothing. |
| `SmoothLoop.SnapExtremes` | __init__.py:81-102 | Answers false exactly when there are fewer than two keyframes. The keyframes become `LoopSnapped` of their old contents. The curve ends up selected when it has at least two keyframes, and its flag is unchanged otherwise. |
| `SmoothLoop.LoopSnapped` | __init__.py:81-97 | The keyframes after `snap_extremes`; it keeps the keyframe count. `LoopSnappedCloses`, `LoopSnappedKeepsTimes`, `LoopSnappedMoves`, `LoopSnappedIdle` and `LoopSnappedIdempotent` state its effect. |
| `SmoothLoop.LoopSnappedCloses` | __init__.py:86-97 | With at least two keyframes, afterwards the last keyframe's value equals the first's, and the first keyframe is untouched. |
| `SmoothLoop.LoopSnappedKeepsTimes` | __init__.py:86-97 | No key or handle of the curve moves in time, and the keyframe count is kept. |
| `SmoothLoop.LoopSnappedMoves` | __init__.py:92-97 | When the ends differ: the last keyframe and both its handles are lowered by `last - first`. Interior keyframes are measured from the last keyframe's unchanged time. Those out of range are untouched; the others are lowered by `delta × factor`. |
| `SmoothLoop.LoopSnappedIdle` | __init__.py:83-84 | A curve with fewer than two keyframes, or whose ends already agree, is left exactly as it was. |
| `SmoothLoop.LoopSnappedIdempotent` | __init__.py:81-102 | Snapping an already snapped curve changes nothing. |
| `SmoothLoop.LinearExample` | __init__.py:92-97 | Keys at times 0, 10, 20, 25 with end values 0 and 10, size 25 and the LIN arm: the key 5 before the end drops by 8, the one 15 before it drops by 4, and the end drops to 0. |
| `SmoothLoop.Execute` | __init__.py:104-114 | Every selected curve's keyframes become `LoopSnapped` of their old contents. Every unselected curve is unchanged. No selection flag changes. |
| `Falloff.LiteralsMissHostSettings` | __init__.py:38-55 | As written, no host setting selects the LIN, CONST or INVSQUARE arm. LINEAR, CONSTANT and INVERSE_SQUARE take the default arm, so under LINEAR a keyframe 5 before the end of a range of 25 gets weight 1. |
| `Falloff.IntendedArmsReachable` | __init__.py:38-55 | Compared against the host's identifiers, each setting selects the arm of its own name. No host setting takes the default arm, only ROOT and SPHERE select none, and LINEAR gives that keyframe weight 0.8. |

## Left out

- ROOT and SPHERE falloffs (`math.sqrt`): in the code they raise `NameError` because `math` is never imported. Real square roots are also not available to the model. `FalloffKind` has no such tags.
- RANDOM falloff: `random.random()` is replaced by injected draws in [0, 1), one per keyframe index. The source draws one value per visited in-range keyframe, in visiting order.
- IEEE floating point: values are reals. So `last - (last - first) == first` holds exactly here, while with Python floats it may be off by rounding.
- The operations take the selected arm (`FalloffKind`), not the host setting. `ArmIntended` maps a setting to the arm it should select, and `ArmAsWritten` to the arm the code selects. `Execute` does not apply either map itself, so its contract holds for whichever arm is passed.
- Global tool settings (`bpy.context.tool_settings.proportional_edit_falloff`) and the operator's `proportional_snap_size` property are explicit parameters. The property's `max`, `step`, `unit` and `precision` are UI settings and are not modelled.
- `print` calls, `report` messages, `bl_info`, `poll`, `invoke` (its active-object and animation-data checks and the dialog), `draw`, `menu_func`, `register` and `unregister`: host UI plumbing and console output.
- `execute`'s lookup of the active object's action: the model receives the list of curves directly. The `{'FINISHED'}` return value is not modelled.
- The `select = False; select = True` redraw toggle: only its net effect, `select` ending true, is modelled.
- Keyframes are records in an array rather than host objects: the model does not capture aliasing between keyframe objects. `Execute` requires distinct curves to own distinct keyframe arrays.

## Findings

| source | as written | input that shows it | evidently intended | confidence | as-written member | corrected member |
|---|---|---|---|---|---|---|
| __init__.py:44, 46, 52 | the setting is compared against `'LIN'`, `'CONST'` and `'INVSQUARE'`, which the host never supplies, so LINEAR, CONSTANT and INVERSE_SQUARE fall to the default arm (weight 1) | falloff LINEAR, size 25, a keyframe 5 before the end, delta 10: it drops by 10 instead of 8 | compare against the host's identifiers `'LINEAR'`, `'CONSTANT'` and `'INVERSE_SQUARE'` | medium: rests on the host's identifiers for the falloff setting, which lie outside this source; not executed | `Falloff.ArmAsWritten`, `Falloff.LiteralsMissHostSettings` | `Falloff.ArmIntended`, `Falloff.IntendedArmsReachable` |
