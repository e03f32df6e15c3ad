# Tablet visualizer: the cursor trail

The tablet visualizer draws the operating system's cursor into a small window and
leaves a fading red trail behind it. The trail is the only part of the program with
state-transition logic: a `Trail` keeps a growable list of points, each an age and a
canvas position, oldest first. Every frame the program appends the current cursor
position as a fresh point with age 1 (`add_new`), lowers every age in place by
`decay_rate * frame_time` and then removes, in place and keeping the order of the
rest, every point whose age has dropped below zero (`update`), and finally draws one
red circle of radius 2 per point with an opacity taken from its age (`draw`).

This project models that trail in Dafny.

- `points.dfy`, module `TrailPoints`: the value-level view. `Point` and `Vec2` are the
  samples; `Decay` is the uniform ageing pass, `Retain` the order-preserving filter
  with the program's exact test (a point is kept unless its age is strictly below 0),
  `Step` their composition (one update) and `Iterate` repeated updates. The lemmas say
  what one update does to each point, that the filter keeps order, that an age of
  exactly 0 survives, that a point added just before an update survives it, that `k`
  updates act as one update by `k` times the decay (so each point's survival after `k`
  updates is decided by its own age alone, and a pruned point stays pruned), and that a
  trail fades in order (older points never fresher than newer ones), so an update only
  ever prunes its oldest points.
- `trail.dfy`, module `Visualizer`: the `Trail` class itself, with the point list as a
  `seq<Point>` field that the methods reassign and the decay rate as a constant set by
  the constructor. `Update` is the two passes of the source, each a loop over the
  field: `DecayAll` lowers every age in place and `RetainKept` compacts the survivors
  to the front in place and drops the tail, as a vector's `retain` does. Each method
  is proved against the functions of `TrailPoints`. `Draw` only reads the trail and
  returns the circles it draws. `Frame` is the trail's share of one frame of the main
  loop: `add_new` followed by `update`.

The frame time, which the program reads from the windowing library inside `update`,
is a parameter `dt` of `Update` and `Frame`.

Two consequences of the code's retain test (src/main.rs:35), which keeps a point
unless its age is strictly below zero:

- A point whose age after decay is exactly 0 is kept; `ExactZeroSurvives` and
  `HalfDecayLifetime` state this. The invariant after an update is therefore "every
  age is at least 0", not "every age is above 0".
- A point created in the current frame is kept by that frame's update only when
  `decay_rate * dt <= 1`; `AddThenStep` and `Frame` carry that condition.

## Model

| member | source | states |
|---|---|---|
| `TrailPoints.Decay` | src/main.rs:32-34 | the aged list has the same length and, at every index, the old age minus the decay and the old position |
| `TrailPoints.Retain` | src/main.rs:35 | the filtered list is no longer than the input and every point in it has age not below zero |
| `TrailPoints.DecayAppend` | src/main.rs:32-34 | ageing a concatenation ages each part separately, so ageing never reorders points |
| `TrailPoints.RetainAppend` | src/main.rs:35 | filtering a concatenation is the concatenation of the filtered parts, so survivors keep their relative order |
| `TrailPoints.RetainSnoc` | src/main.rs:35 | filtering one more point appends that point exactly when it passes the test |
| `TrailPoints.RetainMembership` | src/main.rs:35 | a point is in the filtered list if and only if it is in the input and its age is not below zero |
| `TrailPoints.RetainCount` | src/main.rs:35 | the filter keeps every copy of a passing point and no copy of a failing one |
| `TrailPoints.RetainUnchanged` | src/main.rs:35 | the filter returns its input unchanged if and only if every point's age is not below zero |
| `TrailPoints.StepMembership` | src/main.rs:31-36 | a point is in the updated trail if and only if it is some old point with its age lowered by the decay, its position unchanged, and its new age not below zero |
| `TrailPoints.StepAt` | src/main.rs:31-36 | the update removes exactly the points whose decayed age is below zero, each judged on its own, and keeps every survivor between the survivors before it and after it |
| `TrailPoints.StepBounds` | src/main.rs:31-36 | after an update the trail is no longer than before and no age is negative |
| `TrailPoints.ExactZeroSurvives` | src/main.rs:35 | in any trail, a point whose age after decay is exactly 0 is kept in its place with age 0 and its position |
| `TrailPoints.StepAppend` | src/main.rs:31-36 | updating a concatenation updates each part separately |
| `TrailPoints.StepStep` | src/main.rs:31-36 | two updates, the second with a non-negative decay, equal one update by the sum of the decays |
| `TrailPoints.IterateIsStep` | src/main.rs:31-36 | with a non-negative decay, `k` updates by `d` equal one update by `k * d` |
| `TrailPoints.IterateAt` | src/main.rs:31-36 | with a non-negative decay, the point at index `i` is present after `k` updates exactly when its age minus `k * d` is not below zero, and then with that age, its position and its place; since that age only falls with `k`, a pruned point never comes back |
| `TrailPoints.AddThenStep` | src/main.rs:38-40 | when one update decays by at most 1, a point added just before it survives as the newest point with age `1 - decay`, and the older points are updated as if it were absent |
| `TrailPoints.HalfDecayLifetime` | src/main.rs:31-36 | with decay 0.5 per update a fresh point has age 0.5 after one update, age 0 after two and is gone after three |
| `TrailPoints.IterateEmpties` | src/main.rs:31-36 | with a positive decay, a trail whose ages lie in `[0, k * decay)` is empty after `k` updates that add nothing |
| `TrailPoints.FadingAdd` | src/main.rs:38-40 | appending a fresh point keeps every age at most 1 and keeps older points no fresher than newer ones |
| `TrailPoints.FadingRetain` | src/main.rs:35 | the filter keeps ages ordered from oldest to newest |
| `TrailPoints.FadingStep` | src/main.rs:31-36 | an update with a non-negative decay keeps every age at most 1 and the ages ordered from oldest to newest |
| `TrailPoints.RetainSortedIsSuffix` | src/main.rs:35 | on a trail whose ages are ordered from oldest to newest, the filter removes a prefix: the survivors are a suffix of the list |
| `Visualizer.Trail.constructor` | src/main.rs:24-29 | a new trail has no points and stores the decay rate unchanged |
| `Visualizer.Trail.AddNew` | src/main.rs:38-40 | the list grows by exactly one point, `(1.0, (x, y))` at the end, all earlier points unchanged, and in-order fading is preserved |
| `Visualizer.Trail.Update` | src/main.rs:31-36 | the new list is the order-preserving filter of the old list aged by `decayRate * dt`; it is no longer than before, has no negative age, stays empty when it was empty and keeps in-order fading when the decay is non-negative |
| `Visualizer.Trail.DecayAll` | src/main.rs:32-34 | the loop leaves the list equal to the old list with every age lowered by the decay |
| `Visualizer.Trail.RetainKept` | src/main.rs:35 | the in-place compaction leaves the list equal to the order-preserving filter of the old list |
| `Visualizer.Trail.Draw` | src/main.rs:42-46 | one circle per point, in list order (oldest first), centred on the point, radius 2, opacity the point's age; the trail is only read |
| `Visualizer.Trail.Frame` | src/main.rs:61-62 | adding the cursor point then updating yields the update of the extended list; when the decay is at most 1 the new point ends up last with age `1 - decayRate * dt` |

## Left out

- The main loop's scheduling (src/main.rs:49-66): the asynchronous per-frame loop driven by the windowing library. Only its two calls on the trail are modelled, by `Frame`.
- Reading the cursor position and the screen size from the operating system (src/main.rs:53-54, 57): foreign calls with nothing to specify; `Frame` takes the already-scaled position.
- The cursor scaling (src/main.rs:58-59): floating-point division by the reported screen size. Note that it multiplies both coordinates by the horizontal factor `scale.0`.
- The frame time source: `update` reads it from the windowing library, once per point inside the ageing loop (src/main.rs:33); here it is the parameter `dt`, read once. The two agree because the library reports one frame time for the whole frame.
- All rendering: clearing the background, the cursor circle (src/main.rs:56, 60) and the drawing calls themselves; `Draw` returns the circles instead of drawing them.
- `Visualizer.Trail.Draw`: the opacity is the age as a real number; the program converts `age * 255` to a byte with a saturating float-to-integer cast, which is not modelled.
- The window configuration (src/main.rs:5-16): a static literal for the windowing library.
- 32-bit floating point: ages, positions and the decay are `real`, so rounding, infinities and NaN are not modelled.
