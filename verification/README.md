# pixi-bubble-game: the bubble lifecycle in Dafny

This project models the part of the `Gameplay` class that decides what happens to the
falling circles ("bubbles"). It also models the two random-draw helpers that class relies on.

- **Spawn** (the 1000 ms interval body plus `createCircle`) draws an id, a fall
  speed (`weight`), a radius and a horizontal position. It then appends an active circle,
  placed just above the viewport, to the end of the item list.
- **Tap** (`disableCircle`) marks the circle with the tapped id inactive. It does this with a
  `map` over the list.
- **Frame** (the pixi ticker callback) walks the list as it stood when the frame began.
  An active circle falls by `weight + delta`. An inactive circle goes through
  `removeCircle`: if its scale is already below zero, `filter` drops it; otherwise it
  shrinks by 0.1 on both axes.
- `getRandomNubmer(min, max)` is `floor(r * (max - min + 1)) + min`. `getRnadomColor`
  picks one of five palette colours with it.

The pixi `Graphics` object of a circle becomes record fields: `x`, `y`, `radius`,
`scaleX` and `scaleY`. Scale is counted in whole tenths, so 10 stands for 1.0.

Modules:

- `Helpers` models `src/helpers/index.js`. The value `Math.random()` would return is passed
  in as a `UnitDraw`, a real in [0, 1).
- `Gameplay` models `src/index.js`: the data, createCircle, the spawn body, `find`,
  disableCircle, removeCircle (whose missing-id TypeError becomes `Err(MissingGraphics)`,
  carrying the item list as it stood at the throw),
  the ticker as a fold over the start-of-frame snapshot, and the three callbacks as one
  `Event` type.
- `Lifecycle` holds an independent per-circle state machine, `StepItem`, and the reference
  frame `TickSpec`, which applies `StepItem` to every circle in order. It proves that the
  source-shaped fold equals the reference frame whenever ids are distinct.
- `Properties` holds what the callbacks guarantee: fall, shrink and removal, order, the
  shrink count over many frames, disableCircle idempotence, and the invariant every
  callback keeps.
- `Results` and `Sequences` hold the Option/Result types and the subsequence relation.

The model follows what this version of the code does. `src/index.js` declares `lives` and
`score` (lines 14 and 16) and never changes them. It has no pause, game over,
bottom-boundary check or difficulty ratchet, and circles are always filled white
(`0xffffff`), not in a palette colour.

## Model

| member | source | states |
|---|---|---|
| Helpers.RandomNumber | src/helpers/index.js:1-2 | The draw is `min` plus a whole offset. It is at least `min` unless the range is inverted by more than one. It is at most `max` when `max - min` is whole and non-negative, so both ends are included. It equals `min` when `min == max`. |
| Helpers.RandomNumberSlice | src/helpers/index.js:2 | Uniformity: for `min <= max` and every k, the draw is `min + k` exactly when `r` lies in [k/(max - min + 1), (k + 1)/(max - min + 1)). When `max - min` is whole, these intervals for k = 0 .. max - min split [0, 1) into equal slices. |
| Helpers.RandomNumberReaches | src/helpers/index.js:1-2 | Every whole offset from 0 to `max - min`, both ends included, is returned for some draw. |
| Helpers.InvertedRange | src/helpers/index.js:1-2 | When `max + 1 < min`, a draw of 0 gives `min` and every draw above 0 gives less than `min`. |
| Helpers.ColorIndex | src/helpers/index.js:6-7 | The palette index drawn is in [0, 4]. |
| Helpers.RandomColor | src/helpers/index.js:5-9 | The colour returned is one of the five palette entries. |
| Helpers.RandomColorSlice | src/helpers/index.js:5-9 | Palette entry k is returned exactly when the draw lies in [k/5, (k+1)/5). So every entry is reachable and all are equally likely. |
| Gameplay.CreateCircle | src/index.js:110-135 | A fresh circle is active. Its id is in [0, 9999999], its weight in [0, 5] and its radius in [20, 70]. It has `y == -radius` and scale 1.0 on both axes. When `radius <= width`, `x` lies in [radius/2, width - radius/2]. |
| Gameplay.Spawn | src/index.js:101-107 | One spawn appends exactly one item, the created circle, at the end. Every earlier item is unchanged and keeps its position. |
| Gameplay.FindIndex | src/index.js:139 | `find` yields nothing exactly when no item has the id. Otherwise it yields the first position whose item has the id. |
| Gameplay.DisableCircle | src/index.js:137-146 | Length is kept. Afterwards an item is active exactly when it was active and its id differs from the tapped one. No other field of any item changes. |
| Gameplay.WithoutIdSpec | src/index.js:153 | The filter keeps exactly the items whose id differs, each as many times as it occurs (multiset count), adds none, and keeps their relative order (subsequence). |
| Gameplay.RemoveCircleSpec | src/index.js:148-159 | A missing id is an error, and only a missing id is; the error carries the list unchanged. When the found circle is not below scale zero, only that item changes, with both scale axes lowered by one tenth. |
| Gameplay.RemoveCircleVanishing | src/index.js:149-154 | When the found circle's scale is below zero on either axis, every item with the id is removed, every other item is kept as many times as it occurs, and the kept ones keep their order. |
| Lifecycle.TickSpecLookup | src/index.js:43-51 | With distinct ids, the circle found under any id after the reference frame is what one state-machine step makes of the circle found under it before. |
| Lifecycle.TickSpecOrder | src/index.js:44-50 | The ids surviving a frame are a subsequence of the ids before it, so the relative order is kept. |
| Lifecycle.TickFromReference | src/index.js:44-50 | Walking the rest of the snapshot from a list whose processed part is already the reference frame finishes with the reference frame of the whole list. |
| Lifecycle.TickFromFault | src/index.js:44-50 | When a frame throws, the fault names a disabled snapshot entry whose id is no longer tracked, and it carries the list exactly as the earlier snapshot entries left it: nothing they did is undone. |
| Lifecycle.TickMatchesReference | src/index.js:43-51 | With distinct ids, the ticker never hits the missing-graphics error. Its result is exactly the reference frame, each circle stepped independently in list order. |
| Properties.TickActiveFalls | src/index.js:44-46 | After a frame, every previously active circle is still tracked, with `y` grown by exactly `weight + delta`. |
| Properties.TickFallIsMonotone | src/index.js:44-46 | With `delta >= 0` and non-negative weights, no active circle's `y` decreases, and it stays active. |
| Properties.TickDisabled | src/index.js:47-48 | A disabled circle already below scale zero is gone after the frame. Every other disabled circle remains, one tenth smaller on both axes. |
| Properties.TickChangesOnlyMotion | src/index.js:43-51 | A frame adds no item and no id, and keeps the survivors' order. It changes nothing but `y` and scale; in particular the `active` flag is never changed. |
| Properties.TickSpecOrigin | src/index.js:43-51 | Every circle after the reference frame is the one-step successor of the circle tracked under its id before. |
| Properties.RunTicksMatchesReference | src/index.js:43-51 | Over any number of frames with distinct ids, the ticker never errs and agrees with the reference frames. |
| Properties.RunSpecLookup | src/index.js:43-51 | Over many frames, each circle evolves independently by its own state machine. |
| Properties.DisabledShrinkCount | src/index.js:151-157 | A disabled circle at scale s >= -1 survives exactly s + 1 frames, at scale s - n after n of them, and is gone after the next one. |
| Properties.DisabledCircleLifetime | src/index.js:47-48 | Over consecutive frames, with no spawn or tap between them, a circle disabled at scale s >= 0 is still tracked after n frames exactly when n <= s + 1, at scale s - n on both axes. |
| Properties.DisabledCircleInGame | src/index.js:43-159 | In the running game, starting from a consistent list, a disabled circle is still tracked after any mix of spawns, taps and at most s + 1 frames, provided every spawn draws a fresh id. It is at scale s minus the number of frames on both axes, and no callback errs. |
| Properties.FullScaleLifetime | src/index.js:151-157 | Over consecutive frames, a circle disabled at scale 1.0 is shrunk on 11 frames, to -0.1, and removed on the 12th. The removal test is strict `< 0`. |
| Properties.DisableIdempotent | src/index.js:143 | Disabling the same id twice gives the same list as disabling it once. |
| Properties.DisableWithoutEffect | src/index.js:139-145 | A tap on an absent id, or on circles already inactive, leaves the list exactly as it was. |
| Properties.DisableKeepsIds | src/index.js:143 | disableCircle keeps the ids and their order. |
| Properties.SpawnKeepsConsistent | src/index.js:101-104 | From a consistent list, a spawn yields a consistent list exactly when the drawn id is not already tracked. |
| Properties.DisableKeepsConsistent | src/index.js:137-146 | disableCircle keeps the list consistent. |
| Properties.TickKeepsConsistent | src/index.js:43-51 | A frame on a consistent list succeeds and yields a consistent list. Consistent means distinct ids, scale equal on both axes and within [-0.1, 1.0], full scale while active, and the spawn bounds on id, weight and radius. |
| Properties.ApplyKeepsConsistent | src/index.js:43-51 | Every callback (spawn with a fresh id, tap, frame) keeps the list consistent, and none reaches the missing-graphics error. |

## Left out

- Rendering and loading are not modelled: pixi `Application`, `Container` and `Graphics`
  drawing, the status bar and its `Text`, the webfont `Loader`, the DOM scene lookup and
  bootstrap, the empty `end()` and the webpack configuration. They hold no logic about the
  item list.
- Wall-clock time is not modelled. The 1000 ms interval and the pixi ticker become the
  events `SpawnTimer` and `Frame(delta)`, in whatever order they arrive.
- `Math.random()` is not modelled. Each draw is a parameter in [0, 1).
- `graphics.destroy()`, `interactive` and `buttonMode` are not modelled. Pixi stops
  delivering taps to a disabled or destroyed circle. A tap on such a circle would change
  nothing anyway (`Properties.DisableWithoutEffect`), so every tap is modelled as
  delivered.
- Floating point is not modelled. Scale is kept in whole tenths. In doubles, 1.0 minus 0.1
  ten times is 1.3877787807814457e-16, still not below zero. The eleventh subtraction gives
  -0.09999999999999987.
  So the tenths model has the same shrink and removal counts. `x`, `y` and `delta` are exact
  reals.
- Duplicate ids are not covered by the frame lemmas. The source draws ids at random
  without a uniqueness check, so the frame lemmas require distinct ids. Only the fall
  differs from the source when ids repeat. The source moves the snapshot entry's own
  `graphics` (`src/index.js:46`), while the model moves the first item carrying the id. So
  two active circles sharing an id both fall in the source, but in the model the first one
  falls twice. `removeCircle` looks circles up by id in the source as well
  (`src/index.js:149`), so removals, shrinks and the missing-graphics fault match the source
  even with duplicates.
  `Properties.SpawnKeepsConsistent` shows a spawn keeps ids distinct exactly when the drawn
  id is fresh.
- A frame that throws ends the modelled run. The fault carries the partial list
  (`Lifecycle.TickFromFault`), but `Properties.RunTicks` stops there, while in the browser
  later spawns and taps would go on acting on that partial list. Whether pixi keeps calling a
  ticker listener that threw is pixi's behaviour, which is not part of this model. Only
  duplicate ids reach this path.
- Helpers.RandomNumber: the lower bound `min <= n` is stated only for `min <= max + 1`.
  For a range inverted by more than one, the source's draw falls below `min` for every
  draw above 0, and a draw of 0 still gives `min` (`Helpers.InvertedRange`).
- Gameplay.CreateCircle: the bounds on `x` are stated only for `radius <= width`. In a
  narrower scene the drawn range is inverted and `x` is not clamped.
- Properties.DisabledCircleLifetime: the "gone after s + 2 frames" half is stated only over
  consecutive frames, and so is the removal in `Properties.FullScaleLifetime`. With spawns in
  between, a later spawn may draw the removed circle's id again, because ids are drawn at random
  with no uniqueness check (`src/index.js:111`). The id is then tracked again, by a different
  circle. `Properties.DisabledCircleInGame` covers the "still tracked" half with spawns and taps
  in between.
- Properties.TickFallIsMonotone: it assumes `delta >= 0`. The ticker itself accepts any
  delta, and a negative one would lift active circles.
- Lives, score, pause, game over, the bottom-boundary check and difficulty progression are
  not modelled, because this version of the code does not implement them.
- `getRnadomColor` is modelled, but `createCircle` does not call it. Circles are filled
  white, so `Item` has no colour field.
