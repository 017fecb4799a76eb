# blueimp Gallery slide engine, modelled in Dafny

This project models the slide engine of the blueimp Gallery widget
(`ch11/blueimp-gallery.js`). A gallery shows a list of items as a horizontal
strip of slides, one slide wide. The engine keeps:

- the item count `num` and the current `index`;
- the `continuous` option: `true`, `false`, or `null`, meaning continuous
  mode was asked for but there are fewer than three slides;
- the slide width;
- the `positions` table, one horizontal offset per slide;
- the `elements` map of load states: unset, loading, done or failed;
- the state of the current touch gesture.

The model works on the transform path, where slides are moved by CSS
translates. A translate is kept as the value `Shown(x, y, duration)` per
slide.

The modules follow the structure of the source:

- `IndexArith` (arith.dfy): JavaScript's truncating remainder and `circle`.
- `Config` (config.dfy): the options `initOptions` produces and the start
  index lookup of `initStartIndex`.
- `Preload` (preload.dfy): the zig-zag walk of `iteratePreloadRange` as a
  function, and the "far" test of `unloadElements`.
- `Lifecycle` (lifecycle.dfy): the load states and what loading and
  unloading a window does to them.
- `Layout` (layout.dfy): offsets as values. It covers the strip "settled"
  around an index, what `slide` writes, and what a committed or abandoned
  swipe and a drag write.
- `Gesture` (gesture.dfy): the pinch filter, the linear-mode resistance, the
  settle duration and the commit decision of `ontouchend`.
- `BlueimpGallery` (gallery.dfy): the class `Gallery`. Its fields are the
  engine's state and its methods are the source's operations. Each method's
  `ensures` ties the new state to the functions and predicates above.

Two invariants are kept apart from `Valid()`:

- `Settled()`: the current slide is at 0. In continuous mode its neighbours
  sit at -width and +width and every other slide sits at one of them. In
  linear mode every slide is at its rest offset.
- `Aligned()`: every offset is a whole number of widths. This makes the
  source's division `-positions[c] / slideWidth` exact.

`slide` may leave an unsettled strip when asked to move a whole turn or
more in continuous mode: `slide(index + num)` on a settled strip puts every
offset at 0 (`Layout.WholeTurnFlattens`). So `Settled()` is stated as
preserved only under the conditions where it holds. `Aligned()` is preserved by every operation that
writes `positions`.

## Model

| member | source | states |
|---|---|---|
| IndexArith.JsRem | ch11/blueimp-gallery.js:542-545 | JavaScript's `%` on integers: its result is smaller than the divisor in magnitude, has the dividend's sign, and differs from the dividend by a multiple of the divisor |
| IndexArith.Circle | ch11/blueimp-gallery.js:542-545 | `circle(i)` always lies in [0, num) for num >= 1 |
| IndexArith.CircleMatchesSource | ch11/blueimp-gallery.js:542-545 | the source's `(num + i % num) % num`, with truncating `%`, equals the Euclidean `circle` for every integer, negative ones included |
| IndexArith.CircleIdentity | ch11/blueimp-gallery.js:542-545 | `circle` is the identity on [0, num) |
| IndexArith.CircleIdempotent | ch11/blueimp-gallery.js:542-545 | `circle(circle(i)) == circle(i)` |
| IndexArith.CircleTurns | ch11/blueimp-gallery.js:366-370 | adding whole turns of `num` to a target does not change the slide it lands on |
| IndexArith.CircleApart | ch11/blueimp-gallery.js:542-545 | two different integers less than `num` apart land on different slides |
| Config.InitOptions | ch11/blueimp-gallery.js:1539-1556 | `continuous` is truthy exactly when there are at least 3 slides and the caller did not turn it off; it is `null` exactly when it was wanted with fewer than 3 slides; a carousel gets the carousel preset for close-on-swipe unless the caller set it |
| Config.StartIndexOf | ch11/blueimp-gallery.js:1388-1407 | the start index is always in range; a number is taken through `circle`; an object gives the first item that is the same object or has the same URL, or 0 when none does |
| Preload.StepOf | ch11/blueimp-gallery.js:1176-1182 | every offset `d` is reached by the zig-zag walk, at a step below 2·abs(d)+1 |
| Preload.OffsetStep | ch11/blueimp-gallery.js:1182 | the offset after step `i` is the previous one plus `i` at odd steps and minus `i` at even ones, as the walk adds `i * (i % 2 === 0 ? -1 : 1)` |
| Preload.ContinuousVisits | ch11/blueimp-gallery.js:1170-1191 | in continuous mode the walk makes one visit per step, the k-th being `circle(center + offset k)`, with offsets 0, +1, -1, +2, -2, … |
| Preload.LinearVisits | ch11/blueimp-gallery.js:1170-1191 | in linear mode the walk visits exactly the in-range indices within the offset interval its steps cover; out-of-range steps are skipped, not wrapped |
| Preload.LinearVisitsOrdered | ch11/blueimp-gallery.js:1170-1191 | in linear mode the visits are in range, pairwise distinct and ordered nearest first |
| Preload.ContinuousDistinct | ch11/blueimp-gallery.js:1170-1191 | in continuous mode, with at most `num` steps, the visits are in range and pairwise distinct |
| Preload.WindowShape | ch11/blueimp-gallery.js:1170-1191 | the window of `min(num, 2·range+1)` steps starts at the centre and stays in range |
| Preload.NearNotFar | ch11/blueimp-gallery.js:1215-1224 | no index of a window is "far" from its own centre, so unloading for a move never discards what loading the new window requested |
| Preload.Far | ch11/blueimp-gallery.js:1217-1222 | the unload test: a far index is never the new index itself and exists only when the range is smaller than the slide count; an index within range of the new index is never far |
| Preload.ContinuousWindowExact | ch11/blueimp-gallery.js:1170-1224 | in continuous mode with at least 2·range+1 slides, an index is in the window exactly when it is not far from the centre |
| Preload.LinearWindowExact | ch11/blueimp-gallery.js:1170-1191 | in linear mode with at least 2·range+1 slides, the window holds exactly the in-range indices within `range` of the centre |
| Lifecycle.FirstLoad | ch11/blueimp-gallery.js:1193-1209 | `loadElement` marks an unset entry loading exactly when the slide has no content, and failed exactly when it has content and the error class |
| Lifecycle.Completed | ch11/blueimp-gallery.js:861-866 | `oncomplete` never leaves an entry loading; it records failure exactly for an error event |
| Lifecycle.LoadThenUnload | ch11/blueimp-gallery.js:1034-1043 | loading the new window and then unloading the old one gives `Navigated`; every index of the new window ends with an entry |
| Lifecycle.LoadOnly | ch11/blueimp-gallery.js:1034-1043 | with unloading off, `handleSlide` only loads |
| Lifecycle.NavigatedInPlace | ch11/blueimp-gallery.js:328-342 | `onslide` to the current index, as `initialize` calls it, only loads |
| Lifecycle.WindowStaysExact | ch11/blueimp-gallery.js:1034-1043 | in continuous mode with at least 2·range+1 slides and unloading on, if the entries were exactly the old window then after a move they are exactly the new window |
| Layout.InitialLayoutSettled | ch11/blueimp-gallery.js:1275-1285 | the offsets `initSlides` writes leave the strip settled around the current index |
| Layout.RestOffset | ch11/blueimp-gallery.js:1238-1246 | `positionSlide`'s offset: 0 exactly at the current index, negative exactly before it, one width away everywhere else |
| Layout.InitialLayoutMoves | ch11/blueimp-gallery.js:1275-1285 | the per-slide rest offsets followed by the two continuous-mode moves give that layout |
| Layout.SettledWholeWidths | ch11/blueimp-gallery.js:1234-1249 | a settled strip holds whole widths only |
| Layout.LinearSettledUnique | ch11/blueimp-gallery.js:1234-1249 | in linear mode there is exactly one settled strip around an index: the rest offsets |
| Layout.InitialLayoutGrow | ch11/blueimp-gallery.js:461-486 | in linear mode, laying out a longer list keeps the offsets of the existing slides |
| Layout.DragIndices | ch11/blueimp-gallery.js:730-748 | the slides `ontouchmove` drags are in range and pairwise distinct: the index and its wrapped neighbours in continuous mode, the index and its existing neighbours in linear mode |
| Layout.DragRigid | ch11/blueimp-gallery.js:749-752 | dragging a settled strip by `dx` shows the current slide at `dx` and its neighbours at `dx - width` and `dx + width` |
| Layout.StepTargetDiffers | ch11/blueimp-gallery.js:357-375 | for `prev` and `next` the re-expressed target of `slide` is never the current index, so the transition loop always ends |
| Layout.PlanTargetCircle | ch11/blueimp-gallery.js:357-382 | the re-expressed target of `slide` lands on the slide `circle(to)` |
| Layout.PlanSlide | ch11/blueimp-gallery.js:357-370 | in linear mode the target is `circle(to)` and the direction is 1 or -1, 1 exactly when the target lies before the index; in continuous mode a direction that agrees with the plain comparison leaves `to` as it is |
| Layout.SlideMovesDone | ch11/blueimp-gallery.js:372-391 | the transition loop and the three final moves, in source order, give the per-slide writes `SlidMoves`: passed-over slides to width·direction at once, the old index there over the duration, the target to 0, and in continuous mode the slide behind the target to -width·direction |
| Layout.SlideAligned | ch11/blueimp-gallery.js:372-391 | `slide` keeps every offset a whole number of widths |
| Layout.SlideTargetCentred | ch11/blueimp-gallery.js:384 | after `slide` the new current slide is at offset 0 |
| Layout.SlideBehind | ch11/blueimp-gallery.js:385-391 | in continuous mode the slide behind the target is parked at -width·direction |
| Layout.SlideAhead | ch11/blueimp-gallery.js:372-383 | in continuous mode the slide ahead of the target is at width·direction |
| Layout.SlideNeighbours | ch11/blueimp-gallery.js:372-391 | those two facts put the new slide's neighbours at -width and +width |
| Layout.SlideParksOthers | ch11/blueimp-gallery.js:372-391 | after a continuous `slide`, every slide but the target sits at -width or +width |
| Layout.SlideKeepsContinuousSettled | ch11/blueimp-gallery.js:363-391 | a continuous `slide` to a target less than a turn away keeps a settled strip settled around `circle(to)` |
| Layout.SlideKeepsLinearSettled | ch11/blueimp-gallery.js:357-391 | a linear `slide` keeps a settled strip settled around `circle(to)`: the slides passed over and the old index end on the far side |
| Layout.SlideTarget | ch11/blueimp-gallery.js:344-396 | `slide` leaves a settled strip settled around `circle(to)`, in continuous mode for a target less than a turn away |
| Layout.LinearWrapNeverEnds | ch11/blueimp-gallery.js:357-375 | as written, a linear `slide(to)` with `circle(to)` equal to the index but `to` not equal to it re-expresses the target as the index, and the loop counter starts below 0 |
| Layout.LastOfFiveBack | ch11/blueimp-gallery.js:357-375 | `slide(-1)` on the last of five slides is such a call |
| Layout.PlanOnSettledStrip | ch11/blueimp-gallery.js:357-375 | on a settled continuous strip, a target less than a turn away gives a direction of 1 or -1 that agrees with the re-expressed target; that target differs from the index, lies less than a turn from it and has the same `circle` as `to` |
| Layout.WholeTurnFlattens | ch11/blueimp-gallery.js:363-391 | as written, continuous `slide(index + num)` on a settled strip reads direction 0, keeps the target `index + num` and moves every slide to offset 0 |
| Layout.ContinuousHang | ch11/blueimp-gallery.js:363-375 | as written, on five continuous slides settled at 0, `slide(5)` then a swipe to the next slide leaves the strip [-w, -w, w, 0, -w] at index 1, where `slide(6)` re-expresses the target as the index 1 |
| Layout.SwipeMovesDone | ch11/blueimp-gallery.js:790-806 | the moves of a committed swipe, in source order, give `SwipedMoves`: the slide ahead (and, in continuous mode, the slide two behind) jumps to its place, and the current slide and the slide behind it each move by width·direction |
| Layout.SwipeBroughtIn | ch11/blueimp-gallery.js:801-807 | in continuous mode the slide a committed swipe brings in ends at 0 |
| Layout.SwipeNeighbourSlides | ch11/blueimp-gallery.js:796-806 | in continuous mode the old index and the slide two behind it become the new slide's neighbours |
| Layout.SwipeParksOthers | ch11/blueimp-gallery.js:795-806 | after a continuous swipe, every slide but the one brought in sits at -width or +width |
| Layout.SwipeKeepsSettled | ch11/blueimp-gallery.js:790-808 | a committed swipe keeps a settled strip settled around `circle(index - direction)`, one slide away |
| Layout.SwipeAligned | ch11/blueimp-gallery.js:790-806 | a committed swipe keeps every offset a whole number of widths |
| Layout.SnapMovesDone | ch11/blueimp-gallery.js:809-823 | the snap-back moves, in source order, give `SnappedBack`: the neighbours to -width and +width (in linear mode only those that exist) and the index to 0 |
| Layout.SnapBackRestores | ch11/blueimp-gallery.js:809-823 | snapping back a settled strip restores exactly the offsets it had |
| Layout.SnapAligned | ch11/blueimp-gallery.js:809-823 | snapping back keeps every offset a whole number of widths |
| Gesture.Pinched | ch11/blueimp-gallery.js:706-709 | more than one finger is always a pinch; one finger with no scale, a zero scale or scale 1 is not |
| Gesture.AtBound | ch11/blueimp-gallery.js:735-738 | only the first or the last slide can be at a bound, and only while the drag moves |
| Gesture.Resist | ch11/blueimp-gallery.js:733-740 | off a bound the delta is unchanged; at a bound it keeps its sign, never grows, and stays below one slide width |
| Gesture.ResistExample | ch11/blueimp-gallery.js:735-740 | a 120 px leftward drag on the last of five 300 px slides is shown as -600/7 px |
| Gesture.SettleDurationMonotone | ch11/blueimp-gallery.js:765-768 | the longer the swipe, the shorter the settle duration |
| Gesture.SettleDurationEnds | ch11/blueimp-gallery.js:765-768 | a full-width swipe settles at once; a swipe that did not move takes half the duration, rounded up |
| Gesture.SettleDuration | ch11/blueimp-gallery.js:765-768 | for a swipe of at most one width the settle duration lies between 0 and half the transition duration, rounded up |
| Gesture.EndDuration | ch11/blueimp-gallery.js:765-768 | `NaN` exactly when no move was recorded; otherwise, for a swipe of at most one width, between 0 and half the transition duration, rounded up |
| Gesture.Decide | ch11/blueimp-gallery.js:770-790 | a swipe commits only past the 20 px threshold; in continuous mode exactly then; in linear mode exactly when it is past the threshold and not at a bound; the direction is -1 for a leftward swipe and 1 otherwise; a linear commit stays in range |
| Gesture.CloseRequested | ch11/blueimp-gallery.js:775-778 | a close needs closing on vertical swipes enabled, and a gesture that requests it never commits a swipe |
| BlueimpGallery.Gallery.constructor | ch11/blueimp-gallery.js:40-61 | after `initOptions` and `initialize` the gallery is valid, starts at the index `initStartIndex` picks, is settled and aligned at the container width, has loaded the start window, and sets the single and edge classes; the slide elements are the container's live collection exactly when they were kept |
| BlueimpGallery.Gallery.Open | ch11/blueimp-gallery.js:50-56 | an empty list gives `null`, which stands for the inert, uninitialised object the constructor returns; any other list gives a valid, settled gallery |
| BlueimpGallery.Gallery.Initialize | ch11/blueimp-gallery.js:328-342 | the start index, the single class, the initial layout and the loaded start window |
| BlueimpGallery.Gallery.ShowStart | ch11/blueimp-gallery.js:334-335 | `onslide(index)` on a fresh gallery keeps the index, loads exactly the start window and sets the edge classes in linear mode |
| BlueimpGallery.Gallery.FirstRun | ch11/blueimp-gallery.js:1251-1268 | the first-run slide elements: those found (then the live collection), or fresh empty ones when `clearSlides` is set or their number differs; then the initial layout |
| BlueimpGallery.Gallery.Move | ch11/blueimp-gallery.js:547-550 | `move` records the offset and shows the slide there |
| BlueimpGallery.Gallery.Translate | ch11/blueimp-gallery.js:552-573 | `translate` changes only the translate of the one slide |
| BlueimpGallery.Gallery.PositionSlide | ch11/blueimp-gallery.js:1234-1249 | a slide goes to -width before the index, +width after it, 0 at it |
| BlueimpGallery.Gallery.InitSlides | ch11/blueimp-gallery.js:1251-1290 | `initSlides(true)` lays out the initial layout for the new width; the strip ends settled, aligned and shown without transition |
| BlueimpGallery.Gallery.PositionSlides | ch11/blueimp-gallery.js:1275-1280 | the loop of `initSlides` puts every slide at its rest offset |
| BlueimpGallery.Gallery.PlaceNeighbours | ch11/blueimp-gallery.js:1281-1285 | in continuous mode the slide before the index goes to -width, then the one after it to +width |
| BlueimpGallery.Gallery.UpdateEdgeClasses | ch11/blueimp-gallery.js:989-1000 | the left-edge class is on exactly at index 0, the right-edge class exactly at the last index |
| BlueimpGallery.Gallery.IteratePreloadRange | ch11/blueimp-gallery.js:1170-1191 | the loop over `j` hands the callback exactly the window sequence `Window`, whose properties the `Preload` lemmas state |
| BlueimpGallery.Gallery.LoadElement | ch11/blueimp-gallery.js:1193-1209 | an entry already set is left alone; an unset one gets `FirstLoad`, and a slide without content receives it |
| BlueimpGallery.Gallery.LoadElements | ch11/blueimp-gallery.js:1211-1213 | loading the window: entries outside it and entries already set do not change |
| BlueimpGallery.Gallery.UnloadElements | ch11/blueimp-gallery.js:1215-1224 | exactly the old window's indices far from the new index lose their entry and their content |
| BlueimpGallery.Gallery.OnComplete | ch11/blueimp-gallery.js:852-866 | no target changes nothing; otherwise the entry becomes failed (and the slide gets the error class) on an error event and done otherwise |
| BlueimpGallery.Gallery.OnSlide | ch11/blueimp-gallery.js:1034-1050 | the index becomes the new one; the edge classes follow it in linear mode; the load states change as `Navigated` says |
| BlueimpGallery.Gallery.Slide | ch11/blueimp-gallery.js:344-397 | a move to the index or in a one-slide gallery changes nothing; otherwise the index becomes `circle(to)`, the strip is written as `SlidMoves` says, load states and edge classes follow, and a settled strip stays settled (in continuous mode for a target less than a turn away) |
| BlueimpGallery.Gallery.MoveStrip | ch11/blueimp-gallery.js:372-391 | the moves of `slide` are `SlidMoves`, the returned target is `circle(to)`, and whole widths stay whole widths |
| BlueimpGallery.Gallery.MoveBetween | ch11/blueimp-gallery.js:372-381 | the transition loop moves exactly the slides strictly between index and target, at once |
| BlueimpGallery.Gallery.SlideGuarded | ch11/blueimp-gallery.js:344-397 | `slide` as evidently intended, in both modes: every call ends at `circle(to)`; when that is the index nothing changes, otherwise the strip is written as `SlidMoves` says for the target `circle(to)`, load states and edge classes follow, and a settled strip stays settled |
| BlueimpGallery.Gallery.Prev | ch11/blueimp-gallery.js:407-411 | with `continuous` falsy, `prev` at index 0 changes nothing (offsets, translates, index, load states, edge classes); otherwise it is `slide(index - 1)` with the default duration: the index becomes `circle(index - 1)`, the strip is written as `SlidMoves` says, load states and edge classes follow; a settled strip stays settled |
| BlueimpGallery.Gallery.Next | ch11/blueimp-gallery.js:413-417 | with `continuous` falsy, `next` at the last index changes nothing (offsets, translates, index, load states, edge classes); otherwise it is `slide(index + 1)` with the default duration: the index becomes `circle(index + 1)`, the strip is written as `SlidMoves` says, load states and edge classes follow; a settled strip stays settled |
| BlueimpGallery.Gallery.Add | ch11/blueimp-gallery.js:461-486 | the list is extended; a `null` continuous becomes truthy once there are more than two slides and the left-edge class goes; the right-edge and single classes go. It throws exactly when items are added to a gallery whose slide elements are the live collection: then one element has been appended and the offsets are untouched. Otherwise new slides are empty, and the strip is laid out and settled again at the current index, keeping the linear offsets of the old slides |
| BlueimpGallery.Gallery.Relayout | ch11/blueimp-gallery.js:485 | `initSlides(true)` lays the strip out at the new width, settled and aligned; a linear strip settled at the same width keeps its old offsets |
| BlueimpGallery.Gallery.Append | ch11/blueimp-gallery.js:464-481 | the list and class changes at the start of `add` |
| BlueimpGallery.Gallery.AddSlides | ch11/blueimp-gallery.js:480-484 | on the live collection the first `addSlide` appends its element and then throws, leaving the offsets alone; otherwise every new index gets an empty slide element and its rest offset, and old offsets are kept |
| BlueimpGallery.Gallery.OnTouchStart | ch11/blueimp-gallery.js:674-692 | the start point is remembered, the scroll decision is reset and the delta emptied |
| BlueimpGallery.Gallery.OnTouchMove | ch11/blueimp-gallery.js:694-756 | a pinch changes nothing; the scroll decision is taken once per gesture and then kept; a horizontal move drags the slides `DragIndices` names by the (in linear mode resisted) delta; a vertical one moves the current slide vertically unless in carousel mode; `positions` is never written; at a linear bound the current slide stays within one width |
| BlueimpGallery.Gallery.DragHorizontally | ch11/blueimp-gallery.js:725-752 | the horizontal branch of `ontouchmove`: the resisted delta and the dragged translates |
| BlueimpGallery.Gallery.DragSlides | ch11/blueimp-gallery.js:749-752 | each listed slide is shown at its offset plus the delta; the others keep their translate |
| BlueimpGallery.Gallery.OnTouchEnd | ch11/blueimp-gallery.js:758-833 | a committed swipe moves the index exactly one step to `circle(index - direction)` and writes `SwipedMoves`; otherwise the strip snaps back; a vertical gesture closes or returns the current slide to 0; a settled, aligned strip stays so |
| BlueimpGallery.Gallery.EndSwipe | ch11/blueimp-gallery.js:789-824 | the horizontal branch of `ontouchend`: commit or snap back as `Decide` says |
| BlueimpGallery.Gallery.CommitSwipe | ch11/blueimp-gallery.js:790-808 | the swipe moves, then `onslide` for the slide behind |
| BlueimpGallery.Gallery.MoveSwiped | ch11/blueimp-gallery.js:791-806 | the committed-swipe moves are `SwipedMoves` and leave a settled strip settled around the new index |
| BlueimpGallery.Gallery.MoveBack | ch11/blueimp-gallery.js:809-823 | the snap-back moves are `SnappedBack` and restore a settled strip exactly |
| BlueimpGallery.Gallery.OnTouchCancel | ch11/blueimp-gallery.js:835-840 | with no touch in progress nothing changes, edge classes included; otherwise the gesture ends in the three cases of `ontouchend` (commit with `SwipedMoves`, snap back with `SnappedBack`, vertical close or return) and its start is forgotten |

## Left out

- Rendering goes through the CSS transform path only. Feature detection and
  the fallback `animate` tween are not part of this model. The tween uses a
  timer and wall-clock time.
- Autoplay (`play`, `pause`, `setTimeout`, `toggleSlideshow`) is left out,
  along with the slideshow restarts in `oncomplete` and `ontransitionend`
  and the `onslide`/`onslidecomplete` callbacks. These are timers and user
  callbacks.
- Event wiring, `stopPropagation` and `preventDefault` are left out; they
  are platform plumbing. The mouse handlers are left out too, apart from
  `onmouseup`, which does what `ontouchcancel` does.
- DOM construction is abstracted. `imageFactory`, `createElement`,
  `addSlide`, `unloadSlide` and `resetSlides` become the `hasContent` flag of
  a slide. The loading class, titles and the active-slide class are not
  modelled.
- `close()` is reduced to the flag `OnTouchEnd` returns. The open and close
  handlers are DOM and style side effects.
- The item-property accessors (`getItemProperty` and the others) become an
  item's identity and optional URL. They are reflection over DOM datasets.
- The touch timestamp is not recorded, because nothing in the core reads it.
- Coordinates and durations are reals, not IEEE doubles. `Math.ceil` is
  modelled as the real ceiling.
- The container width is a parameter and is assumed positive.
- BlueimpGallery.Gallery.Slide: `duration` is an integer whose 0 means
  "not given".
- BlueimpGallery.Gallery.Slide: requires `Aligned()`, which every operation
  keeps. The source does not check alignment; alignment is what makes its
  division exact.
- BlueimpGallery.Gallery.Slide: the `NaN` direction of a linear `slide`
  whose target is the index is not modelled; that call hangs (see
  Findings).
- BlueimpGallery.Gallery.Slide: states that the strip stays settled only in
  two cases: in continuous mode for a target less than a turn away, and in
  linear mode always. A continuous `slide` a whole turn or more away may
  leave an unsettled strip (see Layout.WholeTurnFlattens).
- BlueimpGallery.Gallery.Slide: requires that the re-expressed target is
  not the index. This excludes the calls whose transition loop never ends:
  the linear one above and the continuous one on an unsettled strip (see
  Findings).
- BlueimpGallery.Gallery.OnTouchMove: requires a touch in progress. The
  source would read a missing start point.
- BlueimpGallery.Gallery.Add: when it throws, the gallery is left with
  more items than slide elements and no longer satisfies `Valid()`. No
  operation is modelled on such a gallery, so the contract does not state
  validity, layout or settledness for that case.
- BlueimpGallery.Gallery.IteratePreloadRange: returns the visited indices
  instead of calling a callback. The callbacks of the source do not change
  the walk.

Where the gallery's documented behaviour and the code differ, the model follows the
code:

- The resistance divisor of `ontouchmove` is `|dx| / width + 1`, applied at
  index 0 only for rightward drags and at the last index only for leftward
  ones.
- `unloadElements` applies its wrap-around distance test
  (`diff + preloadRange < num`) in linear mode too.
- In linear mode with fewer than 2·preloadRange+1 slides, the window can
  skip in-range slides within `preloadRange` of the centre.

## Findings

| source | as written | input that shows it | evidently intended | confidence | as-written member | corrected member |
|---|---|---|---|---|---|---|
| ch11/blueimp-gallery.js:357-375 | In linear mode `slide(to)` replaces `to` by `circle(to)` only after the `index === to` test. The target can then equal the index; the counter `diff` starts at -1 and `while (diff)` counts down forever. | 5 slides, index 4, `slide(-1)`: `circle(-1)` is 4, so `diff` starts at -1 | a `to` whose `circle` is the current index is no move | not executed | Layout.LinearWrapNeverEnds | BlueimpGallery.Gallery.SlideGuarded |
| ch11/blueimp-gallery.js:363-375 | In continuous mode `slide(to)` reads the direction off the target's current offset. After a `slide` a whole turn away has flattened the strip, that offset can be -w at the current slide, and the target is re-expressed as the index; `while (diff)` then counts down forever. | 5 continuous slides settled at 0; `slide(5)`; a quick leftward swipe of 100 px (width 300); then `slide(6)` | the target is taken as `circle(to)` before the direction is read, so the strip stays settled and every call ends | not executed | Layout.ContinuousHang | BlueimpGallery.Gallery.SlideGuarded |
