/** The gallery object: the slide engine's state and the operations that
    change it on the transform path. */
module BlueimpGallery {
  import opened IndexArith
  import opened Config
  import opened Preload
  import opened Layout
  import opened Lifecycle
  import opened Gesture

  /** The start index `initStartIndex` picks for `start`: `circle` of a
      number; for an object, the first item that is the same object or has
      the same URL, or 0 when none does. */
  predicate StartsAt(list: seq<Item>, start: StartIndex, index: int) {
    0 <= index < |list| &&
    (start.Number? ==> index == Circle(|list|, start.n)) &&
    (start.Object? ==>
      (forall k :: 0 <= k < index ==> !SameItem(list[k], start.item)) &&
      (SameItem(list[index], start.item) ||
       (index == 0 && forall k :: 0 <= k < |list| ==> !SameItem(list[k], start.item))))
  }

  class Gallery {
    var list: seq<Item>
    var num: int
    var index: int
    var options: Settings
    var slideWidth: int
    /** The horizontal offset of each slide, in pixels. */
    var positions: seq<int>
    /** The translate each slide was last given. */
    var shown: seq<Shown>
    var slides: seq<SlideDom>
    /** The slide elements are the slides container's live child
        collection, which has no `push` (a first run that kept them). */
    var liveSlides: bool
    /** Load state per slide index; a missing key is unset. */
    var elements: map<int, LoadState>
    /** The container's edge and single-slide classes. */
    var leftEdge: bool
    var rightEdge: bool
    var single: bool
    /** Per-gesture state: where the touch started, how far it moved and
        whether it was taken for a vertical scroll (`None` until decided). */
    var touchStart: Option<Point>
    var touchDelta: Delta
    var isScrolling: Option<bool>

    ghost predicate Valid()
      reads this
    {
      num == |list| && num >= 1 && 0 <= index < num && slideWidth > 0 &&
      |positions| == num && |shown| == num && |slides| == num &&
      (options.continuous.On? ==> num >= 3) &&
      (forall i :: i in elements ==> 0 <= i < num)
    }

    /** Every offset is a whole number of slide widths, so the division of
        an offset by the width in `slide` is exact. */
    ghost predicate Aligned()
      reads this`positions, this`slideWidth
    {
      slideWidth > 0 && WholeWidthsOf(positions, slideWidth)
    }

    /** Continuous mode: only a truthy `continuous` wraps around. */
    predicate Wraps()
      reads this`options
    {
      options.continuous.On?
    }

    /** The strip is at rest around the current index. */
    ghost predicate Settled()
      reads this
      requires Valid()
    {
      Layout.Settled(positions, index, slideWidth, Wraps())
    }

    /** The constructor on a non-empty list: `initOptions`, then
        `initialize`. `width` is the container width; `reused` are the slide
        elements already in the slides container. */
    constructor (items: seq<Item>, user: UserOptions, width: int, reused: seq<SlideDom>)
      requires |items| >= 1 && width > 0
      ensures Valid()
      ensures list == items && options == InitOptions(user, |items|)
      ensures StartsAt(items, options.index, index)
      ensures slideWidth == width && positions == InitialLayout(num, index, width, Wraps()) && Settled() && Aligned()
      ensures Loaded(map[], FirstSlides(reused), elements, slides, Window(num, Wraps(), options.preloadRange, index))
      ensures single == (num == 1)
      ensures !Wraps() ==> leftEdge == (index == 0) && rightEdge == (index == num - 1)
      ensures Wraps() ==> !leftEdge && !rightEdge
      ensures touchStart.None? && touchDelta.Unset? && isScrolling.None?
      ensures liveSlides == !(options.clearSlides || |reused| != num)
    {
      list := items;
      num := |items|;
      options := InitOptions(user, |items|);
      index := 0;
      slideWidth := width;
      positions := [];
      shown := [];
      slides := [];
      liveSlides := false;
      elements := map[];
      leftEdge, rightEdge, single := false, false, false;
      touchStart, touchDelta, isScrolling := None, Unset, None;
      new;
      Initialize(width, reused);
    }

    /** The slide elements `initSlides(false)` starts from: the ones found in
        the container, or fresh empty ones when `clearSlides` is set or their
        number differs from the list's. */
    function FirstSlides(reused: seq<SlideDom>): (d: seq<SlideDom>)
      reads this`options, this`list
      ensures |d| == |list| || (|d| == |reused| == |list|)
      ensures d == reused || forall i :: 0 <= i < |d| ==> d[i] == SlideDom(false, false)
    {
      if options.clearSlides || |reused| != |list| then seq(|list|, _ => SlideDom(false, false)) else reused
    }

    /** `initialize`: the start index, the single-slide class, `initSlides`
        for a first run, then `onslide` for the start index. */
    method Initialize(width: int, reused: seq<SlideDom>)
      requires num == |list| >= 1 && width > 0 && (options.continuous.On? ==> num >= 3)
      requires elements == map[] && !leftEdge && !rightEdge
      modifies this`index, this`single, this`slides, this`liveSlides, this`positions, this`shown, this`slideWidth,
               this`elements, this`leftEdge, this`rightEdge
      ensures Valid()
      ensures liveSlides == !(options.clearSlides || |reused| != num)
      ensures StartsAt(list, options.index, index)
      ensures slideWidth == width && positions == InitialLayout(num, index, width, Wraps()) && Settled() && Aligned()
      ensures Loaded(map[], FirstSlides(reused), elements, slides, Window(num, Wraps(), options.preloadRange, index))
      ensures single == (num == 1)
      ensures !Wraps() ==> leftEdge == (index == 0) && rightEdge == (index == num - 1)
      ensures Wraps() ==> !leftEdge && !rightEdge
    {
      index := StartIndexOf(list, options.index);
      single := num == 1;
      FirstRun(width, reused);
      ShowStart();
    }

    /** The closing `onslide(index)` of `initialize`, on no loaded slide. */
    method ShowStart()
      requires Valid() && elements == map[] && !leftEdge && !rightEdge
      modifies this`index, this`elements, this`slides, this`leftEdge, this`rightEdge
      ensures Valid() && index == old(index)
      ensures Loaded(map[], old(slides), elements, slides, Window(num, Wraps(), options.preloadRange, index))
      ensures !Wraps() ==> leftEdge == (index == 0) && rightEdge == (index == num - 1)
      ensures Wraps() ==> !leftEdge && !rightEdge
    {
      ghost var d0 := slides;
      OnSlide(index);
      NavigatedInPlace(map[], d0, elements, slides, num, Wraps(), options.unloadElements, options.preloadRange, index);
    }

    /** The first-run part of `initialize`: the slide elements, then
        `initSlides`. */
    method FirstRun(width: int, reused: seq<SlideDom>)
      requires num == |list| >= 1 && width > 0 && 0 <= index < num && (options.continuous.On? ==> num >= 3)
      requires elements == map[]
      modifies this`slides, this`liveSlides, this`positions, this`shown, this`slideWidth
      ensures Valid()
      ensures slides == FirstSlides(reused)
      ensures liveSlides == !(options.clearSlides || |reused| != num)
      ensures slideWidth == width && positions == InitialLayout(num, index, width, Wraps()) && Settled() && Aligned()
    {
      slides := FirstSlides(reused);
      liveSlides := !(options.clearSlides || |reused| != |list|);
      positions := seq(num, _ => 0);
      shown := seq(num, _ => Instant(0));
      InitSlides(width);
    }

    /** The empty-list case of the constructor: it logs and returns before
        any initialisation, which leaves an inert object; `null` stands for
        that object here. */
    static method Open(items: seq<Item>, user: UserOptions, width: int, reused: seq<SlideDom>) returns (g: Gallery?)
      requires width > 0
      ensures g == null <==> |items| == 0
      ensures g != null ==> fresh(g) && g.Valid() && g.list == items && g.Settled() && g.Aligned()
    {
      if |items| == 0 {
        return null;
      }
      g := new Gallery(items, user, width, reused);
    }

    /** `translate`: give slide `i` a translate. */
    method Translate(i: int, x: real, y: real, duration: Duration)
      requires 0 <= i < |shown|
      modifies this`shown
      ensures shown == old(shown)[i := Shown(x, y, duration)]
    {
      shown := shown[i := Shown(x, y, duration)];
    }

    /** `move`: translate slide `i` horizontally and record its offset. */
    method Move(i: int, dist: int, duration: Duration)
      requires 0 <= i < |positions| && |shown| == |positions|
      modifies this`positions, this`shown
      ensures positions == old(positions)[i := dist]
      ensures shown == old(shown)[i := Shown(dist as real, 0.0, duration)]
    {
      Translate(i, dist as real, 0.0, duration);
      positions := positions[i := dist];
    }

    /** `positionSlide` on the transform path. */
    method PositionSlide(i: int)
      requires 0 <= i < |positions| && |shown| == |positions|
      modifies this`positions, this`shown
      ensures positions == old(positions)[i := RestOffset(i, index, slideWidth)]
      ensures shown == old(shown)[i := Instant(RestOffset(i, index, slideWidth))]
    {
      Move(i, RestOffset(i, index, slideWidth), Millis(0));
    }

    /** `initSlides(true)` (also what `onresize` runs): take the container
        width, put every slide at its rest offset and, in continuous mode, the
        neighbours of the index at -width and +width. */
    method InitSlides(width: int)
      requires width > 0 && num == |list| >= 1 && 0 <= index < num
      requires |positions| == num && |shown| == num && |slides| == num
      requires (options.continuous.On? ==> num >= 3) && (forall i :: i in elements ==> 0 <= i < num)
      modifies this`slideWidth, this`positions, this`shown
      ensures Valid()
      ensures slideWidth == width
      ensures positions == InitialLayout(num, index, width, Wraps())
      ensures Mirrors(positions, shown)
      ensures Settled() && Aligned()
    {
      slideWidth := width;
      PositionSlides();
      ghost var p := positions;
      if Wraps() {
        PlaceNeighbours();
      }
      InitialLayoutMoves(p, positions, index, slideWidth, Wraps());
      InitialLayoutSettled(num, index, width, Wraps());
      SettledWholeWidths(InitialLayout(num, index, width, Wraps()), index, width, Wraps());
    }

    /** The continuous-mode step of `initSlides`: the slide before the index
        to -width, then the one after it to +width. */
    method PlaceNeighbours()
      requires num >= 1 && |positions| == num && 0 <= index < num && Mirrors(positions, shown)
      modifies this`positions, this`shown
      ensures positions == old(positions)[Circle(num, index - 1) := -slideWidth][Circle(num, index + 1) := slideWidth]
      ensures Mirrors(positions, shown)
    {
      var before, after := Circle(num, index - 1), Circle(num, index + 1);
      MirrorsMove(positions, shown, before, -slideWidth);
      Move(before, -slideWidth, Millis(0));
      MirrorsMove(positions, shown, after, slideWidth);
      Move(after, slideWidth, Millis(0));
    }

    /** The loop of `initSlides`: every slide to its rest offset. */
    method PositionSlides()
      requires |positions| == num && |shown| == num
      modifies this`positions, this`shown
      ensures |positions| == num && Mirrors(positions, shown)
      ensures forall k :: 0 <= k < num ==> positions[k] == RestOffset(k, index, slideWidth)
    {
      var i := 0;
      while i < num
        invariant 0 <= i <= num && |positions| == num && |shown| == num
        invariant forall k :: 0 <= k < i ==> positions[k] == RestOffset(k, index, slideWidth)
        invariant forall k :: 0 <= k < i ==> shown[k] == Instant(positions[k])
      {
        PositionSlide(i);
        i := i + 1;
      }
    }

    /** `updateEdgeClasses`. */
    method UpdateEdgeClasses(i: int)
      modifies this`leftEdge, this`rightEdge
      ensures leftEdge == (i == 0) && rightEdge == (i == num - 1)
    {
      leftEdge := i == 0;
      rightEdge := i == num - 1;
    }

    /** `iteratePreloadRange`: the indices handed to the callback, in order.
        The walk keeps its position `j` between steps: it moves by `i` at
        odd steps and by `-i` at even ones, and in continuous mode a `j`
        outside the range is replaced by its `circle`. */
    method IteratePreloadRange(center: int) returns (visits: seq<int>)
      requires 0 <= center < num
      ensures visits == Window(num, Wraps(), options.preloadRange, center)
    {
      var limit := Min(num, options.preloadRange * 2 + 1);
      var continuous := Wraps();
      var j := center;
      var i := 0;
      visits := [];
      while i < limit
        invariant 0 <= i <= limit
        invariant WalkAt(num, continuous, center, i, j, visits)
      {
        var step := if i % 2 == 0 then -(i as int) else i;
        ghost var j0 := j;
        j := j + step;
        if j < 0 || j >= num {
          if !continuous {
            WalkStep(num, continuous, center, i, j0, visits, step, j);
            i := i + 1;
            continue;
          }
          j := Circle(num, j);
        }
        WalkStep(num, continuous, center, i, j0, visits, step, j);
        visits := visits + [j];
        i := i + 1;
      }
    }

    /** `loadElement`: only an unset entry changes. */
    method LoadElement(i: int)
      requires Valid() && 0 <= i < num
      modifies this`elements, this`slides
      ensures Valid()
      ensures i in old(elements) ==> elements == old(elements) && slides == old(slides)
      ensures i !in old(elements) ==>
        elements == old(elements)[i := FirstLoad(old(slides)[i])] &&
        slides == old(slides)[i := old(slides)[i].(hasContent := true)]
    {
      if i !in elements {
        if slides[i].hasContent {
          elements := elements[i := if slides[i].errorClass then Failed else Done];
        } else {
          elements := elements[i := Loading];
          slides := slides[i := slides[i].(hasContent := true)];
        }
      }
    }

    /** `loadElements`: `loadElement` over the preload window of `center`. */
    method LoadElements(center: int)
      requires Valid() && 0 <= center < num
      modifies this`elements, this`slides
      ensures Valid()
      ensures Loaded(old(elements), old(slides), elements, slides, Window(num, Wraps(), options.preloadRange, center))
    {
      var visits := IteratePreloadRange(center);
      WindowShape(num, Wraps(), options.preloadRange, center);
      ghost var e0, d0 := elements, slides;
      var k := 0;
      while k < |visits|
        invariant 0 <= k <= |visits| && Valid()
        invariant Loaded(e0, d0, elements, slides, visits[..k])
      {
        ghost var e, d := elements, slides;
        LoadElement(visits[k]);
        LoadStep(e0, d0, e, d, elements, slides, visits, k);
        k := k + 1;
      }
      assert visits[..|visits|] == visits;
    }

    /** `unloadElements`: over the preload window of `oldIndex`, discard the
        content of every index far from `newIndex`. */
    method UnloadElements(oldIndex: int, newIndex: int)
      requires Valid() && 0 <= oldIndex < num && 0 <= newIndex < num
      modifies this`elements, this`slides
      ensures Valid()
      ensures Unloaded(old(elements), old(slides), elements, slides, Window(num, Wraps(), options.preloadRange, oldIndex),
                       options.preloadRange, newIndex)
    {
      var visits := IteratePreloadRange(oldIndex);
      WindowShape(num, Wraps(), options.preloadRange, oldIndex);
      ghost var e0, d0 := elements, slides;
      var range := options.preloadRange;
      var k := 0;
      while k < |visits|
        invariant 0 <= k <= |visits| && Valid()
        invariant Unloaded(e0, d0, elements, slides, visits[..k], range, newIndex)
      {
        ghost var e, d := elements, slides;
        var i := visits[k];
        var diff := Abs(i - newIndex);
        if diff > range && diff + range < num {
          slides := slides[i := slides[i].(hasContent := false)];
          elements := elements - {i};
        }
        UnloadStep(e0, d0, e, d, elements, slides, visits, k, range, newIndex);
        k := k + 1;
      }
      assert visits[..|visits|] == visits;
    }

    /** `oncomplete`: `target` is the index of the slide whose content
        finished, `None` when the event has no target or the target is no
        longer in a slide. */
    method OnComplete(target: Option<int>, isError: bool)
      requires Valid() && (target.Some? ==> 0 <= target.value < num)
      modifies this`elements, this`slides
      ensures Valid()
      ensures target.None? ==> elements == old(elements) && slides == old(slides)
      ensures target.Some? ==>
        elements == old(elements)[target.value := Completed(isError)] &&
        slides == old(slides)[target.value := old(slides)[target.value].(errorClass := old(slides)[target.value].errorClass || isError)]
    {
      if target.Some? {
        var i := target.value;
        if isError {
          slides := slides[i := slides[i].(errorClass := true)];
          elements := elements[i := Failed];
        } else {
          elements := elements[i := Done];
        }
      }
    }

    /** `onslide` with `handleSlide`: edge classes in linear mode, load the
        new window, unload the old one when enabled, then adopt the index. */
    method OnSlide(newIndex: int)
      requires Valid() && 0 <= newIndex < num
      modifies this`index, this`elements, this`slides, this`leftEdge, this`rightEdge
      ensures Valid()
      ensures index == newIndex
      ensures !Wraps() ==> leftEdge == (newIndex == 0) && rightEdge == (newIndex == num - 1)
      ensures Wraps() ==> leftEdge == old(leftEdge) && rightEdge == old(rightEdge)
      ensures Navigated(old(elements), old(slides), elements, slides,
                        Window(num, Wraps(), options.preloadRange, old(index)),
                        Window(num, Wraps(), options.preloadRange, newIndex),
                        options.unloadElements, options.preloadRange, newIndex)
    {
      ghost var e0, d0 := elements, slides;
      ghost var wOld := Window(num, Wraps(), options.preloadRange, index);
      ghost var wNew := Window(num, Wraps(), options.preloadRange, newIndex);
      WindowShape(num, Wraps(), options.preloadRange, index);
      if !Wraps() {
        UpdateEdgeClasses(newIndex);
      }
      LoadElements(newIndex);
      if options.unloadElements {
        ghost var e1, d1 := elements, slides;
        UnloadElements(index, newIndex);
        LoadThenUnload(e0, d0, e1, d1, elements, slides, num, Wraps(), options.preloadRange, index, newIndex);
      } else {
        LoadOnly(e0, d0, elements, slides, wOld, wNew, options.preloadRange, newIndex);
      }
      index := newIndex;
    }
  

    /** `slide` on the transform path. A move to the current index, or in a
        gallery of one slide, does nothing. Otherwise the strip moves as
        `MoveStrip` says and `onslide` runs for `circle(to)`. The transition
        loop of the source only ends when the re-expressed target differs
        from the current index, which the second precondition states. */
    method Slide(to: int, duration: int)
      requires Valid() && Aligned()
      requires to == index || num == 1 || PlanSlide(positions, slideWidth, Wraps(), index, to).target != index
      modifies this`positions, this`shown, this`index, this`elements, this`slides, this`leftEdge, this`rightEdge
      ensures Valid()
      ensures to == old(index) || num == 1 ==>
        positions == old(positions) && shown == old(shown) && index == old(index) &&
        elements == old(elements) && slides == old(slides) &&
        leftEdge == old(leftEdge) && rightEdge == old(rightEdge)
      ensures to != old(index) && num != 1 ==>
        index == Circle(num, to) &&
        SlidMoves(old(positions), old(shown), positions, shown, old(index),
                  PlanSlide(old(positions), slideWidth, Wraps(), old(index), to), slideWidth, Wraps(),
                  if duration == 0 then options.transitionDuration else duration) &&
        Navigated(old(elements), old(slides), elements, slides,
                  Window(num, Wraps(), options.preloadRange, old(index)),
                  Window(num, Wraps(), options.preloadRange, index),
                  options.unloadElements, options.preloadRange, index) &&
        (!Wraps() ==> leftEdge == (index == 0) && rightEdge == (index == num - 1)) &&
        (Wraps() ==> leftEdge == old(leftEdge) && rightEdge == old(rightEdge))
      ensures old(Settled()) && to != old(index) && (Wraps() ==> Abs(to - old(index)) < num) ==> Settled()
      ensures old(Aligned()) ==> Aligned()
    {
      if to == index || num == 1 {
        return;
      }
      var dur := if duration == 0 then options.transitionDuration else duration;
      ghost var p0, s0 := positions, shown;
      var target := MoveStrip(to, dur);
      if Layout.Settled(p0, index, slideWidth, Wraps()) && (Wraps() ==> Abs(to - index) < num) {
        SlideTarget(p0, s0, positions, shown, index, to, slideWidth, Wraps(), dur);
      }
      OnSlide(target);
    }

    /** `slide` as evidently intended: a `to` whose `circle` is the current
        index is no move at all, and any other `to` is taken as `circle(to)`,
        which is less than a turn from the index. Every call then
        ends, at `circle(to)`, and a settled strip stays settled. In
        continuous mode the strip must be settled, as every operation of
        this model except the as-written `slide` keeps it. */
    method SlideGuarded(to: int, duration: int)
      requires Valid() && Aligned() && (Wraps() ==> Settled())
      modifies this`positions, this`shown, this`index, this`elements, this`slides, this`leftEdge, this`rightEdge
      ensures Valid() && Aligned()
      ensures index == Circle(num, to)
      ensures Circle(num, to) == old(index) ==>
        positions == old(positions) && shown == old(shown) && elements == old(elements) && slides == old(slides) &&
        leftEdge == old(leftEdge) && rightEdge == old(rightEdge)
      ensures Circle(num, to) != old(index) ==>
        SlidMoves(old(positions), old(shown), positions, shown, old(index),
                  PlanSlide(old(positions), slideWidth, Wraps(), old(index), Circle(num, to)),
                  slideWidth, Wraps(), if duration == 0 then options.transitionDuration else duration) &&
        Navigated(old(elements), old(slides), elements, slides,
                  Window(num, Wraps(), options.preloadRange, old(index)),
                  Window(num, Wraps(), options.preloadRange, index),
                  options.unloadElements, options.preloadRange, index) &&
        (!Wraps() ==> leftEdge == (index == 0) && rightEdge == (index == num - 1)) &&
        (Wraps() ==> leftEdge == old(leftEdge) && rightEdge == old(rightEdge))
      ensures old(Settled()) ==> Settled()
    {
      CircleIdentity(num, index);
      if Circle(num, to) == index {
        return;
      }
      var near := Circle(num, to);
      CircleIdempotent(num, to);
      if Wraps() {
        PlanOnSettledStrip(positions, slideWidth, index, near);
      }
      Slide(near, duration);
    }

    /** The moves of `slide` on the transform path, up to `onslide`: the
        slides between the old index and the target move over at once, the
        old index and the target move over `dur`, and in continuous mode the
        slide behind the target is parked on the far side. `target` is
        `circle(to)`. */
    method MoveStrip(to: int, dur: int) returns (target: int)
      requires Valid() && to != index && num != 1
      requires PlanSlide(positions, slideWidth, Wraps(), index, to).target != index
      modifies this`positions, this`shown
      ensures Valid() && target == Circle(num, to)
      ensures old(Aligned()) ==> Aligned()
      ensures SlidMoves(old(positions), old(shown), positions, shown, index,
                        PlanSlide(old(positions), slideWidth, Wraps(), index, to), slideWidth, Wraps(), dur)
    {
      ghost var p0, s0 := positions, shown;
      var current := index;
      var w := slideWidth;
      var plan := PlanSlide(positions, w, Wraps(), current, to);
      var direction, t := plan.direction, plan.target;
      MoveBetween(Min(current, t), Max(current, t), w * direction);
      ghost var pm, sm := positions, shown;
      target := Circle(num, t);
      Move(current, w * direction, Millis(dur));
      Move(target, 0, Millis(dur));
      if Wraps() {
        CircleShift(num, t, -direction);
        Move(Circle(num, target - direction), -(w * direction), Millis(0));
      }
      SlideMovesDone(p0, s0, pm, sm, positions, shown, current, plan, w, Wraps(), dur);
      if WholeWidthsOf(p0, w) {
        SlideAligned(p0, s0, positions, shown, current, plan, w, Wraps(), dur);
      }
      PlanTargetCircle(p0, w, Wraps(), current, to);
    }

    /** The transition loop of `slide`: every slide strictly between `lo`
        and `hi` (taken `circle`) jumps to offset `x` at once. */
    method MoveBetween(lo: int, hi: int, x: int)
      requires lo < hi && num >= 1 && |positions| == num && |shown| == num
      modifies this`positions, this`shown
      ensures MovedBetween(old(positions), old(shown), positions, shown, lo, hi, x)
    {
      ghost var p0, s0 := positions, shown;
      var diff := hi - lo - 1;
      MovedBetweenNone(p0, s0, lo, x);
      while diff != 0
        invariant 0 <= diff <= hi - lo - 1 && |positions| == |shown| == |p0|
        invariant MovedBetween(p0, s0, positions, shown, lo, hi - diff, x)
      {
        diff := diff - 1;
        MovedBetweenStep(p0, s0, positions, shown, lo, hi - diff - 1, x);
        Move(Circle(num, hi - diff - 1), x, Millis(0));
      }
    }

    /** `prev`: one slide back, unless linear mode is at the first slide. */
    method Prev()
      requires Valid() && Aligned()
      modifies this`positions, this`shown, this`index, this`elements, this`slides, this`leftEdge, this`rightEdge
      ensures Valid() && Aligned()
      ensures !Wraps() && old(index) == 0 ==>
        positions == old(positions) && shown == old(shown) && index == old(index) &&
        elements == old(elements) && slides == old(slides) &&
        leftEdge == old(leftEdge) && rightEdge == old(rightEdge)
      ensures Wraps() || old(index) > 0 ==>
        index == Circle(num, old(index) - 1) &&
        SlidMoves(old(positions), old(shown), positions, shown, old(index),
                  PlanSlide(old(positions), slideWidth, Wraps(), old(index), old(index) - 1),
                  slideWidth, Wraps(), options.transitionDuration) &&
        Navigated(old(elements), old(slides), elements, slides,
                  Window(num, Wraps(), options.preloadRange, old(index)),
                  Window(num, Wraps(), options.preloadRange, index),
                  options.unloadElements, options.preloadRange, index) &&
        (!Wraps() ==> leftEdge == (index == 0) && rightEdge == (index == num - 1)) &&
        (Wraps() ==> leftEdge == old(leftEdge) && rightEdge == old(rightEdge))
      ensures old(Settled()) ==> Settled()
    {
      if Wraps() || index > 0 {
        StepTargetDiffers(positions, slideWidth, Wraps(), index, -1);
        Slide(index - 1, 0);
      }
    }

    /** `next`: one slide on, unless linear mode is at the last slide. */
    method Next()
      requires Valid() && Aligned()
      modifies this`positions, this`shown, this`index, this`elements, this`slides, this`leftEdge, this`rightEdge
      ensures Valid() && Aligned()
      ensures !Wraps() && old(index) == num - 1 ==>
        positions == old(positions) && shown == old(shown) && index == old(index) &&
        elements == old(elements) && slides == old(slides) &&
        leftEdge == old(leftEdge) && rightEdge == old(rightEdge)
      ensures Wraps() || old(index) < num - 1 ==>
        index == Circle(num, old(index) + 1) &&
        SlidMoves(old(positions), old(shown), positions, shown, old(index),
                  PlanSlide(old(positions), slideWidth, Wraps(), old(index), old(index) + 1),
                  slideWidth, Wraps(), options.transitionDuration) &&
        Navigated(old(elements), old(slides), elements, slides,
                  Window(num, Wraps(), options.preloadRange, old(index)),
                  Window(num, Wraps(), options.preloadRange, index),
                  options.unloadElements, options.preloadRange, index) &&
        (!Wraps() ==> leftEdge == (index == 0) && rightEdge == (index == num - 1)) &&
        (Wraps() ==> leftEdge == old(leftEdge) && rightEdge == old(rightEdge))
      ensures old(Settled()) ==> Settled()
    {
      if Wraps() || index < num - 1 {
        StepTargetDiffers(positions, slideWidth, Wraps(), index, 1);
        Slide(index + 1, 0);
      }
    }

    /** `add`: append items to the list. With more than two slides a
        suspended `continuous` switches on and the left-edge class goes; the
        right-edge and single-slide classes go in any case; every new item
        gets an empty slide element and an offset, and `initSlides(true)`
        then lays the whole strip out again for the container width. When
        the slide elements are the container's live collection, the first
        `addSlide` throws (`thrown`) after appending its element, and `add`
        stops there with the list and the classes already changed. */
    method Add(items: seq<Item>, width: int) returns (thrown: bool)
      requires Valid() && width > 0
      modifies this`list, this`num, this`options, this`leftEdge, this`rightEdge, this`single,
               this`slides, this`positions, this`shown, this`slideWidth
      ensures thrown <==> liveSlides && |items| > 0
      ensures list == old(list) + items && num == old(num) + |items| && index == old(index)
      ensures options ==
        if num > 2 && old(options).continuous.Suspended? then old(options).(continuous := On) else old(options)
      ensures leftEdge == (old(leftEdge) && !(num > 2 && old(options).continuous.Suspended?))
      ensures !rightEdge && !single
      ensures thrown ==>
        slides == old(slides) + [SlideDom(false, false)] &&
        positions == old(positions) && shown == old(shown) && slideWidth == old(slideWidth)
      ensures !thrown ==> Valid()
      ensures !thrown ==> slides == old(slides) + seq(|items|, _ => SlideDom(false, false))
      ensures !thrown ==> slideWidth == width && positions == InitialLayout(num, index, width, Wraps())
      ensures !thrown ==> Settled() && Aligned() && Mirrors(positions, shown)
      ensures !thrown && old(Settled()) && !Wraps() && width == old(slideWidth) ==> positions[..old(num)] == old(positions)
    {
      ghost var p0, w0 := positions, slideWidth;
      Append(items);
      thrown := AddSlides(num - |items|);
      if thrown {
        return;
      }
      Relayout(width, p0, w0);
    }

    /** The closing `initSlides(true)` of `add`: a linear strip that was
        settled at the same width keeps the offsets of its old slides. */
    method Relayout(width: int, ghost p0: seq<int>, ghost w0: int)
      requires width > 0 && num == |list| >= 1 && 0 <= index < num
      requires |positions| == num && |shown| == num && |slides| == num && 1 <= |p0| <= num
      requires (options.continuous.On? ==> num >= 3) && (forall i :: i in elements ==> 0 <= i < num)
      modifies this`slideWidth, this`positions, this`shown
      ensures Valid() && slideWidth == width && positions == InitialLayout(num, index, width, Wraps())
      ensures Settled() && Aligned() && Mirrors(positions, shown)
      ensures Layout.Settled(p0, index, w0, false) && !Wraps() && width == w0 ==> positions[..|p0|] == p0
    {
      InitSlides(width);
      if Layout.Settled(p0, index, w0, false) && !Wraps() && width == w0 {
        LinearSettledUnique(p0, index, w0);
        InitialLayoutGrow(|p0|, num, index, width);
      }
    }

    /** The list and class changes at the start of `add`. */
    method Append(items: seq<Item>)
      requires Valid()
      modifies this`list, this`num, this`options, this`leftEdge, this`rightEdge, this`single
      ensures list == old(list) + items && num == |list| && num >= 1 && 0 <= index < num
      ensures options ==
        if num > 2 && old(options).continuous.Suspended? then old(options).(continuous := On) else old(options)
      ensures options.continuous.On? ==> num >= 3
      ensures leftEdge == (old(leftEdge) && !(num > 2 && old(options).continuous.Suspended?))
      ensures !rightEdge && !single
    {
      list := list + items;
      num := |list|;
      if num > 2 && options.continuous.Suspended? {
        options := options.(continuous := On);
        leftEdge := false;
      }
      rightEdge, single := false, false;
    }

    /** The loop of `add`: `addSlide(i)` and `positionSlide(i)` for every
        new index `i` from `from`; the write to `positions[i]` grows the
        array by one. `addSlide` appends the element to the container and
        then pushes it onto the slide elements; on the live collection the
        append already shows up there and the push throws. */
    method AddSlides(from: int) returns (thrown: bool)
      requires 0 <= from <= num && |slides| == from && |positions| == from && |shown| == from
      modifies this`slides, this`positions, this`shown
      ensures thrown <==> liveSlides && from < num
      ensures thrown ==> slides == old(slides) + [SlideDom(false, false)] && positions == old(positions) && shown == old(shown)
      ensures !thrown ==> slides == old(slides) + seq(num - from, _ => SlideDom(false, false))
      ensures !thrown ==> |positions| == num && positions[..from] == old(positions)
      ensures !thrown ==> forall k :: from <= k < num ==> positions[k] == RestOffset(k, index, slideWidth)
      ensures !thrown ==> |shown| == num
    {
      ghost var d0, p0, s0 := slides, positions, shown;
      var i := from;
      while i < num
        invariant from <= i <= num && |slides| == i && |positions| == i && |shown| == i
        invariant liveSlides ==> i == from && positions == p0 && shown == s0
        invariant slides == d0 + seq(i - from, _ => SlideDom(false, false))
        invariant positions[..from] == p0
        invariant forall k :: from <= k < i ==> positions[k] == RestOffset(k, index, slideWidth)
      {
        slides := slides + [SlideDom(false, false)];
        if liveSlides {
          return true;
        }
        positions := positions + [RestOffset(i, index, slideWidth)];
        shown := shown + [Instant(RestOffset(i, index, slideWidth))];
        i := i + 1;
      }
      return false;
    }

    /** `ontouchstart`: remember where the touch started, forget whether the
        gesture was a scroll and empty the delta. */
    method OnTouchStart(start: Point)
      modifies this`touchStart, this`isScrolling, this`touchDelta
      ensures touchStart == Some(start) && isScrolling.None? && touchDelta.Unset?
    {
      touchStart := Some(start);
      isScrolling := None;
      touchDelta := Unset;
    }

    /** `ontouchmove` for a touch at (`x`, `y`). A pinch is ignored. Otherwise
        the delta from the start is recorded and, once per gesture, the
        gesture is taken for a vertical scroll when it moved more vertically
        than horizontally. A horizontal gesture drags the current slide and
        its neighbours (in linear mode with resistance at the first and last
        slide); a vertical one moves the current slide vertically unless the
        gallery is a carousel. */
    method OnTouchMove(x: real, y: real, touches: nat, scale: Option<real>)
      requires Valid() && touchStart.Some?
      modifies this`shown, this`touchDelta, this`isScrolling
      ensures Pinched(touches, scale) ==>
        shown == old(shown) && touchDelta == old(touchDelta) && isScrolling == old(isScrolling)
      ensures !Pinched(touches, scale) ==>
        var dx := x - touchStart.value.x;
        var dy := y - touchStart.value.y;
        isScrolling == (if old(isScrolling).None? then Some(RAbs(dx) < RAbs(dy)) else old(isScrolling)) &&
        (isScrolling == Some(false) ==>
          touchDelta == Delta(if Wraps() then dx else Resist(dx, slideWidth, AtBound(index, num, dx)), dy) &&
          DragShown(positions, old(shown), shown, index, touchDelta.x, Wraps())) &&
        (isScrolling == Some(true) ==>
          touchDelta == Delta(dx, dy) &&
          shown == if options.carousel then old(shown)
                   else old(shown)[index := Shown(0.0, dy + positions[index] as real, Millis(0))])
      ensures !Pinched(touches, scale) && isScrolling == Some(false) && !Wraps() && Settled() &&
              AtBound(index, num, x - touchStart.value.x) ==>
        RAbs(shown[index].x) < slideWidth as real
    {
      if Pinched(touches, scale) {
        return;
      }
      var start := touchStart.value;
      var dx, dy := x - start.x, y - start.y;
      touchDelta := Delta(dx, dy);
      if isScrolling.None? {
        isScrolling := Some(RAbs(dx) < RAbs(dy));
      }
      if !isScrolling.value {
        DragHorizontally(dx, dy);
      } else if !options.carousel {
        Translate(index, 0.0, dy + positions[index] as real, Millis(0));
      }
    }

    /** The horizontal branch of `ontouchmove`: in linear mode the delta is
        resisted at the first and last slide, then the current slide and its
        neighbours follow it. */
    method DragHorizontally(dx: real, dy: real)
      requires Valid()
      modifies this`shown, this`touchDelta
      ensures touchDelta == Delta(if Wraps() then dx else Resist(dx, slideWidth, AtBound(index, num, dx)), dy)
      ensures DragShown(positions, old(shown), shown, index, touchDelta.x, Wraps())
      ensures !Wraps() && Settled() && AtBound(index, num, dx) ==> RAbs(shown[index].x) < slideWidth as real
    {
      var x := dx;
      if !Wraps() {
        x := Resist(dx, slideWidth, AtBound(index, num, dx));
      }
      touchDelta := Delta(x, dy);
      ghost var s0 := shown;
      var indices := DragIndices(num, index, Wraps());
      DragSlides(indices, x);
      assert forall s :: s in indices <==> Dragged(num, index, Wraps(), s);
      if !Wraps() && Settled() {
        DragRigid(positions, s0, shown, index, slideWidth, false, x);
      }
    }

    /** The loop of `ontouchmove` over `indices`, taken from the end: each
        slide is shown at its offset plus `dx`, with no transition. */
    method DragSlides(indices: seq<int>, dx: real)
      requires |shown| == |positions|
      requires forall k :: 0 <= k < |indices| ==> 0 <= indices[k] < |positions|
      requires forall k, m :: 0 <= k < m < |indices| ==> indices[k] != indices[m]
      modifies this`shown
      ensures |shown| == |positions|
      ensures forall s :: 0 <= s < |shown| ==>
        shown[s] == if s in indices then Shown(dx + positions[s] as real, 0.0, Millis(0)) else old(shown)[s]
    {
      ghost var s0 := shown;
      var rest := indices;
      while |rest| > 0
        invariant rest == indices[..|rest|] && |shown| == |positions|
        invariant forall s :: 0 <= s < |shown| ==>
          shown[s] == if s in indices[|rest|..] then Shown(dx + positions[s] as real, 0.0, Millis(0)) else s0[s]
      {
        var i := rest[|rest| - 1];
        rest := rest[..|rest| - 1];
        assert indices[|rest|..] == [i] + indices[|rest| + 1..];
        Translate(i, dx + positions[i] as real, 0.0, Millis(0));
      }
    }

    /** `ontouchend`. A gesture not taken for a scroll commits when
        `Decide` says so: the strip moves one slide and `onslide` runs for
        the slide behind; otherwise the strip snaps back. A vertical gesture
        asks for the gallery to close (the result) when `CloseRequested`, and
        otherwise the current slide returns to 0. */
    method OnTouchEnd() returns (close: bool)
      requires Valid()
      modifies this`positions, this`shown, this`index, this`elements, this`slides, this`leftEdge, this`rightEdge
      ensures Valid()
      ensures isScrolling != Some(true) && Decide(touchDelta, old(index), num, Wraps()).Commit? ==>
        var d := Decide(touchDelta, old(index), num, Wraps()).direction;
        !close && index == Circle(num, old(index) - d) &&
        SwipedMoves(old(positions), old(shown), positions, shown, old(index), d, slideWidth, Wraps(),
                    EndDuration(touchDelta, options.transitionDuration, slideWidth)) &&
        Navigated(old(elements), old(slides), elements, slides,
                  Window(num, Wraps(), options.preloadRange, old(index)),
                  Window(num, Wraps(), options.preloadRange, index),
                  options.unloadElements, options.preloadRange, index)
      ensures isScrolling != Some(true) && Decide(touchDelta, old(index), num, Wraps()).SnapBack? ==>
        !close && index == old(index) && elements == old(elements) && slides == old(slides) &&
        SnappedBack(old(positions), old(shown), positions, shown, index, slideWidth, Wraps(),
                    EndDuration(touchDelta, options.transitionDuration, slideWidth))
      ensures isScrolling == Some(true) ==>
        close == CloseRequested(touchDelta, options.closeOnSwipeUpOrDown) &&
        index == old(index) && positions == old(positions) && elements == old(elements) && slides == old(slides) &&
        shown == if close then old(shown)
                 else old(shown)[index := Shown(0.0, 0.0, EndDuration(touchDelta, options.transitionDuration, slideWidth))]
      ensures !Wraps() && index != old(index) ==> leftEdge == (index == 0) && rightEdge == (index == num - 1)
      ensures Wraps() || index == old(index) ==> leftEdge == old(leftEdge) && rightEdge == old(rightEdge)
      ensures old(Settled()) ==> Settled()
      ensures old(Aligned()) ==> Aligned()
    {
      var dur := EndDuration(touchDelta, options.transitionDuration, slideWidth);
      close := false;
      if isScrolling != Some(true) {
        EndSwipe(dur);
      } else if CloseRequested(touchDelta, options.closeOnSwipeUpOrDown) {
        close := true;
      } else {
        Translate(index, 0.0, 0.0, dur);
      }
    }

    /** The horizontal branch of `ontouchend`: commit or snap back as
        `Decide` says. */
    method EndSwipe(dur: Duration)
      requires Valid()
      modifies this`positions, this`shown, this`index, this`elements, this`slides, this`leftEdge, this`rightEdge
      ensures Valid()
      ensures Decide(touchDelta, old(index), num, Wraps()).Commit? ==>
        var d := Decide(touchDelta, old(index), num, Wraps()).direction;
        index == Circle(num, old(index) - d) &&
        SwipedMoves(old(positions), old(shown), positions, shown, old(index), d, slideWidth, Wraps(), dur) &&
        Navigated(old(elements), old(slides), elements, slides,
                  Window(num, Wraps(), options.preloadRange, old(index)),
                  Window(num, Wraps(), options.preloadRange, index),
                  options.unloadElements, options.preloadRange, index)
      ensures Decide(touchDelta, old(index), num, Wraps()).SnapBack? ==>
        index == old(index) && elements == old(elements) && slides == old(slides) &&
        SnappedBack(old(positions), old(shown), positions, shown, index, slideWidth, Wraps(), dur)
      ensures !Wraps() && index != old(index) ==> leftEdge == (index == 0) && rightEdge == (index == num - 1)
      ensures Wraps() || index == old(index) ==> leftEdge == old(leftEdge) && rightEdge == old(rightEdge)
      ensures old(Settled()) ==> Settled()
      ensures old(Aligned()) ==> Aligned()
    {
      var o := Decide(touchDelta, index, num, Wraps());
      if o.Commit? {
        CommitSwipe(o.direction, dur);
      } else {
        MoveBack(dur);
      }
    }

    /** The committing branch of `ontouchend`: the moves of a swipe by one
        slide in direction `d`, then `onslide` for the slide behind. */
    method CommitSwipe(d: int, dur: Duration)
      requires Valid() && (d == 1 || d == -1) && (!Wraps() ==> 0 <= index - d < num)
      modifies this`positions, this`shown, this`index, this`elements, this`slides, this`leftEdge, this`rightEdge
      ensures Valid() && index == Circle(num, old(index) - d)
      ensures SwipedMoves(old(positions), old(shown), positions, shown, old(index), d, slideWidth, Wraps(), dur)
      ensures Navigated(old(elements), old(slides), elements, slides,
                        Window(num, Wraps(), options.preloadRange, old(index)),
                        Window(num, Wraps(), options.preloadRange, index),
                        options.unloadElements, options.preloadRange, index)
      ensures !Wraps() ==> leftEdge == (index == 0) && rightEdge == (index == num - 1)
      ensures Wraps() ==> leftEdge == old(leftEdge) && rightEdge == old(rightEdge)
      ensures old(Settled()) ==> Settled()
      ensures old(Aligned()) ==> Aligned()
    {
      MoveSwiped(d, dur);
      OnSlide(Circle(num, index - d));
    }

    /** The moves of a committed swipe, in source order. */
    method MoveSwiped(d: int, dur: Duration)
      requires Valid() && (d == 1 || d == -1) && (!Wraps() ==> 0 <= index - d < num)
      modifies this`positions, this`shown
      ensures |positions| == |shown| == num
      ensures SwipedMoves(old(positions), old(shown), positions, shown, index, d, slideWidth, Wraps(), dur)
      ensures old(Settled()) ==> Layout.Settled(positions, Circle(num, index - d), slideWidth, Wraps())
      ensures old(Aligned()) ==> Aligned()
    {
      ghost var p0, s0 := positions, shown;
      var w, i := slideWidth, index;
      if Wraps() {
        Move(Circle(num, i + d), w * d, Millis(0));
        Move(Circle(num, i - 2 * d), -(w * d), Millis(0));
      } else if 0 <= i + d < num {
        Move(i + d, w * d, Millis(0));
      }
      ghost var pm, sm := positions, shown;
      assert AheadMoved(p0, s0, pm, sm, i, d, w, Wraps());
      Move(i, positions[i] + w * d, dur);
      var back := Circle(num, i - d);
      Move(back, positions[back] + w * d, dur);
      SwipeMovesDone(p0, s0, pm, sm, positions, shown, i, d, w, Wraps(), dur);
      if Layout.Settled(p0, i, w, Wraps()) {
        SwipeKeepsSettled(p0, s0, positions, shown, i, d, w, Wraps(), dur);
      }
      if WholeWidthsOf(p0, w) {
        SwipeAligned(p0, s0, positions, shown, i, d, w, Wraps(), dur);
      }
    }

    /** The snapping-back branch of `ontouchend`: the slide before the index
        to -width, the index to 0 and the slide after it to +width (in linear
        mode only the neighbours that exist). */
    method MoveBack(dur: Duration)
      requires Valid()
      modifies this`positions, this`shown
      ensures |positions| == |shown| == num
      ensures SnappedBack(old(positions), old(shown), positions, shown, index, slideWidth, Wraps(), dur)
      ensures old(Settled()) ==> positions == old(positions)
      ensures old(Aligned()) ==> Aligned()
    {
      ghost var p0, s0 := positions, shown;
      var w := slideWidth;
      if Wraps() {
        Move(Circle(num, index - 1), -w, dur);
        Move(index, 0, dur);
        Move(Circle(num, index + 1), w, dur);
      } else {
        if index > 0 {
          Move(index - 1, -w, dur);
        }
        Move(index, 0, dur);
        if index < num - 1 {
          Move(index + 1, w, dur);
        }
      }
      SnapMovesDone(p0, s0, positions, shown, index, w, Wraps(), dur);
      if Layout.Settled(p0, index, w, Wraps()) {
        SnapBackRestores(p0, s0, positions, shown, index, w, Wraps(), dur);
      }
      SnapAligned(p0, s0, positions, shown, index, w, Wraps(), dur);
    }

    /** `ontouchcancel` (and `onmouseup`): with a touch in progress, end it
        as `ontouchend` does and forget its start. */
    method OnTouchCancel() returns (close: bool)
      requires Valid()
      modifies this`positions, this`shown, this`index, this`elements, this`slides, this`leftEdge, this`rightEdge,
               this`touchStart
      ensures Valid() && touchStart.None?
      ensures old(touchStart).None? ==>
        !close && positions == old(positions) && shown == old(shown) && index == old(index) &&
        elements == old(elements) && slides == old(slides) &&
        leftEdge == old(leftEdge) && rightEdge == old(rightEdge)
      ensures old(touchStart).Some? && isScrolling != Some(true) && Decide(touchDelta, old(index), num, Wraps()).Commit? ==>
        var d := Decide(touchDelta, old(index), num, Wraps()).direction;
        !close && index == Circle(num, old(index) - d) &&
        SwipedMoves(old(positions), old(shown), positions, shown, old(index), d, slideWidth, Wraps(),
                    EndDuration(touchDelta, options.transitionDuration, slideWidth)) &&
        Navigated(old(elements), old(slides), elements, slides,
                  Window(num, Wraps(), options.preloadRange, old(index)),
                  Window(num, Wraps(), options.preloadRange, index),
                  options.unloadElements, options.preloadRange, index)
      ensures old(touchStart).Some? && isScrolling != Some(true) && Decide(touchDelta, old(index), num, Wraps()).SnapBack? ==>
        !close && index == old(index) && elements == old(elements) && slides == old(slides) &&
        SnappedBack(old(positions), old(shown), positions, shown, index, slideWidth, Wraps(),
                    EndDuration(touchDelta, options.transitionDuration, slideWidth))
      ensures old(touchStart).Some? && isScrolling == Some(true) ==>
        close == CloseRequested(touchDelta, options.closeOnSwipeUpOrDown) &&
        index == old(index) && positions == old(positions) && elements == old(elements) && slides == old(slides) &&
        shown == if close then old(shown)
                 else old(shown)[index := Shown(0.0, 0.0, EndDuration(touchDelta, options.transitionDuration, slideWidth))]
      ensures !Wraps() && index != old(index) ==> leftEdge == (index == 0) && rightEdge == (index == num - 1)
      ensures Wraps() || index == old(index) ==> leftEdge == old(leftEdge) && rightEdge == old(rightEdge)
      ensures old(Settled()) ==> Settled()
      ensures old(Aligned()) ==> Aligned()
    {
      close := false;
      if touchStart.Some? {
        close := OnTouchEnd();
        touchStart := None;
      }
    }
  }
}
