/** The `positions` table on the transform path: what a settled strip of
    slides looks like, which moves `slide` and `ontouchend` make, and the
    fact that those moves leave the strip settled around the new index. */
module Layout {
  import opened IndexArith

  /** A CSS transition duration as the source writes it: a number of
      milliseconds, or `NaN` (`ontouchend` after a touch without movement). */
  datatype Duration = Millis(ms: int) | NotANumber

  /** The translate a slide was last given: offsets in pixels and the
      transition duration. */
  datatype Shown = Shown(x: real, y: real, duration: Duration)

  /** A horizontal translate with no transition. */
  function Instant(x: int): Shown {
    Shown(x as real, 0.0, Millis(0))
  }

  /** `positionSlide`: a slide rests one width to the left of the current
      index, one width to the right, or at 0 when it is the current one. */
  function RestOffset(i: int, index: int, w: int): (r: int)
    ensures w > 0 ==> (r == 0 <==> i == index) && (r < 0 <==> i < index)
    ensures i != index ==> Abs(r) == Abs(w)
  {
    if index > i then -w else if index < i then w else 0
  }

  /** A strip settled around `index`: the active slide at 0 and, in
      continuous mode, its two neighbours at -w and +w with every other slide
      parked at one of them; in linear mode every slide at its rest offset. */
  predicate Settled(p: seq<int>, index: int, w: int, wraps: bool) {
    0 <= index < |p| && p[index] == 0 &&
    (wraps ==>
      |p| >= 3 && p[Circle(|p|, index - 1)] == -w && p[Circle(|p|, index + 1)] == w &&
      forall i :: 0 <= i < |p| && i != index ==> p[i] == w || p[i] == -w) &&
    (!wraps ==> forall i :: 0 <= i < |p| ==> p[i] == RestOffset(i, index, w))
  }

  /** The offsets `initSlides` writes: `positionSlide` for every slide, then,
      in continuous mode, the slide before the index at -w and the one after
      it at +w (the later move wins). */
  function InitialLayout(num: nat, index: int, w: int, wraps: bool): seq<int>
    requires num >= 1
  {
    seq(num, i requires 0 <= i < num =>
      if wraps && i == Circle(num, index + 1) then w
      else if wraps && i == Circle(num, index - 1) then -w
      else RestOffset(i, index, w))
  }

  /** `initSlides` leaves the strip settled around the current index. */
  lemma InitialLayoutSettled(num: nat, index: int, w: int, wraps: bool)
    requires 0 <= index < num && w > 0 && (wraps ==> num >= 3)
    ensures |InitialLayout(num, index, w, wraps)| == num
    ensures Settled(InitialLayout(num, index, w, wraps), index, w, wraps)
  {
    var p := InitialLayout(num, index, w, wraps);
    if wraps {
      CircleIdentity(num, index);
      CircleApart(num, index, index + 1);
      CircleApart(num, index, index - 1);
      CircleApart(num, index - 1, index + 1);
    }
  }

  /** The moves of `initSlides`, in order, give `InitialLayout`. */
  lemma InitialLayoutMoves(p: seq<int>, q: seq<int>, index: int, w: int, wraps: bool)
    requires 0 <= index < |p| && forall k :: 0 <= k < |p| ==> p[k] == RestOffset(k, index, w)
    requires wraps ==> q == p[Circle(|p|, index - 1) := -w][Circle(|p|, index + 1) := w]
    requires !wraps ==> q == p
    ensures q == InitialLayout(|p|, index, w, wraps)
  {
  }

  /** Every slide shows, with no transition, the offset recorded for it. */
  predicate Mirrors(p: seq<int>, s: seq<Shown>) {
    |s| == |p| && forall i :: 0 <= i < |p| ==> s[i] == Instant(p[i])
  }

  /** An instant move keeps the translates mirroring the offsets. */
  lemma MirrorsMove(p: seq<int>, s: seq<Shown>, c: int, x: int)
    requires Mirrors(p, s) && 0 <= c < |p|
    ensures Mirrors(p[c := x], s[c := Shown(x as real, 0.0, Millis(0))])
  {
  }

  /** Every offset is a whole number of widths `w`. */
  predicate WholeWidthsOf(p: seq<int>, w: int)
    requires w > 0
  {
    forall i :: 0 <= i < |p| ==> p[i] % w == 0
  }

  /** A settled strip holds whole slide widths only. */
  lemma SettledWholeWidths(p: seq<int>, index: int, w: int, wraps: bool)
    requires w > 0 && Settled(p, index, w, wraps)
    ensures WholeWidthsOf(p, w)
  {
    WholeWidths(w, 0, 1);
  }

  /** In linear mode the settled strip around an index is unique: it is the
      one `initSlides` writes. */
  lemma LinearSettledUnique(p: seq<int>, index: int, w: int)
    requires Settled(p, index, w, false)
    ensures p == InitialLayout(|p|, index, w, false)
  {
  }

  /** The slides strictly between `lo` and `hi`, wrapped into [0, num). */
  function Between(num: int, lo: int, hi: int): set<int>
    requires num >= 1
  {
    set k | lo < k < hi :: Circle(num, k)
  }

  lemma BetweenStep(num: int, lo: int, m: int)
    requires num >= 1 && lo < m
    ensures Between(num, lo, m + 1) == Between(num, lo, m) + {Circle(num, m)}
  {
    assert Circle(num, m) in Between(num, lo, m + 1);
  }

  lemma BetweenEmpty(num: int, lo: int)
    requires num >= 1
    ensures Between(num, lo, lo + 1) == {}
  {
  }

  /** Between two in-range indices nothing wraps. */
  lemma BetweenInRange(num: int, lo: int, hi: int, s: int)
    requires 1 <= num && 0 <= lo <= hi <= num
    ensures s in Between(num, lo, hi) <==> lo < s < hi
  {
    if lo < s < hi {
      CircleIdentity(num, s);
    }
    if s in Between(num, lo, hi) {
      var k :| lo < k < hi && Circle(num, k) == s;
      CircleIdentity(num, k);
    }
  }

  /** Direction and re-expressed target of `slide(to)` on the transform path.
      The direction is 1 for a move backward and -1 forward; in continuous
      mode it is read off the target's current offset, and the target is
      moved a whole turn when that disagrees with the plain comparison. On a
      strip of whole widths the division is exact, as the source's
      floating-point division then is. */
  datatype SlidePlan = SlidePlan(direction: int, target: int)

  function PlanSlide(p: seq<int>, w: int, wraps: bool, index: int, to: int): (plan: SlidePlan)
    requires |p| >= 1 && w > 0
    ensures !wraps ==>
      0 <= plan.target < |p| && (plan.direction == 1 || plan.direction == -1) &&
      (plan.direction == 1 <==> index > plan.target)
    ensures wraps && plan.direction == (if index > to then 1 else -1) ==> plan.target == to
  {
    var num := |p|;
    var t := if wraps then to else Circle(num, to);
    var natural := if index > t then 1 else -1;
    if wraps then
      var d := -(p[Circle(num, t)] / w);
      SlidePlan(d, if d != natural then -d * num + t else t)
    else
      SlidePlan(natural, t)
  }

  /** As written, `slide(to)` in linear mode with a `to` that is not the
      current index but whose `circle` is re-expresses the target as the
      index itself, so the counter of the transition loop starts at -1 and,
      counting down, never reaches the 0 that ends `while (diff)`. */
  lemma LinearWrapNeverEnds(p: seq<int>, w: int, index: int, to: int)
    requires w > 0 && 0 <= index < |p| && Circle(|p|, to) == index
    ensures PlanSlide(p, w, false, index, to).target == index
    ensures Abs(index - PlanSlide(p, w, false, index, to).target) - 1 == -1
  {
  }

  /** On the last of five slides, `slide(-1)` is such a call. */
  lemma LastOfFiveBack(p: seq<int>, w: int)
    requires |p| == 5 && w > 0
    ensures Circle(5, -1) == 4 && PlanSlide(p, w, false, 4, -1).target == 4
  {
    ModUnique(-1, -1, 4, 5);
  }

  /** As written, continuous `slide(index + num)` on a settled strip reads a
      direction of 0 off the current slide, re-expresses the target as
      `index + num`, and so moves every slide to offset 0: the strip is no
      longer settled. */
  lemma WholeTurnFlattens(p0: seq<int>, s0: seq<Shown>, p1: seq<int>, s1: seq<Shown>, index: int, w: int, dur: int)
    requires w > 0 && Settled(p0, index, w, true)
    requires SlidMoves(p0, s0, p1, s1, index, PlanSlide(p0, w, true, index, index + |p0|), w, true, dur)
    ensures PlanSlide(p0, w, true, index, index + |p0|) == SlidePlan(0, index + |p0|)
    ensures forall s :: 0 <= s < |p0| ==> p1[s] == 0
  {
    var num := |p0|;
    CircleTurns(num, index, 1);
    CircleIdentity(num, index);
    ModUnique(0, 0, 0, w);
    var plan := PlanSlide(p0, w, true, index, index + num);
    assert plan == SlidePlan(0, index + num);
    forall s | 0 <= s < num
      ensures p1[s] == 0
    {
      SlidOffset(p0, s0, p1, s1, index, plan, w, true, dur, s);
      if s > index {
        CircleIdentity(num, s);
        assert s in Between(num, index, index + num);
      } else if s < index {
        CircleTurns(num, s, 1);
        CircleIdentity(num, s);
        assert s in Between(num, index, index + num);
      }
    }
  }

  /** As written, continuous mode can reach a `slide` whose transition loop
      never ends: on five slides settled at 0, `slide(5)` flattens the strip,
      a swipe towards the next slide then leaves slide 1 current at -w, and
      `slide(6)` reads a direction of 1 off it and re-expresses the target
      as 1, the current index. */
  lemma ContinuousHang(p0: seq<int>, s0: seq<Shown>, p1: seq<int>, s1: seq<Shown>,
                       p2: seq<int>, s2: seq<Shown>, dur: int, swipe: Duration)
    requires p0 == [0, 300, 300, 300, -300]
    requires SlidMoves(p0, s0, p1, s1, 0, PlanSlide(p0, 300, true, 0, 5), 300, true, dur)
    requires SwipedMoves(p1, s1, p2, s2, 0, -1, 300, true, swipe)
    ensures Settled(p0, 0, 300, true) && Circle(5, 5) == 0 && Circle(5, 0 - -1) == 1
    ensures p2 == [-300, -300, 300, 0, -300]
    ensures PlanSlide(p2, 300, true, 1, 6).target == 1
  {
    WholeTurnFlattens(p0, s0, p1, s1, 0, 300, dur);
    ModUnique(5, 1, 0, 5);
    ModUnique(1, 0, 1, 5);
    ModUnique(2, 0, 2, 5);
    ModUnique(-1, -1, 4, 5);
    ModUnique(6, 1, 1, 5);
    ModUnique(-300, -1, 0, 300);
    forall s | 0 <= s < 5
      ensures p2[s] == [-300, -300, 300, 0, -300][s]
    {
      SwipedOffset(p1, s1, p2, s2, 0, -1, 300, true, swipe, s);
    }
  }

  /** What an operation does to one slide: leaves it alone, or moves it to
      `offset` with a transition of `duration`. */
  datatype Write = Keep | Put(offset: int, duration: Duration)

  /** Slide `s` after a `Write` relative to the offsets `p0` and translates
      `s0` it had before. */
  predicate Written(p0: seq<int>, s0: seq<Shown>, p1: seq<int>, s1: seq<Shown>, s: int, wr: Write)
    requires 0 <= s < |p0| == |s0| == |p1| == |s1|
  {
    match wr
    case Keep => p1[s] == p0[s] && s1[s] == s0[s]
    case Put(x, dur) => p1[s] == x && s1[s] == Shown(x as real, 0.0, dur)
  }

  /** The move `slide` makes to slide `s`, in source order (a later move of
      the same slide wins): the slides strictly between the old index and
      the target go to `w * direction` at once, the old index follows over
      `dur`, the target comes to 0 over `dur`, and in continuous mode the
      slide behind the target is parked at `-w * direction`. */
  function SlideWrite(num: int, index: int, plan: SlidePlan, w: int, wraps: bool, dur: int, s: int): Write
    requires num >= 1
  {
    var d := plan.direction;
    var t := plan.target;
    if wraps && s == Circle(num, t - d) then Put(-(w * d), Millis(0))
    else if s == Circle(num, t) then Put(0, Millis(dur))
    else if s == index then Put(w * d, Millis(dur))
    else if s in Between(num, Min(index, t), Max(index, t)) then Put(w * d, Millis(0))
    else Keep
  }

  /** A one-step move (`prev`, `next`) is never re-expressed as the current
      index, so the transition loop of `slide` always ends for it. */
  lemma StepTargetDiffers(p: seq<int>, w: int, wraps: bool, index: int, k: int)
    requires |p| >= 2 && w > 0 && 0 <= index < |p| && (k == 1 || k == -1)
    requires !wraps ==> 0 <= index + k < |p|
    ensures PlanSlide(p, w, wraps, index, index + k).target != index
  {
    var num := |p|;
    if wraps {
      var d := PlanSlide(p, w, wraps, index, index + k).direction;
      // A turn re-expresses the target as index + k - d * num, and d * num
      // is 0 or at least num >= 2 in size.
      if d >= 1 {
        MulAtLeast(d, num);
      } else if d <= -1 {
        MulAtLeast(-d, num);
        assert (-d) * num == -(d * num);
      }
    } else {
      CircleIdentity(num, index + k);
    }
  }

  /** Offsets that are whole widths stay whole widths. */
  lemma WholeWidths(w: int, a: int, d: int)
    requires w > 0 && a % w == 0
    ensures (w * d) % w == 0 && (a + w * d) % w == 0 && (-(w * d)) % w == 0
  {
    ModUnique(w * d, d, 0, w);
    ModUnique(-(w * d), -d, 0, w);
    AddMultiple(a, w, d);
  }

  /** The offsets and translates after `slide`: every slide as `SlideWrite`
      leaves it. */
  predicate SlidMoves(p0: seq<int>, s0: seq<Shown>, p1: seq<int>, s1: seq<Shown>,
                      index: int, plan: SlidePlan, w: int, wraps: bool, dur: int)
    requires |p0| >= 1
  {
    |s0| == |p0| && |p1| == |p0| && |s1| == |p0| &&
    forall s :: 0 <= s < |p0| ==> Written(p0, s0, p1, s1, s, SlideWrite(|p0|, index, plan, w, wraps, dur, s))
  }

  /** The state inside `slide`'s transition loop: the slides strictly
      between `lo` and `hi` have been moved to `x` with no transition, the
      others are as they were. */
  predicate MovedBetween(p0: seq<int>, s0: seq<Shown>, p: seq<int>, s: seq<Shown>, lo: int, hi: int, x: int)
    requires |p0| >= 1
  {
    |s0| == |p0| && |p| == |p0| && |s| == |p0| &&
    forall k :: 0 <= k < |p0| ==>
      p[k] == (if k in Between(|p0|, lo, hi) then x else p0[k]) &&
      s[k] == (if k in Between(|p0|, lo, hi) then Shown(x as real, 0.0, Millis(0)) else s0[k])
  }

  lemma MovedBetweenNone(p0: seq<int>, s0: seq<Shown>, lo: int, x: int)
    requires |p0| >= 1 && |s0| == |p0|
    ensures MovedBetween(p0, s0, p0, s0, lo, lo + 1, x)
  {
    BetweenEmpty(|p0|, lo);
  }

  /** One turn of the transition loop moves the next slide up. */
  lemma MovedBetweenStep(p0: seq<int>, s0: seq<Shown>, p: seq<int>, s: seq<Shown>, lo: int, m: int, x: int)
    requires |p0| >= 1 && lo < m && MovedBetween(p0, s0, p, s, lo, m, x)
    ensures MovedBetween(p0, s0, p[Circle(|p0|, m) := x], s[Circle(|p0|, m) := Shown(x as real, 0.0, Millis(0))], lo, m + 1, x)
  {
    BetweenStep(|p0|, lo, m);
  }

  /** The loop followed by the three final moves of `slide` is `SlidMoves`. */
  lemma SlideMovesDone(p0: seq<int>, s0: seq<Shown>, pm: seq<int>, sm: seq<Shown>, p1: seq<int>, s1: seq<Shown>,
                       index: int, plan: SlidePlan, w: int, wraps: bool, dur: int)
    requires |p0| >= 1 && 0 <= index < |p0|
    requires MovedBetween(p0, s0, pm, sm, Min(index, plan.target), Max(index, plan.target), w * plan.direction)
    requires var num := |p0|;
      var x := w * plan.direction;
      var c := Circle(num, plan.target);
      var p2 := pm[index := x][c := 0];
      var s2 := sm[index := Shown(x as real, 0.0, Millis(dur))][c := Shown(0.0, 0.0, Millis(dur))];
      var b := Circle(num, plan.target - plan.direction);
      p1 == (if wraps then p2[b := -x] else p2) &&
      s1 == (if wraps then s2[b := Shown((-x) as real, 0.0, Millis(0))] else s2)
    ensures SlidMoves(p0, s0, p1, s1, index, plan, w, wraps, dur)
  {
    var num := |p0|;
    var c := Circle(num, plan.target);
    var b := Circle(num, plan.target - plan.direction);
    forall k | 0 <= k < num
      ensures Written(p0, s0, p1, s1, k, SlideWrite(num, index, plan, w, wraps, dur, k))
    {
      if wraps && k == b {
      } else if k == c {
      } else if k == index {
      } else {
        assert p1[k] == pm[k] && s1[k] == sm[k];
      }
    }
  }

  /** `slide` keeps every offset a whole number of widths. */
  lemma SlideAligned(p0: seq<int>, s0: seq<Shown>, p1: seq<int>, s1: seq<Shown>,
                     index: int, plan: SlidePlan, w: int, wraps: bool, dur: int)
    requires |p0| >= 1 && w > 0 && SlidMoves(p0, s0, p1, s1, index, plan, w, wraps, dur)
    requires WholeWidthsOf(p0, w)
    ensures WholeWidthsOf(p1, w)
  {
    WholeWidths(w, 0, plan.direction);
    forall i | 0 <= i < |p1|
      ensures p1[i] % w == 0
    {
      SlidOffset(p0, s0, p1, s1, index, plan, w, wraps, dur, i);
    }
  }

  /** On a settled continuous strip a target less than a turn away is
      re-expressed as a distinct target, one step per slide, whose `circle`
      is that of `to`, and the direction agrees with it. */
  lemma PlanOnSettledStrip(p: seq<int>, w: int, index: int, to: int)
    requires w > 0 && Settled(p, index, w, true)
    requires to != index && Abs(to - index) < |p|
    ensures var plan := PlanSlide(p, w, true, index, to);
      (plan.direction == 1 || plan.direction == -1) &&
      plan.target != index && Abs(index - plan.target) < |p| &&
      (index > plan.target <==> plan.direction == 1) &&
      Circle(|p|, plan.target) == Circle(|p|, to)
  {
    var num := |p|;
    var c := Circle(num, to);
    CircleIdentity(num, index);
    CircleApart(num, to, index);
    ModUnique(w, 1, 0, w);
    ModUnique(-w, -1, 0, w);
    var plan := PlanSlide(p, w, true, index, to);
    if index > to && plan.direction == -1 {
      assert plan.target == to + num;
      CircleTurns(num, to, 1);
    } else if index < to && plan.direction == 1 {
      assert plan.target == to + (-1) * num;
      CircleTurns(num, to, -1);
    }
  }

  /** `SlideWrite` as seen in the offsets: slide `s` ends at the offset the
      write puts it at, or where it was. */
  lemma SlidOffset(p0: seq<int>, s0: seq<Shown>, p1: seq<int>, s1: seq<Shown>,
                   index: int, plan: SlidePlan, w: int, wraps: bool, dur: int, s: int)
    requires |p0| >= 1 && SlidMoves(p0, s0, p1, s1, index, plan, w, wraps, dur) && 0 <= s < |p0|
    ensures var wr := SlideWrite(|p0|, index, plan, w, wraps, dur, s);
      p1[s] == if wr.Keep? then p0[s] else wr.offset
  {
    assert Written(p0, s0, p1, s1, s, SlideWrite(|p0|, index, plan, w, wraps, dur, s));
  }

  /** With a unit direction, `slide` puts every slide it touches at -w,
      0 or +w, the 0 only at the target, and it always touches the old
      index. */
  lemma SlideWriteValues(num: int, index: int, plan: SlidePlan, w: int, wraps: bool, dur: int, s: int)
    requires num >= 1 && (plan.direction == 1 || plan.direction == -1)
    ensures var wr := SlideWrite(num, index, plan, w, wraps, dur, s);
      (wr.Keep? ==> s != index) &&
      (wr.Put? && s != Circle(num, plan.target) ==> wr.offset == w || wr.offset == -w)
  {
  }

  lemma SlideWriteTarget(num: int, index: int, plan: SlidePlan, w: int, dur: int)
    requires num >= 1 && Circle(num, plan.target - plan.direction) != Circle(num, plan.target)
    ensures SlideWrite(num, index, plan, w, true, dur, Circle(num, plan.target)) == Put(0, Millis(dur))
  {
  }

  lemma SlideWriteAhead(num: int, index: int, plan: SlidePlan, w: int, dur: int, ahead: int)
    requires num >= 1
    requires ahead != Circle(num, plan.target - plan.direction) && ahead != Circle(num, plan.target)
    requires ahead == index || ahead in Between(num, Min(index, plan.target), Max(index, plan.target))
    ensures SlideWrite(num, index, plan, w, true, dur, ahead).Put?
    ensures SlideWrite(num, index, plan, w, true, dur, ahead).offset == w * plan.direction
  {
  }

  /** After `slide` with a unit direction on a strip whose slides other than
      the old index sit at -w or +w, every slide but the target sits at -w or
      +w. */
  lemma SlideParksOthers(p0: seq<int>, s0: seq<Shown>, p1: seq<int>, s1: seq<Shown>,
                         index: int, plan: SlidePlan, w: int, dur: int)
    requires |p0| >= 1 && (plan.direction == 1 || plan.direction == -1)
    requires forall i :: 0 <= i < |p0| && i != index ==> p0[i] == w || p0[i] == -w
    requires SlidMoves(p0, s0, p1, s1, index, plan, w, true, dur)
    ensures forall s :: 0 <= s < |p0| && s != Circle(|p0|, plan.target) ==> p1[s] == w || p1[s] == -w
  {
    forall s | 0 <= s < |p0| && s != Circle(|p0|, plan.target)
      ensures p1[s] == w || p1[s] == -w
    {
      SlideWriteValues(|p0|, index, plan, w, true, dur, s);
      SlidOffset(p0, s0, p1, s1, index, plan, w, true, dur, s);
    }
  }

  /** After `slide` to a target less than a turn away, a settled continuous
      strip is settled around `circle(to)`. */
  lemma SlideKeepsContinuousSettled(p0: seq<int>, s0: seq<Shown>, p1: seq<int>, s1: seq<Shown>,
                                    index: int, to: int, w: int, dur: int)
    requires w > 0 && Settled(p0, index, w, true)
    requires to != index && Abs(to - index) < |p0|
    requires SlidMoves(p0, s0, p1, s1, index, PlanSlide(p0, w, true, index, to), w, true, dur)
    ensures Settled(p1, Circle(|p0|, to), w, true)
  {
    PlanOnSettledStrip(p0, w, index, to);
    SlideSettlesAround(p0, s0, p1, s1, index, PlanSlide(p0, w, true, index, to), w, dur);
  }

  /** The continuous case of `slide` for any unit-step plan whose target is
      less than a turn from the old index, on the side its direction says. */
  lemma SlideSettlesAround(p0: seq<int>, s0: seq<Shown>, p1: seq<int>, s1: seq<Shown>,
                           index: int, plan: SlidePlan, w: int, dur: int)
    requires w > 0 && Settled(p0, index, w, true)
    requires plan.direction == 1 || plan.direction == -1
    requires plan.target != index && Abs(index - plan.target) < |p0|
    requires index > plan.target <==> plan.direction == 1
    requires SlidMoves(p0, s0, p1, s1, index, plan, w, true, dur)
    ensures Settled(p1, Circle(|p0|, plan.target), w, true)
  {
    var num := |p0|;
    var n := Circle(num, plan.target);
    SlideTargetCentred(p0, s0, p1, s1, index, plan, w, dur);
    SlideBehind(p0, s0, p1, s1, index, plan, w, dur);
    SlideAhead(p0, s0, p1, s1, index, plan, w, dur);
    SlideNeighbours(p1, plan, w);
    SlideParksOthers(p0, s0, p1, s1, index, plan, w, dur);
    assert Settled(p1, n, w, true);
  }

  lemma SlideTargetCentred(p0: seq<int>, s0: seq<Shown>, p1: seq<int>, s1: seq<Shown>,
                           index: int, plan: SlidePlan, w: int, dur: int)
    requires |p0| >= 3 && (plan.direction == 1 || plan.direction == -1)
    requires SlidMoves(p0, s0, p1, s1, index, plan, w, true, dur)
    ensures p1[Circle(|p0|, plan.target)] == 0
  {
    var num := |p0|;
    CircleApart(num, plan.target - plan.direction, plan.target);
    SlideWriteTarget(num, index, plan, w, dur);
    SlidOffset(p0, s0, p1, s1, index, plan, w, true, dur, Circle(num, plan.target));
  }

  /** When the slide behind the target is at `-w * direction` and the one
      ahead of it at `w * direction`, the target's two neighbours are at -w
      and +w. */
  lemma SlideNeighbours(p1: seq<int>, plan: SlidePlan, w: int)
    requires |p1| >= 1 && (plan.direction == 1 || plan.direction == -1)
    requires p1[Circle(|p1|, plan.target - plan.direction)] == -(w * plan.direction)
    requires p1[Circle(|p1|, plan.target + plan.direction)] == w * plan.direction
    ensures var n := Circle(|p1|, plan.target);
      p1[Circle(|p1|, n - 1)] == -w && p1[Circle(|p1|, n + 1)] == w
  {
    var num := |p1|;
    var d, t := plan.direction, plan.target;
    var n := Circle(num, t);
    CircleShift(num, t, -1);
    CircleShift(num, t, 1);
    if d == 1 {
      assert w * d == w;
      assert Circle(num, n - 1) == Circle(num, t - d) && Circle(num, n + 1) == Circle(num, t + d);
    } else {
      assert w * d == -w;
      assert Circle(num, n - 1) == Circle(num, t + d) && Circle(num, n + 1) == Circle(num, t - d);
    }
  }

  /** The slide behind the target is parked at `-w * direction`. */
  lemma SlideBehind(p0: seq<int>, s0: seq<Shown>, p1: seq<int>, s1: seq<Shown>,
                    index: int, plan: SlidePlan, w: int, dur: int)
    requires |p0| >= 1
    requires SlidMoves(p0, s0, p1, s1, index, plan, w, true, dur)
    ensures p1[Circle(|p0|, plan.target - plan.direction)] == -(w * plan.direction)
  {
    SlidOffset(p0, s0, p1, s1, index, plan, w, true, dur, Circle(|p0|, plan.target - plan.direction));
  }

  /** The slide ahead of the target, the old index or the last one passed
      over, is at `w * direction`. */
  lemma SlideAhead(p0: seq<int>, s0: seq<Shown>, p1: seq<int>, s1: seq<Shown>,
                   index: int, plan: SlidePlan, w: int, dur: int)
    requires |p0| >= 3 && 0 <= index < |p0|
    requires plan.direction == 1 || plan.direction == -1
    requires plan.target != index && Abs(index - plan.target) < |p0|
    requires index > plan.target <==> plan.direction == 1
    requires SlidMoves(p0, s0, p1, s1, index, plan, w, true, dur)
    ensures p1[Circle(|p0|, plan.target + plan.direction)] == w * plan.direction
  {
    var num := |p0|;
    var d, t := plan.direction, plan.target;
    var ahead := Circle(num, t + d);
    CircleIdentity(num, index);
    CircleApart(num, t + d, t - d);
    CircleApart(num, t + d, t);
    if t + d != index {
      CircleApart(num, t + d, index);
      assert Min(index, t) < t + d < Max(index, t);
      assert ahead in Between(num, Min(index, t), Max(index, t));
    }
    SlideWriteAhead(num, index, plan, w, dur, ahead);
    SlidOffset(p0, s0, p1, s1, index, plan, w, true, dur, ahead);
  }

  /** After `slide` in linear mode, a settled strip is settled around the
      target: the slides passed over and the old index rest on the far side. */
  lemma SlideKeepsLinearSettled(p0: seq<int>, s0: seq<Shown>, p1: seq<int>, s1: seq<Shown>,
                                index: int, to: int, w: int, dur: int)
    requires w > 0 && Settled(p0, index, w, false)
    requires Circle(|p0|, to) != index
    requires SlidMoves(p0, s0, p1, s1, index, PlanSlide(p0, w, false, index, to), w, false, dur)
    ensures Settled(p1, Circle(|p0|, to), w, false)
  {
    var num := |p0|;
    var plan := PlanSlide(p0, w, false, index, to);
    var t := Circle(num, to);
    assert plan.target == t;
    CircleIdentity(num, t);
    assert plan.direction == 1 ==> w * plan.direction == w;
    assert plan.direction == -1 ==> w * plan.direction == -w;
    forall s | 0 <= s < num
      ensures p1[s] == RestOffset(s, t, w)
    {
      BetweenInRange(num, Min(index, t), Max(index, t), s);
      SlidOffset(p0, s0, p1, s1, index, plan, w, false, dur, s);
    }
  }

  /** The re-expressed target of `slide` is the slide `circle(to)`. */
  lemma PlanTargetCircle(p: seq<int>, w: int, wraps: bool, index: int, to: int)
    requires |p| >= 1 && w > 0
    ensures Circle(|p|, PlanSlide(p, w, wraps, index, to).target) == Circle(|p|, to)
  {
    var num := |p|;
    var plan := PlanSlide(p, w, wraps, index, to);
    if !wraps {
      CircleIdempotent(num, to);
    } else if plan.target != to {
      assert plan.target == to + (-plan.direction) * num;
      CircleTurns(num, to, -plan.direction);
    }
  }

  /** `slide` leaves a settled strip settled around `circle(to)` (in
      continuous mode for a target less than a turn away). */
  lemma SlideTarget(p0: seq<int>, s0: seq<Shown>, p1: seq<int>, s1: seq<Shown>,
                    index: int, to: int, w: int, wraps: bool, dur: int)
    requires w > 0 && Settled(p0, index, w, wraps) && to != index && (wraps ==> Abs(to - index) < |p0|)
    requires PlanSlide(p0, w, wraps, index, to).target != index
    requires SlidMoves(p0, s0, p1, s1, index, PlanSlide(p0, w, wraps, index, to), w, wraps, dur)
    ensures Settled(p1, Circle(|p0|, to), w, wraps)
  {
    if wraps {
      SlideKeepsContinuousSettled(p0, s0, p1, s1, index, to, w, dur);
    } else {
      SlideKeepsLinearSettled(p0, s0, p1, s1, index, to, w, dur);
    }
  }

  /** The move a committed swipe in direction `d` (1 towards the previous
      slide, -1 towards the next) makes to slide `s`, in source order: the
      slide ahead is parked at `w * d` (continuous: wrapped; linear: only when
      it exists), in continuous mode the slide two behind at `-w * d`, then the
      current slide and the one behind it each move by `w * d` over `dur`. */
  function SwipeWrite(p0: seq<int>, index: int, d: int, w: int, wraps: bool, dur: Duration, s: int): Write
    requires 0 <= index < |p0|
  {
    var num := |p0|;
    var back := Circle(num, index - d);
    if s == back then Put(p0[back] + w * d, dur)
    else if s == index then Put(p0[index] + w * d, dur)
    else if wraps && s == Circle(num, index - 2 * d) then Put(-(w * d), Millis(0))
    else if (wraps && s == Circle(num, index + d)) || (!wraps && s == index + d) then Put(w * d, Millis(0))
    else Keep
  }

  /** The offsets and translates after a committed swipe. */
  predicate SwipedMoves(p0: seq<int>, s0: seq<Shown>, p1: seq<int>, s1: seq<Shown>,
                        index: int, d: int, w: int, wraps: bool, dur: Duration)
    requires 0 <= index < |p0|
  {
    |s0| == |p0| && |p1| == |p0| && |s1| == |p0| &&
    forall s :: 0 <= s < |p0| ==> Written(p0, s0, p1, s1, s, SwipeWrite(p0, index, d, w, wraps, dur, s))
  }

  lemma SwipedOffset(p0: seq<int>, s0: seq<Shown>, p1: seq<int>, s1: seq<Shown>,
                     index: int, d: int, w: int, wraps: bool, dur: Duration, s: int)
    requires 0 <= index < |p0| && SwipedMoves(p0, s0, p1, s1, index, d, w, wraps, dur) && 0 <= s < |p0|
    ensures var wr := SwipeWrite(p0, index, d, w, wraps, dur, s);
      p1[s] == if wr.Keep? then p0[s] else wr.offset
  {
    assert Written(p0, s0, p1, s1, s, SwipeWrite(p0, index, d, w, wraps, dur, s));
  }

  /** A committed swipe leaves a settled strip settled around the slide it
      brought in, `circle(index - d)`. */
  lemma SwipeKeepsSettled(p0: seq<int>, s0: seq<Shown>, p1: seq<int>, s1: seq<Shown>,
                          index: int, d: int, w: int, wraps: bool, dur: Duration)
    requires w > 0 && Settled(p0, index, w, wraps) && (d == 1 || d == -1)
    requires !wraps ==> 0 <= index - d < |p0|
    requires SwipedMoves(p0, s0, p1, s1, index, d, w, wraps, dur)
    ensures Settled(p1, Circle(|p0|, index - d), w, wraps)
  {
    if wraps {
      SwipeKeepsContinuousSettled(p0, s0, p1, s1, index, d, w, dur);
    } else {
      SwipeKeepsLinearSettled(p0, s0, p1, s1, index, d, w, dur);
    }
  }

  lemma SwipeKeepsContinuousSettled(p0: seq<int>, s0: seq<Shown>, p1: seq<int>, s1: seq<Shown>,
                                    index: int, d: int, w: int, dur: Duration)
    requires w > 0 && Settled(p0, index, w, true) && (d == 1 || d == -1)
    requires SwipedMoves(p0, s0, p1, s1, index, d, w, true, dur)
    ensures Settled(p1, Circle(|p0|, index - d), w, true)
  {
    var n := Circle(|p0|, index - d);
    SwipeBroughtIn(p0, s0, p1, s1, index, d, w, dur);
    SwipeNeighbourSlides(p0, s0, p1, s1, index, d, w, dur);
    SlideNeighbours(p1, SlidePlan(d, index - d), w);
    SwipeParksOthers(p0, s0, p1, s1, index, d, w, dur);
    assert Settled(p1, n, w, true);
  }

  /** After a continuous swipe the old index is at `w * d` and the slide two
      behind it at `-w * d`: the neighbours of the slide brought in. */
  lemma SwipeNeighbourSlides(p0: seq<int>, s0: seq<Shown>, p1: seq<int>, s1: seq<Shown>,
                             index: int, d: int, w: int, dur: Duration)
    requires w > 0 && Settled(p0, index, w, true) && (d == 1 || d == -1)
    requires SwipedMoves(p0, s0, p1, s1, index, d, w, true, dur)
    ensures p1[Circle(|p0|, index)] == w * d
    ensures p1[Circle(|p0|, index - 2 * d)] == -(w * d)
  {
    var num := |p0|;
    CircleIdentity(num, index);
    CircleApart(num, index - d, index);
    CircleApart(num, index - d, index - 2 * d);
    CircleApart(num, index, index - 2 * d);
    SwipedOffset(p0, s0, p1, s1, index, d, w, true, dur, index);
    SwipedOffset(p0, s0, p1, s1, index, d, w, true, dur, Circle(num, index - 2 * d));
  }

  lemma SwipeKeepsLinearSettled(p0: seq<int>, s0: seq<Shown>, p1: seq<int>, s1: seq<Shown>,
                                index: int, d: int, w: int, dur: Duration)
    requires w > 0 && Settled(p0, index, w, false) && (d == 1 || d == -1)
    requires 0 <= index - d < |p0|
    requires SwipedMoves(p0, s0, p1, s1, index, d, w, false, dur)
    ensures Settled(p1, Circle(|p0|, index - d), w, false)
  {
    var num := |p0|;
    var n := Circle(num, index - d);
    CircleIdentity(num, index - d);
    assert d == 1 ==> w * d == w;
    assert d == -1 ==> w * d == -w;
    forall s | 0 <= s < num
      ensures p1[s] == RestOffset(s, n, w)
    {
      SwipedOffset(p0, s0, p1, s1, index, d, w, false, dur, s);
    }
  }

  /** The slide a continuous swipe brings in was a neighbour at `-w * d`
      and ends at 0. */
  lemma SwipeBroughtIn(p0: seq<int>, s0: seq<Shown>, p1: seq<int>, s1: seq<Shown>,
                       index: int, d: int, w: int, dur: Duration)
    requires w > 0 && Settled(p0, index, w, true) && (d == 1 || d == -1)
    requires SwipedMoves(p0, s0, p1, s1, index, d, w, true, dur)
    ensures p1[Circle(|p0|, index - d)] == 0
  {
    SwipedOffset(p0, s0, p1, s1, index, d, w, true, dur, Circle(|p0|, index - d));
    assert d == 1 ==> w * d == w;
    assert d == -1 ==> w * d == -w;
  }

  /** After a continuous swipe every slide but the one brought in sits at
      -w or +w. */
  lemma SwipeParksOthers(p0: seq<int>, s0: seq<Shown>, p1: seq<int>, s1: seq<Shown>,
                         index: int, d: int, w: int, dur: Duration)
    requires w > 0 && Settled(p0, index, w, true) && (d == 1 || d == -1)
    requires SwipedMoves(p0, s0, p1, s1, index, d, w, true, dur)
    ensures forall s :: 0 <= s < |p0| && s != Circle(|p0|, index - d) ==> p1[s] == w || p1[s] == -w
  {
    assert d == 1 ==> w * d == w;
    assert d == -1 ==> w * d == -w;
    forall s | 0 <= s < |p0| && s != Circle(|p0|, index - d)
      ensures p1[s] == w || p1[s] == -w
    {
      SwipedOffset(p0, s0, p1, s1, index, d, w, true, dur, s);
    }
  }

  /** The move a swipe that does not commit makes to slide `s`: the current
      slide back to 0 and its neighbours (continuous: wrapped; linear: those
      that exist) back to -w and +w, all over `dur`. */
  function SnapWrite(num: int, index: int, w: int, wraps: bool, dur: Duration, s: int): Write
    requires num >= 1
  {
    if (wraps && s == Circle(num, index + 1)) || (!wraps && s == index + 1) then Put(w, dur)
    else if s == index then Put(0, dur)
    else if (wraps && s == Circle(num, index - 1)) || (!wraps && s == index - 1) then Put(-w, dur)
    else Keep
  }

  /** The offsets and translates after a swipe that does not commit. */
  predicate SnappedBack(p0: seq<int>, s0: seq<Shown>, p1: seq<int>, s1: seq<Shown>,
                        index: int, w: int, wraps: bool, dur: Duration)
    requires |p0| >= 1
  {
    |s0| == |p0| && |p1| == |p0| && |s1| == |p0| &&
    forall s :: 0 <= s < |p0| ==> Written(p0, s0, p1, s1, s, SnapWrite(|p0|, index, w, wraps, dur, s))
  }

  /** Snapping back restores a settled strip exactly: the offsets are those
      it had before the gesture. */
  lemma SnapBackRestores(p0: seq<int>, s0: seq<Shown>, p1: seq<int>, s1: seq<Shown>,
                         index: int, w: int, wraps: bool, dur: Duration)
    requires w > 0 && Settled(p0, index, w, wraps)
    requires SnappedBack(p0, s0, p1, s1, index, w, wraps, dur)
    ensures p1 == p0
  {
    var num := |p0|;
    if wraps {
      CircleIdentity(num, index);
      CircleApart(num, index, index + 1);
      CircleApart(num, index, index - 1);
    }
    forall s | 0 <= s < num
      ensures p1[s] == p0[s]
    {
      assert Written(p0, s0, p1, s1, s, SnapWrite(num, index, w, wraps, dur, s));
    }
  }

  /** The first moves of a committed swipe: the slide ahead (in continuous
      mode also the slide two behind) jumps to its place, which leaves the
      current slide and the slide behind it untouched. */
  predicate AheadMoved(p0: seq<int>, s0: seq<Shown>, pm: seq<int>, sm: seq<Shown>,
                       index: int, d: int, w: int, wraps: bool)
    requires 0 <= index < |p0| == |s0|
  {
    var num := |p0|;
    var x := w * d;
    var f := Circle(num, index + d);
    var g := Circle(num, index - 2 * d);
    if wraps then
      pm == p0[f := x][g := -x] && sm == s0[f := Shown(x as real, 0.0, Millis(0))][g := Shown((-x) as real, 0.0, Millis(0))]
    else if 0 <= index + d < num then
      pm == p0[index + d := x] && sm == s0[index + d := Shown(x as real, 0.0, Millis(0))]
    else pm == p0 && sm == s0
  }

  lemma AheadMovesDone(p0: seq<int>, s0: seq<Shown>, pm: seq<int>, sm: seq<Shown>,
                       index: int, d: int, w: int, wraps: bool, dur: Duration)
    requires 0 <= index < |p0| == |s0| && (d == 1 || d == -1) && (wraps ==> |p0| >= 3)
    requires !wraps ==> 0 <= index - d < |p0|
    requires AheadMoved(p0, s0, pm, sm, index, d, w, wraps)
    ensures |pm| == |sm| == |p0|
    ensures pm[index] == p0[index] && pm[Circle(|p0|, index - d)] == p0[Circle(|p0|, index - d)]
    ensures forall s :: 0 <= s < |p0| && s != index && s != Circle(|p0|, index - d) ==>
      Written(p0, s0, pm, sm, s, SwipeWrite(p0, index, d, w, wraps, dur, s))
  {
    var num := |p0|;
    CircleIdentity(num, index);
    if wraps {
      CircleApart(num, index, index + d);
      CircleApart(num, index, index - 2 * d);
      CircleApart(num, index - d, index + d);
      CircleApart(num, index - d, index - 2 * d);
    } else {
      CircleIdentity(num, index - d);
    }
  }

  /** The moves of a committed swipe, in source order, give `SwipedMoves`:
      first the slide ahead (in continuous mode also the slide two behind),
      then the current slide and the slide behind it, each by `w * d` from
      the offset it has at that point. */
  lemma SwipeMovesDone(p0: seq<int>, s0: seq<Shown>, pm: seq<int>, sm: seq<Shown>, p1: seq<int>, s1: seq<Shown>,
                       index: int, d: int, w: int, wraps: bool, dur: Duration)
    requires 0 <= index < |p0| == |s0| && (d == 1 || d == -1) && (wraps ==> |p0| >= 3)
    requires !wraps ==> 0 <= index - d < |p0|
    requires AheadMoved(p0, s0, pm, sm, index, d, w, wraps)
    requires var x := w * d;
      var back := Circle(|p0|, index - d);
      var q := pm[index := pm[index] + x];
      var r := sm[index := Shown((pm[index] + x) as real, 0.0, dur)];
      p1 == q[back := q[back] + x] && s1 == r[back := Shown((q[back] + x) as real, 0.0, dur)]
    ensures SwipedMoves(p0, s0, p1, s1, index, d, w, wraps, dur)
  {
    var num := |p0|;
    var back := Circle(num, index - d);
    AheadMovesDone(p0, s0, pm, sm, index, d, w, wraps, dur);
    if !wraps {
      CircleIdentity(num, index - d);
    } else {
      CircleApart(num, index - d, index);
      CircleIdentity(num, index);
    }
    assert back != index;
    forall s | 0 <= s < num
      ensures Written(p0, s0, p1, s1, s, SwipeWrite(p0, index, d, w, wraps, dur, s))
    {
      if s != back && s != index {
        assert p1[s] == pm[s] && s1[s] == sm[s];
      }
    }
  }

  /** A committed swipe from whole widths keeps whole widths. */
  lemma SwipeAligned(p0: seq<int>, s0: seq<Shown>, p1: seq<int>, s1: seq<Shown>,
                     index: int, d: int, w: int, wraps: bool, dur: Duration)
    requires 0 <= index < |p0| && w > 0 && SwipedMoves(p0, s0, p1, s1, index, d, w, wraps, dur)
    requires WholeWidthsOf(p0, w)
    ensures WholeWidthsOf(p1, w)
  {
    forall s | 0 <= s < |p1|
      ensures p1[s] % w == 0
    {
      SwipedOffsetAligned(p0, s0, p1, s1, index, d, w, wraps, dur, s);
    }
  }

  lemma SwipedOffsetAligned(p0: seq<int>, s0: seq<Shown>, p1: seq<int>, s1: seq<Shown>,
                            index: int, d: int, w: int, wraps: bool, dur: Duration, s: int)
    requires 0 <= index < |p0| && w > 0 && SwipedMoves(p0, s0, p1, s1, index, d, w, wraps, dur)
    requires WholeWidthsOf(p0, w) && 0 <= s < |p0|
    ensures p1[s] % w == 0
  {
    SwipedOffset(p0, s0, p1, s1, index, d, w, wraps, dur, s);
    var back := Circle(|p0|, index - d);
    if s == back {
      WholeWidths(w, p0[back], d);
    } else if s == index {
      WholeWidths(w, p0[index], d);
    } else {
      WholeWidths(w, 0, d);
    }
  }

  /** The moves of a swipe that does not commit, in source order, give
      `SnappedBack`: the slide before the index to -w, the index to 0 and
      the slide after it to +w (in linear mode only those that exist). */
  lemma SnapMovesDone(p0: seq<int>, s0: seq<Shown>, p1: seq<int>, s1: seq<Shown>,
                      index: int, w: int, wraps: bool, dur: Duration)
    requires 0 <= index < |p0| == |s0| && (wraps ==> |p0| >= 3)
    requires var num := |p0|;
      var b := if wraps then Circle(num, index - 1) else index - 1;
      var a := if wraps then Circle(num, index + 1) else index + 1;
      var q := if wraps || index > 0 then p0[b := -w] else p0;
      var r := if wraps || index > 0 then s0[b := Shown((-w) as real, 0.0, dur)] else s0;
      p1 == (if wraps || index < num - 1 then q[index := 0][a := w] else q[index := 0]) &&
      s1 == (if wraps || index < num - 1 then r[index := Shown(0.0, 0.0, dur)][a := Shown(w as real, 0.0, dur)]
             else r[index := Shown(0.0, 0.0, dur)])
    ensures SnappedBack(p0, s0, p1, s1, index, w, wraps, dur)
  {
    var num := |p0|;
    if wraps {
      CircleIdentity(num, index);
      CircleApart(num, index, index + 1);
      CircleApart(num, index, index - 1);
    }
    forall s | 0 <= s < num
      ensures Written(p0, s0, p1, s1, s, SnapWrite(num, index, w, wraps, dur, s))
    {
    }
  }

  /** The slides `ontouchmove` drags along with the finger: in continuous
      mode the index and its two neighbours around the circle, in linear mode
      the index and whichever of its neighbours exist. */
  predicate Dragged(num: int, index: int, wraps: bool, s: int)
    requires num >= 1
  {
    0 <= s < num &&
    if wraps then s == Circle(num, index - 1) || s == index || s == Circle(num, index + 1)
    else index - 1 <= s <= index + 1
  }

  /** The `indices` array of `ontouchmove`, in the order it is built. */
  function DragIndices(num: int, index: int, wraps: bool): (r: seq<int>)
    requires 0 <= index < num && (wraps ==> num >= 3)
    ensures forall k :: 0 <= k < |r| ==> 0 <= r[k] < num
    ensures forall k, m :: 0 <= k < m < |r| ==> r[k] != r[m]
    ensures forall s :: s in r <==> Dragged(num, index, wraps, s)
  {
    if wraps then
      CircleIdentity(num, index);
      CircleApart(num, index, index + 1);
      CircleApart(num, index, index - 1);
      CircleApart(num, index - 1, index + 1);
      [Circle(num, index + 1), index, Circle(num, index - 1)]
    else
      (if index < num - 1 then [index + 1] else []) + [index] + (if index > 0 then [index - 1] else [])
  }

  /** The translates after a horizontal drag by `dx`: each dragged slide is
      shown at its recorded offset plus `dx`, with no transition; every
      other slide keeps its translate. */
  predicate DragShown(p: seq<int>, s0: seq<Shown>, s1: seq<Shown>, index: int, dx: real, wraps: bool)
    requires |p| >= 1
  {
    |s0| == |p| && |s1| == |p| &&
    forall s :: 0 <= s < |p| ==>
      s1[s] == if Dragged(|p|, index, wraps, s) then Shown(dx + p[s] as real, 0.0, Millis(0)) else s0[s]
  }

  /** Dragging a settled strip moves the current slide and its neighbours as
      one piece: the current slide is shown at `dx`, the one before it at
      `dx - w` and the one after it at `dx + w`. */
  lemma DragRigid(p: seq<int>, s0: seq<Shown>, s1: seq<Shown>, index: int, w: int, wraps: bool, dx: real)
    requires w > 0 && Settled(p, index, w, wraps) && DragShown(p, s0, s1, index, dx, wraps)
    ensures s1[index] == Shown(dx, 0.0, Millis(0))
    ensures wraps || index > 0 ==> s1[Circle(|p|, index - 1)] == Shown(dx - w as real, 0.0, Millis(0))
    ensures wraps || index < |p| - 1 ==> s1[Circle(|p|, index + 1)] == Shown(dx + w as real, 0.0, Millis(0))
  {
    var num := |p|;
    assert Dragged(num, index, wraps, index);
    if !wraps {
      if index > 0 {
        CircleIdentity(num, index - 1);
        assert Dragged(num, index, wraps, index - 1);
      }
      if index < num - 1 {
        CircleIdentity(num, index + 1);
        assert Dragged(num, index, wraps, index + 1);
      }
    } else {
      assert Dragged(num, index, wraps, Circle(num, index - 1));
      assert Dragged(num, index, wraps, Circle(num, index + 1));
    }
  }

  /** In linear mode growing the list leaves the layout of the existing
      slides as it was. */
  lemma {:induction false} InitialLayoutGrow(num: nat, more: nat, index: int, w: int)
    requires 1 <= num <= more
    ensures InitialLayout(more, index, w, false)[..num] == InitialLayout(num, index, w, false)
  {
    var a := InitialLayout(more, index, w, false)[..num];
    var b := InitialLayout(num, index, w, false);
    assert forall k :: 0 <= k < num ==> a[k] == RestOffset(k, index, w) == b[k];
  }

  /** Snapping back writes whole widths only. */
  lemma SnapAligned(p0: seq<int>, s0: seq<Shown>, p1: seq<int>, s1: seq<Shown>,
                    index: int, w: int, wraps: bool, dur: Duration)
    requires |p0| >= 1 && w > 0 && SnappedBack(p0, s0, p1, s1, index, w, wraps, dur)
    ensures WholeWidthsOf(p0, w) ==> WholeWidthsOf(p1, w)
  {
    if WholeWidthsOf(p0, w) {
      WholeWidths(w, 0, 1);
      forall s | 0 <= s < |p1|
        ensures p1[s] % w == 0
      {
        assert Written(p0, s0, p1, s1, s, SnapWrite(|p0|, index, w, wraps, dur, s));
      }
    }
  }
}
