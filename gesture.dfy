/** The arithmetic of a touch gesture: the pinch filter of `ontouchmove`, the
    edge resistance of linear mode, the settle duration and the decision
    `ontouchend` takes for a horizontal swipe. */
module Gesture {
  import opened IndexArith
  import opened Config
  import opened Layout

  /** Where a touch started. */
  datatype Point = Point(x: real, y: real)

  /** The movement since the touch started; `Unset` is the empty object
      `ontouchstart` leaves until the first accepted move. */
  datatype Delta = Unset | Delta(x: real, y: real)

  function RAbs(r: real): real {
    if r < 0.0 then -r else r
  }

  /** The pixels a swipe must travel before it commits or closes. */
  const Threshold: real := 20.0

  /** A move `ontouchmove` ignores: more than one finger, or a scale other
      than 1 (a missing or zero scale is falsy and does not count). */
  predicate Pinched(touches: nat, scale: Option<real>)
    ensures touches > 1 ==> Pinched(touches, scale)
    ensures touches <= 1 && (scale.None? || scale == Some(0.0) || scale == Some(1.0)) ==> !Pinched(touches, scale)
  {
    touches > 1 || (scale.Some? && scale.value != 0.0 && scale.value != 1.0)
  }

  /** A linear-mode drag that pulls the first slide rightward or the last
      slide leftward, away from any slide. */
  predicate AtBound(index: int, num: int, dx: real)
    ensures AtBound(index, num, dx) ==> dx != 0.0 && (index == 0 || index == num - 1)
    ensures 0 < index < num - 1 ==> !AtBound(index, num, dx)
  {
    (index == 0 && dx > 0.0) || (index == num - 1 && dx < 0.0)
  }

  /** The delta `ontouchmove` applies in linear mode: at a bound it is divided
      by `|dx| / w + 1`, otherwise unchanged. */
  function Resist(dx: real, w: int, atBound: bool): (r: real)
    requires w > 0
    ensures !atBound ==> r == dx
    ensures atBound ==> RAbs(r) <= RAbs(dx) && RAbs(r) < w as real
    ensures atBound ==> (r > 0.0 <==> dx > 0.0) && (r < 0.0 <==> dx < 0.0)
  {
    if atBound then
      var wr := w as real;
      var divisor := RAbs(dx) / wr + 1.0;
      ResistBound(dx, wr);
      dx / divisor
    else dx
  }

  lemma ResistBound(dx: real, wr: real)
    requires wr > 0.0
    ensures var r := dx / (RAbs(dx) / wr + 1.0);
      RAbs(r) <= RAbs(dx) && RAbs(r) < wr && (r > 0.0 <==> dx > 0.0) && (r < 0.0 <==> dx < 0.0)
  {
    var a := RAbs(dx);
    var divisor := a / wr + 1.0;
    assert divisor >= 1.0;
    var r := dx / divisor;
    assert r * divisor == dx;
    assert RAbs(r) * divisor == a;
    assert RAbs(r) * (a / wr) + RAbs(r) == a;
    assert (a / wr) * wr == a;
    // |r| * (a + wr) == a * wr, so |r| < wr.
    assert RAbs(r) * (a + wr) == a * wr by {
      assert RAbs(r) * (a / wr + 1.0) * wr == a * wr;
    }
  }

  /** A drag of 120 px left on the last slide, 300 px wide, is shown as
      -600/7 px. */
  lemma ResistExample()
    ensures Resist(-120.0, 300, AtBound(4, 5, -120.0)) == -600.0 / 7.0
  {
    assert AtBound(4, 5, -120.0);
    assert RAbs(-120.0) / 300.0 + 1.0 == 7.0 / 5.0;
  }

  /** `Math.ceil` on a real. */
  function Ceil(r: real): (c: int)
    ensures c as real >= r && (c as real) - 1.0 < r
  {
    -((-r).Floor)
  }

  /** `ontouchend`'s transition time: half the configured duration, scaled by
      the part of the width the finger has not yet covered, rounded up. */
  function SettleDuration(transition: int, absDx: real, w: int): (r: int)
    requires w > 0
    ensures transition >= 0 && 0.0 <= absDx <= w as real ==> 0 <= r <= Ceil(transition as real / 2.0)
  {
    SettleFactor(transition as real, absDx, w as real);
    Ceil((transition as real * (1.0 - absDx / w as real)) / 2.0)
  }

  /** The part of the width not yet covered is a fraction in [0, 1]. */
  lemma SettleFactor(t: real, a: real, wr: real)
    requires wr > 0.0
    ensures t >= 0.0 && 0.0 <= a <= wr ==> 0.0 <= t * (1.0 - a / wr) <= t
  {
    if t >= 0.0 && 0.0 <= a <= wr {
      var q := a / wr;
      assert q * wr == a;
      assert 0.0 <= q <= 1.0;
      assert t * (1.0 - q) + t * q == t;
      assert t * q >= 0.0 && t * (1.0 - q) >= 0.0;
    }
  }

  /** The longer the swipe, the shorter the settle time. */
  lemma SettleDurationMonotone(transition: int, a: real, b: real, w: int)
    requires w > 0 && transition >= 0 && 0.0 <= a <= b
    ensures SettleDuration(transition, b, w) <= SettleDuration(transition, a, w)
  {
    var wr := w as real;
    var t := transition as real;
    assert a / wr <= b / wr;
    assert t * (1.0 - b / wr) <= t * (1.0 - a / wr);
    CeilMonotone(t * (1.0 - b / wr) / 2.0, t * (1.0 - a / wr) / 2.0);
  }

  lemma CeilMonotone(x: real, y: real)
    requires x <= y
    ensures Ceil(x) <= Ceil(y)
  {
  }

  /** A swipe over the full width settles at once; a touch that did not move
      takes half the configured duration, rounded up. */
  lemma SettleDurationEnds(transition: int, w: int)
    requires w > 0
    ensures SettleDuration(transition, w as real, w) == 0
    ensures SettleDuration(transition, 0.0, w) == Ceil(transition as real / 2.0)
  {
    assert (w as real) / (w as real) == 1.0;
  }

  /** The `duration` `ontouchend` hands to `move`: `NaN` when no move was
      recorded (the delta object is still empty), otherwise the settle
      duration for the horizontal distance covered. */
  function EndDuration(delta: Delta, transition: int, w: int): (r: Duration)
    requires w > 0
    ensures r.NotANumber? <==> delta.Unset?
    ensures delta.Delta? && transition >= 0 && RAbs(delta.x) <= w as real ==>
      0 <= r.ms <= Ceil(transition as real / 2.0)
  {
    match delta
    case Unset => NotANumber
    case Delta(dx, _) => Millis(SettleDuration(transition, RAbs(dx), w))
  }

  /** What `ontouchend` does with a gesture it did not take for a scroll. */
  datatype Outcome = Commit(direction: int) | SnapBack

  /** A swipe commits when it travelled more than the threshold and, in
      linear mode, did not pull past the first or last slide. The direction
      is -1 for a leftward swipe and 1 otherwise. */
  function Decide(delta: Delta, index: int, num: int, wraps: bool): (o: Outcome)
    ensures delta.Unset? ==> o == SnapBack
    ensures delta.Delta? && RAbs(delta.x) <= Threshold ==> o == SnapBack
    ensures wraps && delta.Delta? ==> (o.Commit? <==> RAbs(delta.x) > Threshold)
    ensures !wraps && delta.Delta? && AtBound(index, num, delta.x) ==> o == SnapBack
    ensures !wraps && delta.Delta? ==> (o.Commit? <==> RAbs(delta.x) > Threshold && !AtBound(index, num, delta.x))
    ensures o.Commit? ==> o.direction == (if delta.x < 0.0 then -1 else 1)
    ensures o.Commit? && !wraps && 0 <= index < num ==> 0 <= index - o.direction < num
  {
    match delta
    case Unset => SnapBack
    case Delta(dx, _) =>
      var valid := RAbs(dx) > Threshold;
      var pastBounds := if wraps then false else AtBound(index, num, dx);
      if valid && !pastBounds then Commit(if dx < 0.0 then -1 else 1) else SnapBack
  }

  /** A vertical gesture closes the gallery when it is not also a valid
      horizontal swipe, closing on vertical swipes is enabled, and it
      travelled more than the threshold vertically. */
  predicate CloseRequested(delta: Delta, closeOnSwipeUpOrDown: bool)
    ensures !closeOnSwipeUpOrDown ==> !CloseRequested(delta, closeOnSwipeUpOrDown)
    ensures CloseRequested(delta, closeOnSwipeUpOrDown) ==>
      forall index, num, wraps :: Decide(delta, index, num, wraps) == SnapBack
  {
    delta.Delta? && !(RAbs(delta.x) > Threshold) && closeOnSwipeUpOrDown && RAbs(delta.y) > Threshold
  }
}
