/** The preload window: the order in which `iteratePreloadRange` hands slide
    indices to its callback, and which indices `unloadElements` treats as far
    from the new index. */
module Preload {
  import opened IndexArith

  /** Offset from the centre reached after step `i` of the zig-zag walk:
      0, +1, -1, +2, -2, ... */
  function Offset(i: nat): int {
    if i % 2 == 1 then (i + 1) / 2 else -(i / 2)
  }

  /** Number of steps of the walk: `Math.min(num, preloadRange * 2 + 1)`. */
  function Steps(num: nat, range: nat): nat {
    if num < 2 * range + 1 then num else 2 * range + 1
  }

  /** The indices visited by the first `n` steps of the walk around `center`.
      A step that leaves [0, num) is wrapped with `circle` in continuous mode
      and skipped otherwise. */
  function Visits(num: int, continuous: bool, center: int, n: nat): seq<int>
    requires num >= 1
  {
    if n == 0 then []
    else
      var j := center + Offset(n - 1);
      Visits(num, continuous, center, n - 1) +
        (if 0 <= j < num then [j] else if continuous then [Circle(num, j)] else [])
  }

  /** Two walk positions on the same slide stay on the same slide after the
      same step. */
  lemma WalkWrapped(num: int, j: int, u: int, step: int)
    requires num >= 1 && Circle(num, j) == Circle(num, u)
    ensures Circle(num, j + step) == Circle(num, u + step)
  {
    CircleShift(num, j, step);
    CircleShift(num, u, step);
  }

  /** Step `i` of the walk moves both the kept position `j` and the
      unwrapped position `u` to the next offset. */
  lemma WalkNext(num: int, continuous: bool, center: int, i: nat, j: int, u: int, step: int)
    requires num >= 1 && step == (if i % 2 == 0 then -(i as int) else i)
    requires i == 0 ==> u == center
    requires i >= 1 ==> u == center + Offset(i - 1)
    requires !continuous ==> j == u
    requires continuous ==> Circle(num, j) == Circle(num, u)
    ensures u + step == center + Offset(i)
    ensures !continuous ==> j + step == u + step
    ensures continuous ==> Circle(num, j + step) == Circle(num, u + step)
  {
    OffsetStep(i);
    if continuous {
      WalkWrapped(num, j, u, step);
    }
  }

  /** In continuous mode the walk hands over the wrapped position: an
      in-range `j` on the same slide as `u` is what `Visits` appends. */
  lemma WalkVisit(num: int, j: int, u: int)
    requires num >= 1 && 0 <= j < num
    requires Circle(num, j) == Circle(num, u) || j == Circle(num, u)
    ensures j == (if 0 <= u < num then u else Circle(num, u))
    ensures Circle(num, j) == Circle(num, u)
  {
    CircleIdempotent(num, u);
    CircleIdentity(num, j);
    if 0 <= u < num {
      CircleIdentity(num, u);
    }
  }

  /** Step `i` of the walk reaches `u` and hands over `j` when `u` is a slide
      index or the walk wraps. */
  lemma WalkAppend(num: int, continuous: bool, center: int, i: nat, u: int, j: int, visits: seq<int>)
    requires num >= 1 && visits == Visits(num, continuous, center, i) && u == center + Offset(i)
    requires 0 <= u < num ==> j == u
    requires !(0 <= u < num) && continuous ==> j == Circle(num, u)
    ensures Visits(num, continuous, center, i + 1) == visits + (if 0 <= u < num || continuous then [j] else [])
  {
  }

  /** Where the walk stands before step `i`: `j` is the position reached so
      far (wrapped in continuous mode) and `visits` what was handed over. */
  predicate WalkAt(num: int, continuous: bool, center: int, i: nat, j: int, visits: seq<int>)
    requires num >= 1
  {
    var u := if i == 0 then center else center + Offset(i - 1);
    visits == Visits(num, continuous, center, i) &&
    (!continuous ==> j == u) &&
    (continuous ==> Circle(num, j) == Circle(num, u))
  }

  /** One step of the walk as `iteratePreloadRange` takes it: move by
      `step`, skip or wrap a position outside [0, num), hand over the rest. */
  lemma WalkStep(num: int, continuous: bool, center: int, i: nat, j: int, visits: seq<int>, step: int, next: int)
    requires num >= 1 && WalkAt(num, continuous, center, i, j, visits)
    requires step == (if i % 2 == 0 then -(i as int) else i)
    requires next == (if 0 <= j + step < num || !continuous then j + step else Circle(num, j + step))
    ensures WalkAt(num, continuous, center, i + 1, next,
                   visits + (if 0 <= j + step < num || continuous then [next] else []))
  {
    var u := if i == 0 then center else center + Offset(i - 1);
    WalkNext(num, continuous, center, i, j, u, step);
    if continuous {
      WalkVisit(num, next, u + step);
    }
    WalkAppend(num, continuous, center, i, u + step, next, visits);
  }

  /** The preload window of `center`, in visiting order. */
  function Window(num: int, continuous: bool, range: nat, center: int): seq<int>
    requires num >= 1
  {
    Visits(num, continuous, center, Steps(num, range))
  }

  /** The condition under which `unloadElements` discards the content of `i`
      when moving to `newIndex`: its distance exceeds the range, and so does
      the distance the other way round the circle. */
  predicate Far(num: int, range: nat, i: int, newIndex: int)
    ensures Far(num, range, i, newIndex) ==> i != newIndex && range < num
    ensures 0 <= newIndex < num && Abs(i - newIndex) <= range ==> !Far(num, range, i, newIndex)
  {
    Abs(i - newIndex) > range && Abs(i - newIndex) + range < num
  }

  /** Every element of `v` is a slide index. */
  predicate InRange(v: seq<int>, num: int) {
    forall a :: 0 <= a < |v| ==> 0 <= v[a] < num
  }

  predicate Distinct(v: seq<int>) {
    forall a, b :: 0 <= a < b < |v| ==> v[a] != v[b]
  }

  /** No element of `v` repeats and nearer indices come before farther ones. */
  predicate NearestFirst(v: seq<int>, center: int) {
    forall a, b :: 0 <= a < b < |v| ==> v[a] != v[b] && Abs(v[a] - center) <= Abs(v[b] - center)
  }

  /** The source advances the walk by `i * (i % 2 === 0 ? -1 : 1)` at step `i`. */
  lemma OffsetStep(i: nat)
    ensures i == 0 ==> Offset(i) == 0
    ensures i >= 1 ==> Offset(i) == Offset(i - 1) + (if i % 2 == 0 then -(i as int) else i as int)
  {
  }

  /** The first `n` offsets fill the interval [-(n-1)/2, n/2]. */
  lemma OffsetBounds(k: nat, n: nat)
    requires k < n
    ensures -((n - 1) / 2) <= Offset(k) <= n / 2
  {
  }

  /** Different steps reach different offsets. */
  lemma OffsetInjective(a: nat, b: nat)
    requires Offset(a) == Offset(b)
    ensures a == b
  {
  }

  /** Nearer offsets come first: the distance from the centre never decreases. */
  lemma OffsetOrder(a: nat, b: nat)
    requires a <= b
    ensures Abs(Offset(a)) <= Abs(Offset(b))
  {
  }

  /** Step `n - 1` reaches an offset outside the interval the earlier steps
      filled, and no nearer to the centre than any offset in it. */
  lemma OffsetBeyond(n: nat, y: int)
    requires n >= 2 && -((n - 2) / 2) <= y <= (n - 1) / 2
    ensures y != Offset(n - 1) && Abs(y) <= Abs(Offset(n - 1))
  {
  }

  /** The step at which the walk reaches offset `d`. */
  function StepOf(d: int): (k: nat)
    ensures Offset(k) == d
    ensures k < 2 * Abs(d) + 1
  {
    if d > 0 then 2 * d - 1 else -2 * d
  }

  /** In continuous mode the walk makes exactly `n` visits, the k-th being
      `circle(center + Offset(k))`. */
  lemma {:induction false} ContinuousVisits(num: int, center: int, n: nat)
    requires num >= 1
    ensures |Visits(num, true, center, n)| == n
    ensures forall k :: 0 <= k < n ==> Visits(num, true, center, n)[k] == Circle(num, center + Offset(k))
  {
    if n > 0 {
      ContinuousVisits(num, center, n - 1);
      var j := center + Offset(n - 1);
      if 0 <= j < num {
        CircleIdentity(num, j);
      }
    }
  }

  /** In linear mode the walk visits exactly the in-range indices whose
      offset from the centre lies in [-(n-1)/2, n/2]. */
  lemma {:induction false} LinearVisits(num: int, center: int, n: nat)
    requires num >= 1 && n >= 1
    ensures forall x :: x in Visits(num, false, center, n) <==>
      0 <= x < num && -((n - 1) / 2) <= x - center <= n / 2
  {
    if n > 1 {
      LinearVisits(num, center, n - 1);
    }
  }

  /** In linear mode the visits are pairwise distinct, lie in [0, num), and
      are ordered by distance from the centre. */
  lemma {:induction false} LinearVisitsOrdered(num: int, center: int, n: nat)
    requires num >= 1
    ensures InRange(Visits(num, false, center, n), num)
    ensures NearestFirst(Visits(num, false, center, n), center)
  {
    if n > 1 {
      var v0 := Visits(num, false, center, n - 1);
      LinearVisitsOrdered(num, center, n - 1);
      LinearVisits(num, center, n - 1);
      var j := center + Offset(n - 1);
      var v := Visits(num, false, center, n);
      if 0 <= j < num {
        assert v == v0 + [j];
        forall x | x in v0
          ensures x != j && Abs(x - center) <= Abs(j - center)
        {
          OffsetBeyond(n, x - center);
        }
        forall a, b | 0 <= a < b < |v|
          ensures v[a] != v[b] && Abs(v[a] - center) <= Abs(v[b] - center)
        {
          assert v[a] == v0[a] && v[a] in v0;
          if b == |v0| {
            assert v[b] == j;
          } else {
            assert v[b] == v0[b];
          }
        }
      } else {
        assert v == v0;
      }
      assert InRange(v, num) && NearestFirst(v, center);
    } else if n == 1 {
      assert Visits(num, false, center, n) == Visits(num, false, center, 0) + (if 0 <= center < num then [center] else []);
    }
  }

  /** In continuous mode, with at most `num` steps, the visits are pairwise
      distinct in-range indices. */
  lemma ContinuousDistinct(num: int, center: int, n: nat)
    requires 1 <= n <= num
    ensures |Visits(num, true, center, n)| == n
    ensures InRange(Visits(num, true, center, n), num)
    ensures Distinct(Visits(num, true, center, n))
  {
    var v := Visits(num, true, center, n);
    ContinuousVisits(num, center, n);
    forall a, b | 0 <= a < b < n
      ensures v[a] != v[b]
    {
      OffsetBounds(a, n);
      OffsetBounds(b, n);
      if v[a] == v[b] {
        CircleInjectiveNear(num, center + Offset(a), center + Offset(b));
        OffsetInjective(a, b);
      }
    }
  }

  /** Every index the window visits lies in [0, num); the first one is the
      centre itself. */
  lemma WindowShape(num: int, continuous: bool, range: nat, center: int)
    requires 0 <= center < num
    ensures |Window(num, continuous, range, center)| >= 1
    ensures Window(num, continuous, range, center)[0] == center
    ensures InRange(Window(num, continuous, range, center), num)
  {
    var n := Steps(num, range);
    if continuous {
      ContinuousVisits(num, center, n);
    } else {
      LinearVisitsOrdered(num, center, n);
    }
    assert Visits(num, continuous, center, 1) == [center];
    VisitsPrefix(num, continuous, center, 1, n);
  }

  lemma {:induction false} VisitsPrefix(num: int, continuous: bool, center: int, m: nat, n: nat)
    requires num >= 1 && m <= n
    ensures Visits(num, continuous, center, m) <= Visits(num, continuous, center, n)
  {
    if m < n {
      VisitsPrefix(num, continuous, center, m, n - 1);
    }
  }

  /** No index of the window of `center` is far from `center`, so unloading
      for a move to `center` never discards what loading `center`'s window
      just requested. */
  lemma NearNotFar(num: int, continuous: bool, range: nat, center: int, x: int)
    requires 0 <= center < num
    requires x in Window(num, continuous, range, center)
    ensures !Far(num, range, x, center)
  {
    var n := Steps(num, range);
    if continuous {
      ContinuousVisits(num, center, n);
      var k :| 0 <= k < n && Window(num, continuous, range, center)[k] == x;
      var d := Offset(k);
      OffsetBounds(k, n);
      assert Abs(d) <= range;
      CircleDifference(num, center, d);
    } else {
      LinearVisits(num, center, n);
    }
  }

  /** With at least 2 * range + 1 slides in continuous mode, the window of
      `center` is exactly the set of indices that are not far from it. */
  lemma ContinuousWindowExact(num: int, range: nat, center: int, x: int)
    requires num >= 2 * range + 1 && 0 <= center < num && 0 <= x < num
    ensures x in Window(num, true, range, center) <==> !Far(num, range, x, center)
  {
    if x in Window(num, true, range, center) {
      NearNotFar(num, true, range, center, x);
    } else if !Far(num, range, x, center) {
      NotFarInWindow(num, range, center, x);
    }
  }

  lemma NotFarInWindow(num: int, range: nat, center: int, x: int)
    requires num >= 2 * range + 1 && 0 <= center < num && 0 <= x < num
    requires !Far(num, range, x, center)
    ensures x in Window(num, true, range, center)
  {
    var n := Steps(num, range);
    assert n == 2 * range + 1;
    var d := NearOffset(num, range, center, x);
    ContinuousVisits(num, center, n);
    var k := StepOf(d);
    assert Window(num, true, range, center)[k] == Circle(num, center + Offset(k));
  }

  /** A slide that is not far from `center` is `circle(center + d)` for an
      offset `d` of at most `range`. */
  lemma NearOffset(num: int, range: nat, center: int, x: int) returns (d: int)
    requires num >= 2 * range + 1 && 0 <= center < num && 0 <= x < num
    requires !Far(num, range, x, center)
    ensures Abs(d) <= range && Circle(num, center + d) == x
  {
    if Abs(x - center) <= range {
      d := x - center;
    } else if x > center {
      d := x - center - num;
      CircleTurns(num, x, -1);
      assert x + (-1) * num == center + d;
    } else {
      d := x - center + num;
      CircleTurns(num, x, 1);
      assert x + 1 * num == center + d;
    }
    CircleIdentity(num, x);
  }

  /** With at least 2 * range + 1 slides in linear mode, the window of
      `center` is exactly the in-range indices within `range` of it. */
  lemma LinearWindowExact(num: int, range: nat, center: int, x: int)
    requires num >= 2 * range + 1
    ensures x in Window(num, false, range, center) <==> 0 <= x < num && Abs(x - center) <= range
  {
    LinearVisits(num, center, Steps(num, range));
  }
}
