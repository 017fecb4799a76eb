/** Index arithmetic of the gallery: JavaScript's truncating remainder and the
    `circle` normalisation that maps any integer into the slide index range. */
module IndexArith {

  function Abs(x: int): nat { if x < 0 then -x else x }

  function Min(a: int, b: int): int { if a < b then a else b }

  function Max(a: int, b: int): int { if a < b then b else a }

  /** JavaScript's `a % b` on integers: the remainder of a division truncated
      toward zero, so it carries the sign of the dividend (Dafny's `%` is
      Euclidean and never negative). */
  function JsRem(a: int, b: int): (r: int)
    requires b != 0
    ensures Abs(r) < Abs(b)
    ensures a >= 0 ==> 0 <= r
    ensures a < 0 ==> r <= 0
    ensures (a - r) % Abs(b) == 0
  {
    var m := Abs(b);
    if a >= 0 then
      DivMod(a, m);
      ModUnique(a - a % m, a / m, 0, m);
      a % m
    else
      DivMod(-a, m);
      ModUnique(a + (-a) % m, -((-a) / m), 0, m);
      -((-a) % m)
  }

  /** `circle(index)`: the slide an unwrapped index lands on. The source
      computes `(num + (index % num)) % num` with JavaScript's `%`;
      `CircleMatchesSource` shows that this is the Euclidean remainder. */
  function Circle(num: int, i: int): (r: int)
    requires num >= 1
    ensures 0 <= r < num
  {
    i % num
  }

  /** The source's formula for `circle` agrees with `Circle`. */
  lemma CircleMatchesSource(num: int, i: int)
    requires num >= 1
    ensures JsRem(num + JsRem(i, num), num) == Circle(num, i)
  {
    CircleIsEuclidean(num, i, JsRem(i, num));
  }

  lemma CircleIsEuclidean(num: int, i: int, inner: int)
    requires num >= 1
    requires inner == JsRem(i, num)
    ensures JsRem(num + inner, num) == i % num
  {
    var s := num + inner;
    assert 0 < s < 2 * num;
    if inner >= 0 {
      ModUnique(s, 1, inner, num);
      assert JsRem(s, num) == inner;
      var q := (i - inner) / num;
      DivMod(i - inner, num);
      ModUnique(i, q, inner, num);
    } else {
      ModUnique(s, 0, s, num);
      assert JsRem(s, num) == s;
      var q := (i - inner) / num;
      DivMod(i - inner, num);
      ModUnique(i, q - 1, s, num);
    }
  }

  /** Euclidean division as Dafny defines it. */
  lemma DivMod(a: int, m: int)
    requires m >= 1
    ensures a == (a / m) * m + a % m && 0 <= a % m < m
  {
  }

  lemma {:induction false} MulAtLeast(k: int, m: int)
    requires k >= 1 && m >= 1
    ensures k * m >= m
  {
    if k > 1 {
      MulAtLeast(k - 1, m);
      assert k * m == (k - 1) * m + m;
    }
  }

  lemma MulSub(x: int, y: int, m: int)
    ensures (x - y) * m == x * m - y * m
  {
  }

  /** Quotient and remainder are unique. */
  lemma ModUnique(a: int, q: int, r: int, m: int)
    requires m >= 1 && 0 <= r < m && a == q * m + r
    ensures a % m == r && a / m == q
  {
    var q', r' := a / m, a % m;
    DivMod(a, m);
    assert (q - q') * m == r' - r;
    if q - q' >= 1 {
      MulAtLeast(q - q', m);
    } else if q' - q >= 1 {
      assert (q' - q) * m == r - r';
      MulAtLeast(q' - q, m);
    }
  }

  /** If `a - b` is a multiple of `n` and `0 <= b < n` then `b` is `a mod n`. */
  lemma ModOfCongruent(a: int, b: int, n: int)
    requires n >= 1 && 0 <= b < n && (a - b) % n == 0
    ensures a % n == b
  {
    var q := (a - b) / n;
    DivMod(a - b, n);
    ModUnique(a, q, b, n);
  }

  /** `circle` is the identity on the index range. */
  lemma CircleIdentity(num: int, i: int)
    requires 0 <= i < num
    ensures Circle(num, i) == i
  {
    ModUnique(i, 0, i, num);
  }

  /** `circle` is idempotent. */
  lemma CircleIdempotent(num: int, i: int)
    requires num >= 1
    ensures Circle(num, Circle(num, i)) == Circle(num, i)
  {
    CircleIdentity(num, Circle(num, i));
  }

  /** Adding whole turns of `num` does not change `circle`. */
  lemma {:induction false} CircleTurns(num: int, i: int, k: int)
    requires num >= 1
    ensures Circle(num, i + k * num) == Circle(num, i)
  {
    var r := Circle(num, i);
    assert (i - r) % num == 0 by { EuclidDiff(i, num); }
    assert i + k * num - r == (i - r) + k * num;
    AddMultiple(i - r, num, k);
    ModOfCongruent(i + k * num, r, num);
  }

  lemma EuclidDiff(a: int, n: int)
    requires n >= 1
    ensures (a - a % n) % n == 0
  {
    DivMod(a, n);
    ModUnique(a - a % n, a / n, 0, n);
  }

  lemma AddMultiple(x: int, n: int, k: int)
    requires n >= 1 && x % n == 0
    ensures (x + k * n) % n == 0
  {
    var q := x / n;
    DivMod(x, n);
    assert x + k * n == (q + k) * n;
    ModUnique(x + k * n, q + k, 0, n);
  }

  /** Two integers closer than `num` to each other have the same `circle`
      only if they are equal. */
  lemma {:induction false} CircleInjectiveNear(num: int, a: int, b: int)
    requires num >= 1 && Abs(a - b) < num && Circle(num, a) == Circle(num, b)
    ensures a == b
  {
    var qa, qb := a / num, b / num;
    DivMod(a, num);
    DivMod(b, num);
    assert a % num == b % num;
    MulSub(qa, qb, num);
    assert a - b == (qa - qb) * num;
    if qa - qb >= 1 {
      MulAtLeast(qa - qb, num);
    } else if qb - qa >= 1 {
      assert b - a == (qb - qa) * num;
      MulAtLeast(qb - qa, num);
    }
  }

  /** Two in-range indices `x`, `c` whose difference is `d` modulo `num`: the
      plain difference `x - c` is `d`, `d - num` or `d + num` when `|d| < num`. */
  lemma {:induction false} CircleDifference(num: int, c: int, d: int)
    requires num >= 1 && 0 <= c < num && Abs(d) < num
    ensures var x := Circle(num, c + d);
      x - c == d || x - c == d - num || x - c == d + num
  {
    var x := Circle(num, c + d);
    if 0 <= c + d < num {
      CircleIdentity(num, c + d);
    } else if c + d >= num {
      CircleTurns(num, c + d - num, 1);
      CircleIdentity(num, c + d - num);
    } else {
      CircleTurns(num, c + d + num, -1);
      assert c + d + num + (-1) * num == c + d;
      CircleIdentity(num, c + d + num);
    }
  }

  /** Two integers closer than `num` but not equal land on different slides. */
  lemma CircleApart(num: int, a: int, b: int)
    requires num >= 1 && 0 < Abs(a - b) < num
    ensures Circle(num, a) != Circle(num, b)
  {
    if Circle(num, a) == Circle(num, b) {
      CircleInjectiveNear(num, a, b);
    }
  }

  /** `circle` of a shifted `circle` is `circle` of the shift. */
  lemma CircleShift(num: int, a: int, k: int)
    requires num >= 1
    ensures Circle(num, Circle(num, a) + k) == Circle(num, a + k)
  {
    var q := a / num;
    DivMod(a, num);
    assert (-q) * num == -(q * num);
    assert Circle(num, a) + k == (a + k) + (-q) * num;
    CircleTurns(num, a + k, -q);
  }
}
