/** The cyclic arithmetic of loop mode: the true modulus built on JavaScript's
    truncating `%`, and the fold that re-centres a slide into one cycle. */
module Wraparound {
  import opened JsMath

  /** `a` and `b` differ by a whole number of `m`s. */
  predicate Congruent(a: real, b: real, m: real)
    requires m > 0.0
  {
    IsInteger((a - b) / m)
  }

  lemma CongruentRefl(a: real, m: real)
    requires m > 0.0
    ensures Congruent(a, a, m)
  {
    assert (a - a) / m == 0 as real;
  }

  lemma CongruentSymm(a: real, b: real, m: real)
    requires m > 0.0 && Congruent(a, b, m)
    ensures Congruent(b, a, m)
  {
    assert (b - a) / m == -((a - b) / m);
    IntegerSum((a - b) / m, 0.0);
  }

  lemma CongruentTrans(a: real, b: real, c: real, m: real)
    requires m > 0.0 && Congruent(a, b, m) && Congruent(b, c, m)
    ensures Congruent(a, c, m)
  {
    assert (a - c) / m == (a - b) / m + (b - c) / m;
    IntegerSum((a - b) / m, (b - c) / m);
  }

  /** Adding the same amount to both sides keeps two values congruent. */
  lemma CongruentTranslate(a: real, b: real, c: real, m: real)
    requires m > 0.0 && Congruent(a, b, m)
    ensures Congruent(a + c, b + c, m)
  {
    assert (a + c) - (b + c) == a - b;
  }

  /** Moving by whole cycles keeps the congruence class. */
  lemma CongruentCycles(a: real, k: int, m: real)
    requires m > 0.0
    ensures Congruent(a + k as real * m, a, m)
  {
    assert (a + k as real * m - a) / m == k as real;
    IntegerOfInt(k);
  }

  lemma CongruentCyclesTo(x: real, a: real, k: int, m: real)
    requires m > 0.0 && x == a + k as real * m
    ensures Congruent(x, a, m) && Congruent(a, x, m)
  {
    CongruentCycles(a, k, m);
    CongruentSymm(x, a, m);
  }

  /** Two values of one half-open window [lo, lo + m) that are congruent are equal. */
  lemma CongruentInWindow(a: real, b: real, lo: real, m: real)
    requires m > 0.0 && Congruent(a, b, m)
    requires lo <= a < lo + m && lo <= b < lo + m
    ensures a == b
  {
    var k := (a - b) / m;
    QuotientInUnit(a - b, k, m);
    SmallInteger(k);
    assert a - b == k * m;
  }

  lemma QuotientInUnit(x: real, k: real, m: real)
    requires m > 0.0 && -m < x < m && k == x / m
    ensures -1.0 < k < 1.0
  {
    assert x == k * m;
    MulMonotone(k, m);
  }

  /** `modulus` of the swiper: JavaScript's `%` with a negative remainder
      moved up by one divisor, which gives the representative of `value`
      in [0, division). */
  function Modulus(value: real, division: real): (r: real)
    requires division > 0.0
    ensures 0.0 <= r < division
    ensures Congruent(r, value, division)
    ensures 0.0 <= value < division ==> r == value
  {
    RemFacts(value, division);
    var remainder := Rem(value, division);
    if remainder < 0.0 then
      CongruentPlusOne(remainder, value, division);
      remainder + division
    else
      remainder
  }

  lemma CongruentPlusOne(r: real, v: real, m: real)
    requires m > 0.0 && IsInteger((r - v) / m)
    ensures Congruent(r + m, v, m)
  {
    var q := (r - v) / m;
    assert (r + m - v) / m == q + 1.0 by {
      DivSum(r - v, m, m);
      assert r + m - v == (r - v) + m;
      assert m / m == 1.0;
    }
    IntegerSum(q, 1.0);
  }

  /** Range and congruence determine the modulus: it is the only congruent value in [0, d). */
  lemma ModulusUnique(v: real, d: real, r: real)
    requires d > 0.0 && 0.0 <= r < d && Congruent(r, v, d)
    ensures Modulus(v, d) == r
  {
    var m := Modulus(v, d);
    CongruentSymm(r, v, d);
    CongruentTrans(m, v, r, d);
    CongruentInWindow(m, r, 0.0, d);
  }

  /** Two values have the same modulus exactly when they are congruent; in particular
      the modulus is idempotent. */
  lemma ModulusClassifies(a: real, b: real, d: real)
    requires d > 0.0
    ensures Modulus(a, d) == Modulus(b, d) <==> Congruent(a, b, d)
    ensures Modulus(Modulus(a, d), d) == Modulus(a, d)
  {
    var ma, mb := Modulus(a, d), Modulus(b, d);
    CongruentSymm(ma, a, d);
    if ma == mb {
      CongruentTrans(a, ma, b, d);
    }
    if Congruent(a, b, d) {
      CongruentTrans(ma, a, b, d);
      ModulusUnique(b, d, ma);
    }
  }

  /** The representative of an index in [0, n), as the Euclidean remainder;
      it agrees with `Modulus` on the index. */
  function WrapIndex(i: int, n: int): (r: int)
    requires n >= 1
    ensures 0 <= r < n
    ensures r as real == Modulus(i as real, n as real)
  {
    var w := i % n;
    var k := i / n;
    IntCastMul(k, n);
    CongruentCyclesTo(i as real, w as real, k, n as real);
    ModulusUnique(i as real, n as real, w as real);
    w
  }

  /** The loop-mode fold of a slide position: shifted by `flag`, reduced modulo
      one cycle `total`, shifted back. Its value lies in [-flag, total - flag)
      and is congruent to `position`. */
  function Fold(position: real, total: real, flag: real): (r: real)
    requires total > 0.0
    ensures -flag <= r < total - flag
    ensures Congruent(r, position, total)
  {
    var m := Modulus(position + flag, total);
    CongruentTranslate(m, position + flag, -flag, total);
    m - flag
  }

  /** The fold is the only value of its window congruent to the position. */
  lemma FoldUnique(position: real, total: real, flag: real, r: real)
    requires total > 0.0 && Congruent(r, position, total)
    requires -flag <= r < total - flag
    ensures Fold(position, total, flag) == r
  {
    var f := Fold(position, total, flag);
    CongruentSymm(r, position, total);
    CongruentTrans(f, position, r, total);
    CongruentInWindow(f, r, -flag, total);
  }

  /** Positions a whole number of cycles apart fold to the same place. */
  lemma FoldPeriodic(p: real, q: real, total: real, flag: real)
    requires total > 0.0 && Congruent(p, q, total)
    ensures Fold(p, total, flag) == Fold(q, total, flag)
  {
    var f := Fold(q, total, flag);
    CongruentTrans(f, q, p, total) by {
      CongruentSymm(p, q, total);
    }
    FoldUnique(p, total, flag, f);
  }

  /** Continuity: a move by `delta` that keeps the folded value inside its window
      moves the folded value by exactly `delta`, so the fold never jumps mid-cycle. */
  lemma FoldTracksMotion(p: real, delta: real, total: real, flag: real)
    requires total > 0.0
    requires -flag <= Fold(p, total, flag) + delta < total - flag
    ensures Fold(p + delta, total, flag) == Fold(p, total, flag) + delta
  {
    var f := Fold(p, total, flag);
    CongruentTranslate(f, p, delta, total);
    FoldUnique(p + delta, total, flag, f + delta);
  }

  /** When 0 lies inside the fold window, the fold is 0 exactly at the positions that
      are whole cycles from 0. */
  lemma FoldZero(p: real, total: real, flag: real)
    requires total > 0.0 && 0.0 <= flag < total
    ensures Fold(p, total, flag) == 0.0 <==> Congruent(0.0, p, total)
  {
    if Congruent(0.0, p, total) {
      FoldUnique(p, total, flag, 0.0);
    }
  }

  /** Mirroring both sides about a common point keeps a congruence. */
  lemma CongruentMirror(x: real, t: real, y: real, m: real)
    requires m > 0.0
    ensures Congruent(-x + y, -t + y, m) <==> Congruent(x, t, m)
    ensures Congruent(0.0, -x + y, m) <==> Congruent(x, y, m)
  {
    assert (-x + y) - (-t + y) == -(x - t);
    assert (-x + y) - (-t + y) == t - x;
    if Congruent(x, t, m) {
      CongruentSymm(x, t, m);
    }
    if Congruent(-x + y, -t + y, m) {
      CongruentSymm(t, x, m);
    }
    assert 0.0 - (-x + y) == x - y;
  }

  /** When `x` is congruent to `a`, it is congruent to `b` exactly when `a` is. */
  lemma CongruentVia(x: real, a: real, b: real, m: real)
    requires m > 0.0 && Congruent(x, a, m)
    ensures Congruent(x, b, m) <==> Congruent(a, b, m)
  {
    CongruentSymm(x, a, m);
    if Congruent(x, b, m) {
      CongruentTrans(a, x, b, m);
    }
    if Congruent(a, b, m) {
      CongruentTrans(x, a, b, m);
    }
  }

  /** Two panes of one cycle are congruent only when they are the same pane. */
  lemma PanesCongruent(c: int, j: int, n: int)
    requires 0 <= c < n && 0 <= j < n
    ensures Congruent(c as real, j as real, n as real) <==> c == j
  {
    if c == j {
      CongruentRefl(c as real, n as real);
    }
    if Congruent(c as real, j as real, n as real) {
      CongruentInWindow(c as real, j as real, 0.0, n as real);
    }
  }

  /** Stepping forward one pane and back one pane returns to the same representative. */
  lemma WrapStepBack(k: int, n: int)
    requires n >= 1
    ensures WrapIndex(WrapIndex(k + 1, n) - 1, n) == WrapIndex(k, n)
  {
    var q := (k + 1) / n;
    var w := (k + 1) % n;
    assert k + 1 == q * n + w;
    WrapIndexCycles(w - 1, k, -q, n);
  }

  /** Stepping forward one pane from a representative is stepping forward from the index. */
  lemma WrapStepForward(k: int, n: int)
    requires n >= 1
    ensures WrapIndex(WrapIndex(k, n) + 1, n) == WrapIndex(k + 1, n)
  {
    var q := k / n;
    var w := k % n;
    assert k == q * n + w;
    WrapIndexCycles(k + 1, w + 1, q, n);
  }

  /** Indices a whole number of cycles apart wrap to the same representative. */
  lemma WrapIndexCycles(x: int, y: int, k: int, n: int)
    requires n >= 1 && x == y + k * n
    ensures WrapIndex(x, n) == WrapIndex(y, n)
  {
    IntCastMul(k, n);
    CongruentCyclesTo(x as real, y as real, k, n as real);
    ModulusClassifies(x as real, y as real, n as real);
  }

  /** Scaling the value and the divisor by a positive unit scales the modulus:
      reducing in axis units is reducing in panes, times the pane size. */
  lemma ModulusScale(x: real, n: real, d: real, xd: real, nd: real)
    requires n > 0.0 && d > 0.0 && xd == x * d && nd == n * d
    ensures Modulus(xd, nd) == Modulus(x, n) * d
  {
    var m := Modulus(x, n);
    ScaleWindow(m, 0.0, n, d, m * d, 0.0, nd);
    CongruentScale(m, x, n, d);
    ModulusUnique(xd, nd, m * d);
  }

  /** In particular a value scaled into other units is its own modulus exactly when
      the unscaled value is. */
  lemma ModulusInUnits(x: real, n: real, d: real, xd: real, dn: real)
    requires n > 0.0 && d > 0.0 && xd == x * d && dn == d * n
    ensures Modulus(xd, dn) == Modulus(x, n) * d
    ensures Modulus(xd, dn) == xd <==> Modulus(x, n) == x
  {
    assert dn == n * d;
    ModulusScale(x, n, d, xd, dn);
    MulCancel(Modulus(x, n), x, d);
  }

  lemma MulCancel(a: real, b: real, d: real)
    requires d > 0.0
    ensures a * d == b * d <==> a == b
  {
    assert a * d - b * d == (a - b) * d;
  }

  /** Scaling position, cycle and margin by a positive unit scales the fold. */
  lemma FoldScale(p: real, n: real, flag: real, d: real, pd: real, nd: real, fd: real)
    requires n > 0.0 && d > 0.0 && pd == p * d && nd == n * d && fd == flag * d
    ensures Fold(pd, nd, fd) == Fold(p, n, flag) * d
  {
    var f := Fold(p, n, flag);
    ScaleWindow(f, -flag, n - flag, d, f * d, -fd, nd - fd);
    CongruentScale(f, p, n, d);
    FoldUnique(pd, nd, fd, f * d);
  }

  /** A half-open window scales with its contents. */
  lemma ScaleWindow(m: real, lo: real, hi: real, d: real, md: real, lod: real, hid: real)
    requires lo <= m < hi && d > 0.0
    requires md == m * d && lod == lo * d && hid == hi * d
    ensures lod <= md < hid
  {
    assert md - lod == (m - lo) * d;
    assert hid - md == (hi - m) * d;
  }

  /** Scaling both sides and the modulus by a positive factor keeps a congruence. */
  lemma CongruentScale(a: real, b: real, m: real, d: real)
    requires m > 0.0 && d > 0.0 && Congruent(a, b, m)
    ensures Congruent(a * d, b * d, m * d)
  {
    assert (a * d - b * d) / (m * d) == (a - b) / m by {
      assert a * d - b * d == (a - b) * d;
    }
  }
}
