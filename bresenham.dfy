/** The integer line algorithm of `line` in st7735r.py: the pixels its loops
    plot, and what they are in closed form. */
module Bresenham {
  import opened Bus
  import opened Window

  function Abs(v: int): nat { if v < 0 then -v else v }

  /** `1 if v > 0 else -1`. */
  function Step(v: int): int { if v > 0 then 1 else -1 }

  /** A point given by its coordinate along the major axis and along the minor
      one; `steep` is the source's name for x being the major axis (dx >= dy). */
  function Orient(major: int, minor: int, steep: bool): Point
  {
    if steep then Point(major, minor) else Point(minor, major)
  }

  /** One of the two `while` loops of `line`: plot the current point, step the
      minor coordinate and take the doubled major delta `da2` off the error
      when the error is non-negative, add the doubled minor delta `db2`, step
      the major coordinate; stop when the major coordinate reaches `aEnd`,
      which is not plotted. */
  function Walk(a: int, b: int, aEnd: int, e: int, ia: int, ib: int, da2: int, db2: int, steep: bool): seq<Point>
    requires (ia == 1 && a <= aEnd) || (ia == -1 && a >= aEnd)
    decreases Abs(aEnd - a)
  {
    if a == aEnd then []
    else
      var b', e' := if e >= 0 then b + ib else b, if e >= 0 then e - da2 else e;
      [Orient(a, b, steep)] + Walk(a + ia, b', aEnd, e' + db2, ia, ib, da2, db2, steep)
  }

  /** The pixels of the general (neither vertical nor horizontal) case of
      `line(x0, y0, x1, y1)`, in the order they are plotted. */
  function LinePoints(x0: int, y0: int, x1: int, y1: int): seq<Point>
  {
    var dx, dy := Abs(x1 - x0), Abs(y1 - y0);
    var inx, iny := Step(x1 - x0), Step(y1 - y0);
    if dx >= dy then Walk(x0, y0, x1, 2 * dy - dx, inx, iny, 2 * dx, 2 * dy, true)
    else Walk(y0, x0, y1, 2 * dx - dy, iny, inx, 2 * dy, 2 * dx, false)
  }

  /** n / d rounded to the nearest integer, halves rounded up. */
  function Round(n: int, d: int): int
    requires d > 0
  {
    (2 * n + d) / (2 * d)
  }

  /** `a0 + k * ia` for a unit step `ia`. */
  function Along(a0: int, k: int, ia: int): int
  {
    if ia == 1 then a0 + k else a0 - k
  }

  /** The quotient is the unique q with d * q <= n < d * q + d. */
  lemma DivUnique(n: int, d: int, q: int)
    requires d > 0 && d * q <= n < d * q + d
    ensures n / d == q
  {
    var q0 := n / d;
    assert d * q0 <= n < d * q0 + d;
    if q < q0 {
      MulNonneg(d, q0 - q - 1);
    } else if q > q0 {
      MulNonneg(d, q - q0 - 1);
    }
  }

  /** The characterisation of Round: the nearest integer, halves up. */
  lemma RoundNearest(n: int, d: int, j: int)
    requires d > 0
    ensures Round(n, d) == j <==> -d <= 2 * n - 2 * d * j < d
  {
    var q := Round(n, d);
    assert 2 * d * q <= 2 * n + d < 2 * d * q + 2 * d;
    assert 2 * d * j == (2 * d) * j;
    if -d <= 2 * n - 2 * d * j < d {
      DivUnique(2 * n + d, 2 * d, j);
    }
  }

  /** The loop invariant of the error term at step k, with j minor steps
      taken so far (dbk and daj stand for db * k and da * j). */
  predicate ErrorInvariant(da: int, db: int, k: int, j: int, e: int, dbk: int, daj: int)
  {
    0 <= db <= da && da > 0 && 0 <= k <= da
    && dbk == db * k && daj == da * j
    && e == 2 * dbk + 2 * db - da - 2 * daj
    && 2 * db - 2 * da <= e < 2 * db
  }

  /** One iteration keeps the invariant, and the invariant makes the minor
      offset at step k the rounded value of db * k / da. */
  lemma ErrorStep(da: int, db: int, k: int, j: int, e: int, dbk: int, daj: int)
    requires ErrorInvariant(da, db, k, j, e, dbk, daj) && k < da
    ensures Round(db * k, da) == j
    ensures ErrorInvariant(da, db, k + 1, if e >= 0 then j + 1 else j,
                           (if e >= 0 then e - 2 * da else e) + 2 * db,
                           dbk + db, if e >= 0 then daj + da else daj)
  {
    RoundNearest(dbk, da, j);
    assert db * (k + 1) == dbk + db;
    assert da * (j + 1) == daj + da;
  }

  /** The walk from its k-th step on: the plotted minor offset at every step
      is Round(db * step, da). */
  lemma {:induction false} WalkFrom(a0: int, b0: int, da: int, db: int, ia: int, ib: int, steep: bool,
                                    k: int, j: int, e: int, dbk: int, daj: int)
    requires ErrorInvariant(da, db, k, j, e, dbk, daj)
    requires (ia == 1 || ia == -1) && (ib == 1 || ib == -1)
    ensures (ia == 1 && Along(a0, k, ia) <= Along(a0, da, ia)) || (ia == -1 && Along(a0, k, ia) >= Along(a0, da, ia))
    ensures var w := Walk(Along(a0, k, ia), Along(b0, j, ib), Along(a0, da, ia), e, ia, ib, 2 * da, 2 * db, steep);
      |w| == da - k
      && forall i :: 0 <= i < |w| ==> w[i] == Orient(Along(a0, k + i, ia), Along(b0, Round(db * (k + i), da), ib), steep)
    decreases da - k
  {
    var a, b, aEnd := Along(a0, k, ia), Along(b0, j, ib), Along(a0, da, ia);
    if k < da {
      ErrorStep(da, db, k, j, e, dbk, daj);
      var j' := if e >= 0 then j + 1 else j;
      var e' := (if e >= 0 then e - 2 * da else e) + 2 * db;
      WalkFrom(a0, b0, da, db, ia, ib, steep, k + 1, j', e', dbk + db, if e >= 0 then daj + da else daj);
      var rest := Walk(Along(a0, k + 1, ia), Along(b0, j', ib), aEnd, e', ia, ib, 2 * da, 2 * db, steep);
      assert Along(b0, j', ib) == (if e >= 0 then b + ib else b);
      assert a + ia == Along(a0, k + 1, ia);
      var w := Walk(a, b, aEnd, e, ia, ib, 2 * da, 2 * db, steep);
      assert w == [Orient(a, b, steep)] + rest;
      hide Walk, Round, ErrorInvariant, Orient;
      forall i | 0 <= i < |w|
        ensures w[i] == Orient(Along(a0, k + i, ia), Along(b0, Round(db * (k + i), da), ib), steep)
      {
        if i > 0 {
          assert w[i] == rest[i - 1];
          assert k + 1 + (i - 1) == k + i;
        }
      }
    }
  }

  lemma AlongIsMul(a0: int, k: int, ia: int)
    requires ia == 1 || ia == -1
    ensures Along(a0, k, ia) == a0 + k * ia
  {
  }

  /** Closed form of the general case of `line`: one pixel per step along
      the major axis, the endpoint excluded, each at the lattice point nearest
      to the true segment on the minor axis (halves rounded away from the
      start). */
  lemma LineClosedForm(x0: int, y0: int, x1: int, y1: int)
    requires x0 != x1 && y0 != y1
    ensures var dx, dy := Abs(x1 - x0), Abs(y1 - y0);
      var inx, iny := Step(x1 - x0), Step(y1 - y0);
      var pts := LinePoints(x0, y0, x1, y1);
      |pts| == (if dx >= dy then dx else dy)
      && (dx >= dy ==> forall i :: 0 <= i < |pts| ==> pts[i] == Point(x0 + i * inx, y0 + Round(dy * i, dx) * iny))
      && (dx < dy ==> forall i :: 0 <= i < |pts| ==> pts[i] == Point(x0 + Round(dx * i, dy) * inx, y0 + i * iny))
  {
    var dx, dy := Abs(x1 - x0), Abs(y1 - y0);
    var inx, iny := Step(x1 - x0), Step(y1 - y0);
    var pts := LinePoints(x0, y0, x1, y1);
    assert x1 == Along(x0, dx, inx) && y1 == Along(y0, dy, iny);
    if dx >= dy {
      assert ErrorInvariant(dx, dy, 0, 0, 2 * dy - dx, 0, 0);
      WalkFrom(x0, y0, dx, dy, inx, iny, true, 0, 0, 2 * dy - dx, 0, 0);
      forall i | 0 <= i < |pts| ensures pts[i] == Point(x0 + i * inx, y0 + Round(dy * i, dx) * iny) {
        AlongIsMul(x0, i, inx);
        AlongIsMul(y0, Round(dy * i, dx), iny);
      }
    } else {
      assert ErrorInvariant(dy, dx, 0, 0, 2 * dx - dy, 0, 0);
      WalkFrom(y0, x0, dy, dx, iny, inx, false, 0, 0, 2 * dx - dy, 0, 0);
      forall i | 0 <= i < |pts| ensures pts[i] == Point(x0 + Round(dx * i, dy) * inx, y0 + i * iny) {
        AlongIsMul(y0, i, iny);
        AlongIsMul(x0, Round(dx * i, dy), inx);
      }
    }
  }

  /** Adding at most one divisor's worth to a dividend moves the quotient
      by zero or one. */
  lemma DivStep(m: int, s: int, d: int)
    requires d > 0 && 0 <= s <= d
    ensures 0 <= (m + s) / d - m / d <= 1
  {
    var q := m / d;
    assert d * q <= m < d * q + d;
    assert d * (q + 1) == d * q + d;
    if m + s < d * q + d {
      DivUnique(m + s, d, q);
    } else {
      DivUnique(m + s, d, q + 1);
    }
  }

  /** A dividend below d * q has a quotient below q. */
  lemma DivBelow(m: int, d: int, q: int)
    requires d > 0 && m < d * q
    ensures m / d < q
  {
    var q0 := m / d;
    assert d * q0 <= m;
    if q0 >= q {
      MulNonneg(d, q0 - q);
    }
  }

  /** Round(db * i, da) over 0 <= i < da stays in [0, db] and moves by zero
      or one each step. */
  lemma RoundSteps(db: int, da: int, i: int)
    requires 0 <= db <= da && da > 0 && 0 <= i
    ensures 0 <= Round(db * i, da)
    ensures i < da ==> Round(db * i, da) <= db
    ensures 0 <= Round(db * (i + 1), da) - Round(db * i, da) <= 1
  {
    var n := db * i;
    MulNonneg(db, i);
    assert db * (i + 1) == n + db;
    DivStep(2 * n + da, 2 * db, 2 * da);
    assert 2 * (n + db) + da == (2 * n + da) + 2 * db;
    if i < da {
      RoundAtMost(db, da, i, n);
    }
  }

  lemma RoundAtMost(db: int, da: int, i: int, n: int)
    requires 0 <= db <= da && 0 <= i < da && n == db * i
    ensures Round(n, da) <= db
  {
    MulNonneg(db, da - 1 - i);
    assert db * (da - 1 - i) == db * da - db - n;
    assert (2 * da) * (db + 1) == 2 * (db * da) + 2 * da;
    DivBelow(2 * n + da, 2 * da, db + 1);
  }

  /** The general case of `line`, step by step: it starts at (x0, y0); the
      major coordinate moves by exactly one unit toward the endpoint at every
      step; the minor one moves by zero or one unit, only toward the
      endpoint; every pixel lies in the segment's bounding box and the
      endpoint itself is never plotted. */
  lemma LineSteps(x0: int, y0: int, x1: int, y1: int)
    requires x0 != x1 && y0 != y1
    ensures var pts := LinePoints(x0, y0, x1, y1);
      var inx, iny := Step(x1 - x0), Step(y1 - y0);
      var steep := Abs(x1 - x0) >= Abs(y1 - y0);
      |pts| > 0 && pts[0] == Point(x0, y0)
      && (forall i :: 0 <= i < |pts| ==>
            (if x0 <= x1 then x0 <= pts[i].x <= x1 else x1 <= pts[i].x <= x0)
            && (if y0 <= y1 then y0 <= pts[i].y <= y1 else y1 <= pts[i].y <= y0)
            && pts[i] != Point(x1, y1))
      && (forall i :: 0 <= i < |pts| - 1 ==>
            (steep ==> pts[i + 1].x == pts[i].x + inx && (pts[i + 1].y == pts[i].y || pts[i + 1].y == pts[i].y + iny))
            && (!steep ==> pts[i + 1].y == pts[i].y + iny && (pts[i + 1].x == pts[i].x || pts[i + 1].x == pts[i].x + inx)))
  {
    var dx, dy := Abs(x1 - x0), Abs(y1 - y0);
    LineClosedForm(x0, y0, x1, y1);
    RoundSteps(if dx >= dy then dy else dx, if dx >= dy then dx else dy, 0);
    hide LinePoints;
    LineInBox(x0, y0, x1, y1);
    LineMoves(x0, y0, x1, y1);
  }

  /** Every pixel of the general case lies in the segment's bounding box,
      and none is the endpoint. */
  lemma LineInBox(x0: int, y0: int, x1: int, y1: int)
    requires x0 != x1 && y0 != y1
    ensures var pts := LinePoints(x0, y0, x1, y1);
      forall i :: 0 <= i < |pts| ==>
        (if x0 <= x1 then x0 <= pts[i].x <= x1 else x1 <= pts[i].x <= x0)
        && (if y0 <= y1 then y0 <= pts[i].y <= y1 else y1 <= pts[i].y <= y0)
        && pts[i] != Point(x1, y1)
  {
    var dx, dy := Abs(x1 - x0), Abs(y1 - y0);
    var inx, iny := Step(x1 - x0), Step(y1 - y0);
    var pts := LinePoints(x0, y0, x1, y1);
    LineClosedForm(x0, y0, x1, y1);
    hide LinePoints, Walk;
    forall i | 0 <= i < |pts|
      ensures (if x0 <= x1 then x0 <= pts[i].x <= x1 else x1 <= pts[i].x <= x0)
      ensures (if y0 <= y1 then y0 <= pts[i].y <= y1 else y1 <= pts[i].y <= y0)
      ensures pts[i] != Point(x1, y1)
    {
      if dx >= dy {
        RoundSteps(dy, dx, i);
        var r := Round(dy * i, dx);
        assert pts[i] == Point(x0 + i * inx, y0 + r * iny);
        assert 0 <= i < dx && 0 <= r <= dy;
        if inx == 1 { assert x0 + i * inx == x0 + i; } else { assert x0 + i * inx == x0 - i; }
        if iny == 1 { assert y0 + r * iny == y0 + r; } else { assert y0 + r * iny == y0 - r; }
      } else {
        RoundSteps(dx, dy, i);
        var r := Round(dx * i, dy);
        assert pts[i] == Point(x0 + r * inx, y0 + i * iny);
        assert 0 <= i < dy && 0 <= r <= dx;
        if inx == 1 { assert x0 + r * inx == x0 + r; } else { assert x0 + r * inx == x0 - r; }
        if iny == 1 { assert y0 + i * iny == y0 + i; } else { assert y0 + i * iny == y0 - i; }
      }
    }
  }

  /** From one pixel of the general case to the next, the major coordinate
      steps once toward the endpoint and the minor one at most once. */
  lemma LineMoves(x0: int, y0: int, x1: int, y1: int)
    requires x0 != x1 && y0 != y1
    ensures var pts := LinePoints(x0, y0, x1, y1);
      var inx, iny := Step(x1 - x0), Step(y1 - y0);
      var steep := Abs(x1 - x0) >= Abs(y1 - y0);
      forall i :: 0 <= i < |pts| - 1 ==>
        (steep ==> pts[i + 1].x == pts[i].x + inx && (pts[i + 1].y == pts[i].y || pts[i + 1].y == pts[i].y + iny))
        && (!steep ==> pts[i + 1].y == pts[i].y + iny && (pts[i + 1].x == pts[i].x || pts[i + 1].x == pts[i].x + inx))
  {
    var dx, dy := Abs(x1 - x0), Abs(y1 - y0);
    var inx, iny := Step(x1 - x0), Step(y1 - y0);
    var pts := LinePoints(x0, y0, x1, y1);
    LineClosedForm(x0, y0, x1, y1);
    hide LinePoints, Walk;
    forall i | 0 <= i < |pts| - 1
      ensures dx >= dy ==> pts[i + 1].x == pts[i].x + inx && (pts[i + 1].y == pts[i].y || pts[i + 1].y == pts[i].y + iny)
      ensures dx < dy ==> pts[i + 1].y == pts[i].y + iny && (pts[i + 1].x == pts[i].x || pts[i + 1].x == pts[i].x + inx)
    {
      if dx >= dy {
        RoundSteps(dy, dx, i);
        var r0, r1 := Round(dy * i, dx), Round(dy * (i + 1), dx);
        assert pts[i + 1].y - pts[i].y == (r1 - r0) * iny;
        assert pts[i + 1].x - pts[i].x == inx;
      } else {
        RoundSteps(dx, dy, i);
        var r0, r1 := Round(dx * i, dy), Round(dx * (i + 1), dy);
        assert pts[i + 1].x - pts[i].x == (r1 - r0) * inx;
        assert pts[i + 1].y - pts[i].y == iny;
      }
    }
  }
}
