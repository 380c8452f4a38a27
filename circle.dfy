/** The geometry of `circle` and `circle_outline` in st7735r.py: the half
    chord `int(math.sqrt(radius*radius - i*i))` of every row, taken here as the
    integer floor square root, and the pixels of the outline. */
module Circle {
  import opened Window

  /** The floor square root of n, counting up from a. */
  function SqrtFrom(n: int, a: nat): (r: nat)
    requires a * a <= n
    ensures r * r <= n < (r + 1) * (r + 1)
    decreases n - a * a
  {
    if (a + 1) * (a + 1) > n then a else SqrtFrom(n, a + 1)
  }

  /** `int(math.sqrt(n))` for a non-negative integer n, as the exact floor
      square root. */
  function ISqrt(n: int): (r: nat)
    requires n >= 0
    ensures r * r <= n < (r + 1) * (r + 1)
  {
    SqrtFrom(n, 0)
  }

  lemma SquareMono(a: int, b: int)
    requires 0 <= a <= b
    ensures a * a <= b * b
  {
    assert a * a <= a * b <= b * b;
  }

  /** The floor square root is the only a with a * a <= n < (a + 1)^2. */
  lemma ISqrtUnique(n: int, a: nat)
    requires n >= 0
    ensures ISqrt(n) == a <==> a * a <= n < (a + 1) * (a + 1)
  {
    var r := ISqrt(n);
    if a * a <= n < (a + 1) * (a + 1) {
      if r < a {
        SquareMono(r + 1, a);
      } else if r > a {
        SquareMono(a + 1, r);
      }
    }
  }

  /** A larger argument never has a smaller root. */
  lemma ISqrtMono(n: int, m: int)
    requires 0 <= n <= m
    ensures ISqrt(n) <= ISqrt(m)
  {
    if ISqrt(n) > ISqrt(m) {
      SquareMono(ISqrt(m) + 1, ISqrt(n));
    }
  }

  /** The half chord `a` of row i of a circle of radius r. */
  function HalfChord(r: int, i: int): nat
    requires 1 <= i < r
  {
    ISqrt(r * r - i * i)
  }

  /** Row i of the circle reaches a columns out from the centre: the point
      (a, i) is inside the circle and (a + 1, i) outside, and the chord is
      shorter than the radius. */
  lemma HalfChordBounds(r: int, i: int)
    requires 1 <= i < r
    ensures var a := HalfChord(r, i);
      a * a + i * i <= r * r < (a + 1) * (a + 1) + i * i && a < r
  {
    var a := HalfChord(r, i);
    var n := r * r - i * i;
    assert a * a <= n < (a + 1) * (a + 1);
    ShorterThanRadius(r, i, a);
  }

  lemma ShorterThanRadius(r: int, i: int, a: nat)
    requires 1 <= i < r && a * a <= r * r - i * i
    ensures a < r
  {
    MulPos(i, i);
    if a >= r {
      SquareMono(r, a);
    }
  }

  lemma MulPos(a: int, b: int)
    requires a >= 1 && b >= 1
    ensures a * b >= 1
  {
  }

  /** The chord shrinks (weakly) from row to row. */
  lemma HalfChordShrinks(r: int, i: int)
    requires 1 <= i && i + 1 < r
    ensures HalfChord(r, i + 1) <= HalfChord(r, i)
  {
    SquareMono(i, i + 1);
    SquareMono(i + 1, r);
    ISqrtMono(r * r - (i + 1) * (i + 1), r * r - i * i);
  }

  /** Every column a filled row covers, from x - a to x + a - 1 (the window
      of `hline(x - a, y + i, a * 2)`), lies inside the circle. */
  lemma RowInside(r: int, i: int, d: int)
    requires 1 <= i < r
    requires d + HalfChord(r, i) >= 0 && d < HalfChord(r, i)
    ensures d * d + i * i <= r * r
  {
    HalfChordBounds(r, i);
    var a := HalfChord(r, i);
    if d >= 0 { SquareMono(d, a); } else { SquareMono(-d, a); }
  }

  /** The eight pixels of row i of the outline, in drawing order. */
  function ArcRow(x: int, y: int, r: int, i: int): seq<Point>
    requires 1 <= i < r
  {
    var a := HalfChord(r, i);
    [Point(x - a, y - i), Point(x - i, y - a), Point(x + a, y - i), Point(x + i, y - a),
     Point(x - a, y + i), Point(x - i, y + a), Point(x + a, y + i), Point(x + i, y + a)]
  }

  /** The rows i, i + 1, ..., r - 1 of the outline. */
  function Arcs(x: int, y: int, r: int, i: int): seq<Point>
    requires i >= 1
    decreases r - i
  {
    if i >= r then [] else ArcRow(x, y, r, i) + Arcs(x, y, r, i + 1)
  }

  /** Rows i, i + 1, ... of the outline: the eight pixels of row i, then
      the rows after it. */
  lemma ArcsHead(x: int, y: int, r: int, i: int, a: int)
    requires 1 <= i < r && a == HalfChord(r, i)
    ensures Arcs(x, y, r, i)
         == [Point(x - a, y - i)] + ([Point(x - i, y - a)] + ([Point(x + a, y - i)] + ([Point(x + i, y - a)]
            + ([Point(x - a, y + i)] + ([Point(x - i, y + a)] + ([Point(x + a, y + i)] + ([Point(x + i, y + a)]
            + Arcs(x, y, r, i + 1))))))))
  {
  }

  lemma ArcsEnd(x: int, y: int, r: int, i: int)
    requires 1 <= i && r <= i
    ensures Arcs(x, y, r, i) == []
  {
  }

  /** The pixels `circle_outline(x, y, radius)` plots, in order: the four
      extreme points, then eight per row. */
  function OutlinePoints(x: int, y: int, r: int): seq<Point>
  {
    [Point(x - r, y), Point(x + r, y), Point(x, y - r), Point(x, y + r)] + Arcs(x, y, r, 1)
  }

  /** A point on the rim: inside the circle, and one step further out along
      one of the axes is outside. */
  predicate OnRim(p: Point, x: int, y: int, r: int)
  {
    var dx, dy := Abs(p.x - x), Abs(p.y - y);
    dx * dx + dy * dy <= r * r
    && (r * r < (dx + 1) * (dx + 1) + dy * dy || r * r < dx * dx + (dy + 1) * (dy + 1))
  }

  function Abs(v: int): nat { if v < 0 then -v else v }

  /** A point u columns and v rows away from the centre, with (u, v) on
      the rim, is on the rim. */
  lemma RimPoint(p: Point, x: int, y: int, r: int, u: int, v: int)
    requires Abs(p.x - x) == u && Abs(p.y - y) == v
    requires u * u + v * v <= r * r && r * r < (u + 1) * (u + 1) + v * v
    ensures OnRim(p, x, y, r)
  {
  }

  lemma RimPointSwapped(p: Point, x: int, y: int, r: int, u: int, v: int)
    requires Abs(p.x - x) == v && Abs(p.y - y) == u
    requires u * u + v * v <= r * r && r * r < (u + 1) * (u + 1) + v * v
    ensures OnRim(p, x, y, r)
  {
  }

  lemma ArcRowOnRim(x: int, y: int, r: int, i: int)
    requires 1 <= i < r
    ensures forall k :: 0 <= k < 8 ==> OnRim(ArcRow(x, y, r, i)[k], x, y, r)
  {
    HalfChordBounds(r, i);
    var a := HalfChord(r, i);
    var row := ArcRow(x, y, r, i);
    RimPoint(row[0], x, y, r, a, i);
    RimPointSwapped(row[1], x, y, r, a, i);
    RimPoint(row[2], x, y, r, a, i);
    RimPointSwapped(row[3], x, y, r, a, i);
    RimPoint(row[4], x, y, r, a, i);
    RimPointSwapped(row[5], x, y, r, a, i);
    RimPoint(row[6], x, y, r, a, i);
    RimPointSwapped(row[7], x, y, r, a, i);
  }

  lemma {:induction false} ArcsOnRim(x: int, y: int, r: int, i: int)
    requires i >= 1
    ensures |Arcs(x, y, r, i)| == 8 * (if i < r then r - i else 0)
    ensures forall k :: 0 <= k < |Arcs(x, y, r, i)| ==> OnRim(Arcs(x, y, r, i)[k], x, y, r)
    decreases r - i
  {
    if i < r {
      ArcsOnRim(x, y, r, i + 1);
      ArcRowOnRim(x, y, r, i);
      var row := ArcRow(x, y, r, i);
      var rest := Arcs(x, y, r, i + 1);
      forall k | 0 <= k < |row + rest| ensures OnRim((row + rest)[k], x, y, r) {
        if k >= 8 { assert (row + rest)[k] == rest[k - 8]; }
      }
    }
  }

  /** Every pixel of the outline lies on the rim of the circle, and there
      are four plus eight per row 1 .. r - 1 of them. */
  lemma OutlineOnRim(x: int, y: int, r: int)
    requires r >= 0
    ensures |OutlinePoints(x, y, r)| == 4 + 8 * (if r > 1 then r - 1 else 0)
    ensures forall k :: 0 <= k < |OutlinePoints(x, y, r)| ==> OnRim(OutlinePoints(x, y, r)[k], x, y, r)
  {
    ArcsOnRim(x, y, r, 1);
    var ends := [Point(x - r, y), Point(x + r, y), Point(x, y - r), Point(x, y + r)];
    var pts := OutlinePoints(x, y, r);
    forall k | 0 <= k < |pts| ensures OnRim(pts[k], x, y, r) {
      if k >= 4 {
        assert pts[k] == Arcs(x, y, r, 1)[k - 4];
      } else {
        assert pts[k] == ends[k];
      }
    }
  }
}
