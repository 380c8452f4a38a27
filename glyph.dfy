/** The geometry of `char` and `text` in st7735r.py: which cells of a glyph
    are set, where each one is drawn, and where the pen of every character
    of a string lands. */
module Glyph {
  import opened Bus
  import opened Window

  /** A user font: the first and last character codes it covers, the size
      of a glyph, and the bitmaps, `width` column bytes per character with
      the top row in the least significant bit. */
  datatype Font = Font(start: int, end: int, width: int, height: int, bytes: seq<byte>)

  /** `startchar <= ci <= endchar`. */
  predicate Covers(f: Font, code: int)
  {
    f.start <= code <= f.end
  }

  /** How Python normalises a slice bound against a sequence of length n:
      a negative bound counts from the end, and bounds are clamped. */
  function SliceBound(i: int, n: nat): nat
  {
    if i < 0 then (if i + n < 0 then 0 else i + n) else if i > n then n else i
  }

  /** `bs[lo:hi]`. */
  function Slice(bs: seq<byte>, lo: int, hi: int): seq<byte>
  {
    var a, b := SliceBound(lo, |bs|), SliceBound(hi, |bs|);
    if a < b then bs[a..b] else []
  }

  /** `font._font[ci:ci + width]` with `ci = (code - start) * width`: the
      column bytes of the glyph of `code`. */
  function GlyphColumns(f: Font, code: int): seq<byte>
  {
    var ci := (code - f.start) * f.width;
    Slice(f.bytes, ci, ci + f.width)
  }

  /** In a font whose table holds every glyph it covers, the glyph of a
      covered code is exactly its `width` bytes. */
  lemma GlyphColumnsExact(f: Font, code: int)
    requires Covers(f, code) && f.width >= 0
    requires (code - f.start) * f.width + f.width <= |f.bytes|
    ensures var ci := (code - f.start) * f.width;
      0 <= ci && GlyphColumns(f, code) == f.bytes[ci..ci + f.width]
      && |GlyphColumns(f, code)| == f.width
  {
    MulNonneg(code - f.start, f.width);
  }

  /** The marks of one column as the unscaled or scaled inner loop places
      them: from (px, py), `n` rows `dy` apart, shifting the column byte `c`
      right once per row and marking the rows whose low bit is set. */
  function ColumnMarks(px: int, py: int, c: int, n: int, dy: int): seq<Point>
    decreases n
  {
    if n <= 0 then []
    else (if c % 2 == 1 then [Point(px, py)] else []) + ColumnMarks(px, py + dy, c / 2, n - 1, dy)
  }

  /** The marks of a whole glyph: one column after another, `dx` apart. */
  function GlyphMarks(px: int, py: int, ch: seq<byte>, n: int, dx: int, dy: int): seq<Point>
    decreases |ch|
  {
    if ch == [] then [] else ColumnMarks(px, py, ch[0], n, dy) + GlyphMarks(px + dx, py, ch[1..], n, dx, dy)
  }

  /** A set cell of a glyph: column index and row (bit) index. */
  datatype Cell = Cell(col: int, row: int)

  /** The set bits k .. n - 1 of column byte c, as cells of column col. */
  function ColumnCells(col: int, c: int, k: nat, n: int): seq<Cell>
    decreases n - k
  {
    if k >= n then [] else (if Bit(c, k) then [Cell(col, k)] else []) + ColumnCells(col, c, k + 1, n)
  }

  /** The set cells of columns j .. |ch| - 1, column by column, each column
      top to bottom. */
  function GlyphCells(ch: seq<byte>, j: nat, n: int): seq<Cell>
    decreases |ch| - j
  {
    if j >= |ch| then [] else ColumnCells(j, ch[j], 0, n) + GlyphCells(ch, j + 1, n)
  }

  /** Where a cell is drawn, with the glyph at (x, y) and cells dx by dy. */
  function Placed(x: int, y: int, cells: seq<Cell>, dx: int, dy: int): seq<Point>
  {
    if cells == [] then []
    else [Point(x + cells[0].col * dx, y + cells[0].row * dy)] + Placed(x, y, cells[1..], dx, dy)
  }

  lemma {:induction false} PlacedAppend(x: int, y: int, a: seq<Cell>, b: seq<Cell>, dx: int, dy: int)
    ensures Placed(x, y, a + b, dx, dy) == Placed(x, y, a, dx, dy) + Placed(x, y, b, dx, dy)
  {
    if a != [] {
      assert (a + b)[0] == a[0] && (a + b)[1..] == a[1..] + b;
      PlacedAppend(x, y, a[1..], b, dx, dy);
    } else {
      assert a + b == b;
    }
  }

  /** The shifting loop of one column marks exactly the cells of its set
      bits. */
  lemma {:induction false} ColumnMarksCells(x: int, y: int, j: int, c: int, k: nat, n: int, dx: int, dy: int)
    ensures ColumnMarks(x + j * dx, y + k * dy, Shifted(c, k), n - k, dy)
         == Placed(x, y, ColumnCells(j, c, k, n), dx, dy)
    decreases n - k
  {
    if k < n {
      ShiftedSucc(c, k);
      assert y + k * dy + dy == y + (k + 1) * dy;
      ColumnMarksCells(x, y, j, c, k + 1, n, dx, dy);
      var rest := ColumnCells(j, c, k + 1, n);
      if Bit(c, k) {
        PlacedAppend(x, y, [Cell(j, k)], rest, dx, dy);
        assert Placed(x, y, [Cell(j, k)], dx, dy) == [Point(x + j * dx, y + k * dy)];
      } else {
        assert ColumnCells(j, c, k, n) == rest;
      }
    }
  }

  /** The nested loops of a glyph mark exactly its set cells, in order. */
  lemma {:induction false} GlyphMarksCells(x: int, y: int, ch: seq<byte>, j: nat, n: int, dx: int, dy: int)
    requires j <= |ch|
    ensures GlyphMarks(x + j * dx, y, ch[j..], n, dx, dy) == Placed(x, y, GlyphCells(ch, j, n), dx, dy)
    decreases |ch| - j
  {
    if j < |ch| {
      assert ch[j..][0] == ch[j] && ch[j..][1..] == ch[j + 1..];
      assert x + j * dx + dx == x + (j + 1) * dx;
      GlyphMarksCells(x, y, ch, j + 1, n, dx, dy);
      ColumnMarksCells(x, y, j, ch[j], 0, n, dx, dy);
      assert Shifted(ch[j], 0) == ch[j];
      PlacedAppend(x, y, ColumnCells(j, ch[j], 0, n), GlyphCells(ch, j + 1, n), dx, dy);
    }
  }

  /** Cells in drawing order: by column, then by row. */
  predicate Before(a: Cell, b: Cell)
  {
    a.col < b.col || (a.col == b.col && a.row < b.row)
  }

  lemma {:induction false} ColumnCellsExact(col: int, c: int, k: nat, n: int)
    ensures forall r :: Cell(col, r) in ColumnCells(col, c, k, n) <==> k <= r < n && Bit(c, r)
    ensures forall i :: 0 <= i < |ColumnCells(col, c, k, n)| ==>
      ColumnCells(col, c, k, n)[i].col == col && ColumnCells(col, c, k, n)[i].row >= k
    ensures forall i, i' :: 0 <= i < i' < |ColumnCells(col, c, k, n)| ==>
      Before(ColumnCells(col, c, k, n)[i], ColumnCells(col, c, k, n)[i'])
    decreases n - k
  {
    if k < n {
      ColumnCellsExact(col, c, k + 1, n);
      var head := if Bit(c, k) then [Cell(col, k)] else [];
      var rest := ColumnCells(col, c, k + 1, n);
      var all := head + rest;
      forall i | 0 <= i < |all| ensures all[i].col == col && all[i].row >= k {
        if i >= |head| { assert all[i] == rest[i - |head|]; }
      }
      forall i, i' | 0 <= i < i' < |all| ensures Before(all[i], all[i']) {
        assert all[i'] == rest[i' - |head|];
        if i >= |head| { assert all[i] == rest[i - |head|]; }
      }
    }
  }

  /** The cells of a glyph are exactly the set bits among the low n bits of
      its column bytes. */
  lemma {:induction false} GlyphCellsMembers(ch: seq<byte>, j: nat, n: int)
    ensures forall col, r :: Cell(col, r) in GlyphCells(ch, j, n) <==>
      j <= col < |ch| && 0 <= r < n && Bit(ch[col], r)
    decreases |ch| - j
  {
    if j < |ch| {
      GlyphCellsMembers(ch, j + 1, n);
      ColumnCellsExact(j, ch[j], 0, n);
      var head := ColumnCells(j, ch[j], 0, n);
      var rest := GlyphCells(ch, j + 1, n);
      assert GlyphCells(ch, j, n) == head + rest;
      forall col, r
        ensures Cell(col, r) in head + rest <==> j <= col < |ch| && 0 <= r < n && Bit(ch[col], r)
      {
        if col == j {
          assert Cell(col, r) in head <==> 0 <= r < n && Bit(ch[j], r);
        }
      }
    }
  }

  /** Each cell of a glyph lies in a column from j on and above the eighth
      row (a column byte has no more bits). */
  lemma {:induction false} GlyphCellsBounds(ch: seq<byte>, j: nat, n: int)
    ensures forall i :: 0 <= i < |GlyphCells(ch, j, n)| ==>
      j <= GlyphCells(ch, j, n)[i].col < |ch| && 0 <= GlyphCells(ch, j, n)[i].row < 8
    decreases |ch| - j
  {
    if j < |ch| {
      GlyphCellsBounds(ch, j + 1, n);
      ColumnCellsExact(j, ch[j], 0, n);
      var head := ColumnCells(j, ch[j], 0, n);
      var rest := GlyphCells(ch, j + 1, n);
      var all := head + rest;
      forall i | 0 <= i < |all| ensures j <= all[i].col < |ch| && 0 <= all[i].row < 8 {
        if i >= |head| {
          assert all[i] == rest[i - |head|];
        } else {
          assert all[i] == head[i];
          assert all[i] == Cell(j, all[i].row);
          assert Bit(ch[j], all[i].row);
          if all[i].row >= 8 { ByteBits(ch[j], all[i].row); }
        }
      }
    }
  }

  /** The cells of a glyph come in drawing order, so none comes twice. */
  lemma {:induction false} GlyphCellsOrdered(ch: seq<byte>, j: nat, n: int)
    ensures forall i, i' :: 0 <= i < i' < |GlyphCells(ch, j, n)| ==>
      Before(GlyphCells(ch, j, n)[i], GlyphCells(ch, j, n)[i'])
    decreases |ch| - j
  {
    if j < |ch| {
      GlyphCellsOrdered(ch, j + 1, n);
      GlyphCellsBounds(ch, j + 1, n);
      ColumnCellsExact(j, ch[j], 0, n);
      var head := ColumnCells(j, ch[j], 0, n);
      var rest := GlyphCells(ch, j + 1, n);
      var all := head + rest;
      forall i, i' | 0 <= i < i' < |all| ensures Before(all[i], all[i']) {
        if i' >= |head| {
          assert all[i'] == rest[i' - |head|];
          if i >= |head| { assert all[i] == rest[i - |head|]; } else { assert all[i] == head[i]; }
        } else {
          assert all[i] == head[i] && all[i'] == head[i'];
        }
      }
    }
  }

  /** The pens of the characters of `text`: each character advances the pen
      by `adv`; whenever the next pen would leave a full advance past
      `limit`, the pen returns to `wrapX` on a line `lineH` lower. */
  function Pens(px: int, y: int, n: nat, adv: int, lineH: int, limit: int, wrapX: int): seq<Point>
    decreases n
  {
    if n == 0 then []
    else
      var q := px + adv;
      [Point(px, y)]
      + (if q + adv > limit then Pens(wrapX, y + lineH, n - 1, adv, lineH, limit, wrapX)
         else Pens(q, y, n - 1, adv, lineH, limit, wrapX))
  }

  /** The first pen, and the pens after it. */
  lemma PensStep(px: int, y: int, n: nat, adv: int, lineH: int, limit: int, wrapX: int)
    requires n > 0
    ensures var ps := Pens(px, y, n, adv, lineH, limit, wrapX);
      |ps| == n && ps[0] == Point(px, y)
      && ps[1..] == (if px + adv + adv > limit then Pens(wrapX, y + lineH, n - 1, adv, lineH, limit, wrapX)
                     else Pens(px + adv, y, n - 1, adv, lineH, limit, wrapX))
  {
    PensRule(px, y, n, adv, lineH, limit, wrapX);
  }

  /** One pen per character, the first at the start; every later pen is
      either one advance to the right on the same line, leaving room for a
      full advance before `limit`, or back at `wrapX` one line lower. */
  lemma {:induction false} PensRule(px: int, y: int, n: nat, adv: int, lineH: int, limit: int, wrapX: int)
    ensures var ps := Pens(px, y, n, adv, lineH, limit, wrapX);
      |ps| == n && (n > 0 ==> ps[0] == Point(px, y))
      && (forall i :: 0 <= i < n - 1 ==>
            (ps[i + 1] == Point(ps[i].x + adv, ps[i].y) && ps[i + 1].x + adv <= limit)
            || (ps[i + 1] == Point(wrapX, ps[i].y + lineH) && ps[i].x + 2 * adv > limit))
    decreases n
  {
    if n > 0 {
      var q := px + adv;
      var nx, ny := if q + adv > limit then wrapX else q, if q + adv > limit then y + lineH else y;
      PensRule(nx, ny, n - 1, adv, lineH, limit, wrapX);
      var ps := Pens(px, y, n, adv, lineH, limit, wrapX);
      var rest := Pens(nx, ny, n - 1, adv, lineH, limit, wrapX);
      assert ps == [Point(px, y)] + rest;
      forall i | 0 <= i < n - 1
        ensures (ps[i + 1] == Point(ps[i].x + adv, ps[i].y) && ps[i + 1].x + adv <= limit)
             || (ps[i + 1] == Point(wrapX, ps[i].y + lineH) && ps[i].x + 2 * adv > limit)
      {
        assert ps[i + 1] == rest[i];
        if i > 0 { assert ps[i] == rest[i - 1]; }
      }
    }
  }
}
