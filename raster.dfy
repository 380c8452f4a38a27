/** The bus events of every drawing call of st7735r.py, as functions of the
    driver's surface: `pixel`, `rect`, `hline`, `vline`, `rect_outline`, the
    three fills, `line`, `triangle_outline`, `circle`, `circle_outline`,
    `char` and `text`. Each `...Fits` predicate says that every address the
    call stores into `_caset` or `_raset` fits a byte. */
module Raster {
  import opened Bus
  import opened Burst
  import opened Rgb565
  import opened Window
  import opened Glyph
  import Bresenham
  import Circle

  /** `bytearray([color >> 8, color])` as one run of data. */
  function Paint(s: Surface, c: Color, count: int): seq<Event>
  {
    RepeatFrame(s.hasCs, ColorBytes(c), count)
  }

  // ---------------------------------------------------------------- pixel

  predicate PixelFits(s: Surface, x: int, y: int)
  {
    WindowFits(s, x, y, x + 1, y + 1)
  }

  /** `pixel(x, y, color)`: a window from (x, y) to (x + 1, y + 1), then the
      colour once. */
  function PixelEvents(s: Surface, x: int, y: int, c: Color): seq<Event>
    requires PixelFits(s, x, y)
  {
    WindowFrame(s, x, y, x + 1, y + 1) + Paint(s, c, 1)
  }

  // ------------------------------------------------------------- clipping

  /** The early return of `rect`, `hline` and `vline`. */
  predicate Offscreen(s: Surface, x: int, y: int)
  {
    x >= s.width || y >= s.height
  }

  /** A length cut back so that the span from pos ends at limit - 1 at the
      latest; only the far edge is clipped. */
  function Clip(pos: int, len: int, limit: int): int
  {
    if pos + len - 1 >= limit then limit - pos else len
  }

  predicate RectFits(s: Surface, x: int, y: int, w: int, h: int)
  {
    Offscreen(s, x, y)
    || WindowFits(s, x, y, x + Clip(x, w, s.width) - 1, y + Clip(y, h, s.height) - 1)
  }

  /** `rect(x, y, w, h, color)`: nothing when (x, y) is past the right or
      bottom edge; otherwise the clipped window and w * h colour copies of
      the clipped size. */
  function RectEvents(s: Surface, x: int, y: int, w: int, h: int, c: Color): seq<Event>
    requires RectFits(s, x, y, w, h)
  {
    if Offscreen(s, x, y) then []
    else
      var w', h' := Clip(x, w, s.width), Clip(y, h, s.height);
      WindowFrame(s, x, y, x + w' - 1, y + h' - 1) + Paint(s, c, w' * h')
  }

  predicate HLineFits(s: Surface, x: int, y: int, w: int)
  {
    Offscreen(s, x, y) || WindowFits(s, x, y, x + Clip(x, w, s.width) - 1, y)
  }

  /** `hline(x, y, w, color)`: the clipped one-row window, then as many
      colour copies as the window's last column index, x + w - 1. */
  function HLineEvents(s: Surface, x: int, y: int, w: int, c: Color): seq<Event>
    requires HLineFits(s, x, y, w)
  {
    if Offscreen(s, x, y) then []
    else
      var w' := Clip(x, w, s.width);
      WindowFrame(s, x, y, x + w' - 1, y) + Paint(s, c, x + w' - 1)
  }

  predicate VLineFits(s: Surface, x: int, y: int, h: int)
  {
    Offscreen(s, x, y) || WindowFits(s, x, y, x, y + Clip(y, h, s.height) - 1)
  }

  /** `vline(x, y, h, color)`: the clipped one-column window, then as many
      colour copies as the window's last row index, y + h - 1. */
  function VLineEvents(s: Surface, x: int, y: int, h: int, c: Color): seq<Event>
    requires VLineFits(s, x, y, h)
  {
    if Offscreen(s, x, y) then []
    else
      var h' := Clip(y, h, s.height);
      WindowFrame(s, x, y, x, y + h' - 1) + Paint(s, c, y + h' - 1)
  }

  // ----------------------------------------------------------------- fills

  predicate FillFits(s: Surface)
  {
    RectFits(s, 0, 0, s.width, s.height)
  }

  /** `fill(color)`: a rectangle over the whole surface. */
  function FillEvents(s: Surface, c: Color): seq<Event>
    requires FillFits(s)
  {
    RectEvents(s, 0, 0, s.width, s.height, c)
  }

  predicate FullWindowFits(s: Surface)
  {
    WindowFits(s, 0, 0, s.width - 1, s.height - 1)
  }

  /** `fill_slow(color)`: the whole window, one write per pixel. */
  function FillSlowEvents(s: Surface, c: Color): seq<Event>
    requires FullWindowFits(s)
  {
    WindowFrame(s, 0, 0, s.width - 1, s.height - 1) + RepeatSlowFrame(s.hasCs, ColorBytes(c), s.width * s.height)
  }

  /** `fill_bulk(color)`: the whole window, one write for all pixels. */
  function FillBulkEvents(s: Surface, c: Color): seq<Event>
    requires FullWindowFits(s)
  {
    WindowFrame(s, 0, 0, s.width - 1, s.height - 1) + RepeatBulkFrame(s.hasCs, ColorBytes(c), s.width * s.height)
  }

  // ---------------------------------------------------------- rect_outline

  predicate RectOutlineFits(s: Surface, x: int, y: int, w: int, h: int)
  {
    HLineFits(s, x, y, w) && VLineFits(s, x + w - 1, y, h)
    && HLineFits(s, x, y + h - 1, w) && VLineFits(s, x, y, h)
  }

  /** `rect_outline(x, y, w, h, color)`: top, right, bottom, left. */
  function RectOutlineEvents(s: Surface, x: int, y: int, w: int, h: int, c: Color): seq<Event>
    requires RectOutlineFits(s, x, y, w, h)
  {
    HLineEvents(s, x, y, w, c) + VLineEvents(s, x + w - 1, y, h, c)
    + HLineEvents(s, x, y + h - 1, w, c) + VLineEvents(s, x, y, h, c)
  }

  // ----------------------------------------------------------------- marks

  /** What is drawn at each marked point: a pixel, or a filled rectangle
      (the scaled glyphs of `char`). */
  datatype Brush = Dot | Block(w: int, h: int)

  predicate MarkFits(s: Surface, p: Point, b: Brush)
  {
    match b
    case Dot => PixelFits(s, p.x, p.y)
    case Block(w, h) => RectFits(s, p.x, p.y, w, h)
  }

  function MarkEvents(s: Surface, p: Point, b: Brush, c: Color): seq<Event>
    requires MarkFits(s, p, b)
  {
    match b
    case Dot => PixelEvents(s, p.x, p.y, c)
    case Block(w, h) => RectEvents(s, p.x, p.y, w, h, c)
  }

  predicate MarksFit(s: Surface, pts: seq<Point>, b: Brush)
    decreases |pts|
  {
    pts == [] || (MarkFits(s, pts[0], b) && MarksFit(s, pts[1..], b))
  }

  /** One mark per point, in order. */
  function MarksEvents(s: Surface, pts: seq<Point>, b: Brush, c: Color): seq<Event>
    requires MarksFit(s, pts, b)
    decreases |pts|
  {
    if pts == [] then [] else MarkEvents(s, pts[0], b, c) + MarksEvents(s, pts[1..], b, c)
  }

  /** Marks of a concatenation: they fit when both parts do, and are the
      marks of one part, then of the other. */
  lemma {:induction false} MarksAppend(s: Surface, p: seq<Point>, q: seq<Point>, b: Brush, c: Color)
    ensures MarksFit(s, p + q, b) <==> MarksFit(s, p, b) && MarksFit(s, q, b)
    ensures MarksFit(s, p + q, b) ==> MarksEvents(s, p + q, b, c) == MarksEvents(s, p, b, c) + MarksEvents(s, q, b, c)
    decreases |p|
  {
    hide MarkFits, MarkEvents;
    if p == [] {
      assert p + q == q;
    } else {
      assert (p + q)[0] == p[0] && (p + q)[1..] == p[1..] + q;
      MarksAppend(s, p[1..], q, b, c);
    }
  }

  // ------------------------------------------------------------------ line

  /** The endpoint `line` passes to `vline` or `hline`: the one with the
      smaller varying coordinate (the second on a tie is never chosen). */
  function LowEnd(x0: int, y0: int, x1: int, y1: int, vertical: bool): Point
  {
    if vertical then (if y1 < y0 then Point(x1, y1) else Point(x0, y0))
    else (if x1 < x0 then Point(x1, y1) else Point(x0, y0))
  }

  predicate LineFits(s: Surface, x0: int, y0: int, x1: int, y1: int)
  {
    if x0 == x1 then
      var p := LowEnd(x0, y0, x1, y1, true); VLineFits(s, p.x, p.y, Bresenham.Abs(y1 - y0) + 1)
    else if y0 == y1 then
      var p := LowEnd(x0, y0, x1, y1, false); HLineFits(s, p.x, p.y, Bresenham.Abs(x1 - x0) + 1)
    else MarksFit(s, Bresenham.LinePoints(x0, y0, x1, y1), Dot)
  }

  /** `line(x0, y0, x1, y1, color)`: a vertical or horizontal segment as one
      `vline` or `hline` from its lower end, any other one pixel by pixel
      along the Bresenham walk. */
  function LineEvents(s: Surface, x0: int, y0: int, x1: int, y1: int, c: Color): seq<Event>
    requires LineFits(s, x0, y0, x1, y1)
  {
    if x0 == x1 then
      var p := LowEnd(x0, y0, x1, y1, true); VLineEvents(s, p.x, p.y, Bresenham.Abs(y1 - y0) + 1, c)
    else if y0 == y1 then
      var p := LowEnd(x0, y0, x1, y1, false); HLineEvents(s, p.x, p.y, Bresenham.Abs(x1 - x0) + 1, c)
    else MarksEvents(s, Bresenham.LinePoints(x0, y0, x1, y1), Dot, c)
  }

  predicate TriangleFits(s: Surface, x0: int, y0: int, x1: int, y1: int, x2: int, y2: int)
  {
    LineFits(s, x0, y0, x1, y1) && LineFits(s, x1, y1, x2, y2) && LineFits(s, x2, y2, x0, y0)
  }

  /** `triangle_outline`: three connected lines. */
  function TriangleEvents(s: Surface, x0: int, y0: int, x1: int, y1: int, x2: int, y2: int, c: Color): seq<Event>
    requires TriangleFits(s, x0, y0, x1, y1, x2, y2)
  {
    LineEvents(s, x0, y0, x1, y1, c) + LineEvents(s, x1, y1, x2, y2, c) + LineEvents(s, x2, y2, x0, y0, c)
  }

  // ---------------------------------------------------------------- circle

  predicate RowsFit(s: Surface, x: int, y: int, r: int, i: int)
    requires i >= 1
    decreases r - i
  {
    i >= r
    || (var a := Circle.HalfChord(r, i);
        HLineFits(s, x - a, y + i, a * 2) && HLineFits(s, x - a, y - i, a * 2) && RowsFit(s, x, y, r, i + 1))
  }

  /** Rows i .. r - 1 of `circle`: for each, the row below the centre and
      the row above, each 2a wide from x - a. */
  function RowsEvents(s: Surface, x: int, y: int, r: int, i: int, c: Color): seq<Event>
    requires i >= 1 && RowsFit(s, x, y, r, i)
    decreases r - i
  {
    if i >= r then []
    else
      var a := Circle.HalfChord(r, i);
      HLineEvents(s, x - a, y + i, a * 2, c) + HLineEvents(s, x - a, y - i, a * 2, c) + RowsEvents(s, x, y, r, i + 1, c)
  }

  predicate CircleFits(s: Surface, x: int, y: int, r: int)
  {
    HLineFits(s, x - r, y, r * 2) && RowsFit(s, x, y, r, 1)
  }

  /** `circle(x, y, radius, color)`: the middle row, then the other rows in
      pairs. */
  function CircleEvents(s: Surface, x: int, y: int, r: int, c: Color): seq<Event>
    requires CircleFits(s, x, y, r)
  {
    HLineEvents(s, x - r, y, r * 2, c) + RowsEvents(s, x, y, r, 1, c)
  }

  /** `circle_outline(x, y, radius, color)`: one pixel per outline point. */
  function CircleOutlineEvents(s: Surface, x: int, y: int, r: int, c: Color): seq<Event>
    requires MarksFit(s, Circle.OutlinePoints(x, y, r), Dot)
  {
    MarksEvents(s, Circle.OutlinePoints(x, y, r), Dot, c)
  }

  // ------------------------------------------------------------ char, text

  /** `sizex <= 1 and sizey <= 1`: the glyph is drawn pixel by pixel. */
  predicate Unscaled(sx: int, sy: int)
  {
    sx <= 1 && sy <= 1
  }

  function Brushed(sx: int, sy: int): Brush
  {
    if Unscaled(sx, sy) then Dot else Block(sx, sy)
  }

  /** Where the loops of `char` put the marks of the glyph of `code`. */
  function CharMarks(x: int, y: int, code: int, f: Font, sx: int, sy: int): seq<Point>
  {
    if Unscaled(sx, sy) then GlyphMarks(x, y, GlyphColumns(f, code), f.height, 1, 1)
    else GlyphMarks(x, y, GlyphColumns(f, code), f.height, sx, sy)
  }

  predicate CharFits(s: Surface, x: int, y: int, code: int, f: Font, sx: int, sy: int)
  {
    !Covers(f, code) || MarksFit(s, CharMarks(x, y, code, f, sx, sy), Brushed(sx, sy))
  }

  /** `char(x, y, ch, font, color, sizex, sizey)` with `code = ord(ch)`:
      nothing without a font or for a code the font does not cover; else
      one pixel, or one sizex by sizey rectangle, per set glyph bit. */
  function CharEvents(s: Surface, x: int, y: int, code: int, font: Option<Font>, c: Color, sx: int, sy: int): seq<Event>
    requires font.Some? ==> CharFits(s, x, y, code, font.value, sx, sy)
  {
    if font.None? || !Covers(font.value, code) then []
    else MarksEvents(s, CharMarks(x, y, code, font.value, sx, sy), Brushed(sx, sy), c)
  }

  /** The pen advance and line height of `text` at the given size. */
  function Advance(f: Font, size: int): int { size * f.width + 1 }

  function LineHeight(f: Font, size: int): int { f.height * size + 1 }

  /** Where the pen goes after a character at (px, y): one advance to the
      right, or back to wrapX one line lower when the next character would
      not fit. */
  function NextPen(s: Surface, px: int, y: int, f: Font, size: int, wrapX: int): (p: Point)
    ensures p == Point(px + Advance(f, size), y) || p == Point(wrapX, y + LineHeight(f, size))
    ensures p.x == wrapX <== px + 2 * Advance(f, size) > s.width
  {
    var q := px + Advance(f, size);
    if q + Advance(f, size) > s.width then Point(wrapX, y + LineHeight(f, size)) else Point(q, y)
  }

  predicate TextFits(s: Surface, px: int, y: int, str: seq<char>, f: Font, size: int, wrapX: int)
    decreases |str|
  {
    str == []
    || (CharFits(s, px, y, str[0] as int, f, size, size)
        && TextFits(s, NextPen(s, px, y, f, size, wrapX).x, NextPen(s, px, y, f, size, wrapX).y, str[1..], f, size, wrapX))
  }

  /** The loop of `text` from pen (px, y) on: draw the character, then move
      the pen as NextPen says. */
  function TextEvents(s: Surface, px: int, y: int, str: seq<char>, f: Font, c: Color, size: int, wrapX: int): seq<Event>
    requires TextFits(s, px, y, str, f, size, wrapX)
    decreases |str|
  {
    if str == [] then []
    else
      CharEvents(s, px, y, str[0] as int, Some(f), c, size, size)
      + TextEvents(s, NextPen(s, px, y, f, size, wrapX).x, NextPen(s, px, y, f, size, wrapX).y, str[1..], f, c, size, wrapX)
  }

  /** The column lines wrap back to: `x_wrap` when given, else `x`. */
  function WrapColumn(x: int, xWrap: Option<int>): int
  {
    if xWrap.Some? then xWrap.value else x
  }

  /** `text(x, y, string, font, color, size, x_wrap)`. */
  function TextCallEvents(s: Surface, x: int, y: int, str: seq<char>, font: Option<Font>, c: Color, size: int, xWrap: Option<int>): seq<Event>
    requires font.Some? ==> TextFits(s, x, y, str, font.value, size, WrapColumn(x, xWrap))
  {
    if font.None? then [] else TextEvents(s, x, y, str, font.value, c, size, WrapColumn(x, xWrap))
  }

  // ---------------------------------------------------------- properties

  /** One colour run on the wire: Sent(count) copies of the colour's two
      bytes, as parameters. */
  lemma WindowThenPaint(s: Surface, x0: int, y0: int, x1: int, y1: int, c: Color, count: int, dc: bool)
    requires WindowFits(s, x0, y0, x1, y1)
    ensures Wire(WindowFrame(s, x0, y0, x1, y1) + Paint(s, c, count), dc)
         == Wire(WindowFrame(s, x0, y0, x1, y1), dc) + Params(Repeat(ColorBytes(c), Sent(count)))
  {
    WireAppend(WindowFrame(s, x0, y0, x1, y1), Paint(s, c, count), dc);
    RepeatFrameStream(s.hasCs, ColorBytes(c), count, DcAfter(WindowFrame(s, x0, y0, x1, y1), dc));
  }

  /** `pixel` addresses a two-by-two window at (x, y) but sends a single
      colour: the panel receives the window and then exactly the colour's
      two bytes. */
  lemma PixelWire(s: Surface, x: int, y: int, c: Color, dc: bool)
    requires PixelFits(s, x, y)
    ensures Wire(PixelEvents(s, x, y, c), dc) == Wire(WindowFrame(s, x, y, x + 1, y + 1), dc) + Params(ColorBytes(c))
  {
    WindowThenPaint(s, x, y, x + 1, y + 1, c, 1, dc);
    assert Sent(1) == 1;
    assert Repeat(ColorBytes(c), 0) == [];
    assert Repeat(ColorBytes(c), 1) == ColorBytes(c);
  }

  /** Clipping in `rect`: nothing at all is sent when (x, y) lies past the
      right or bottom edge; otherwise the window starts at (x, y), its right
      and bottom edges are cut back to the last column and row (and left
      alone when they already fit), and the colour is requested w' * h'
      times for the clipped size w' by h'. */
  /** Clipping keeps a span that starts before the limit inside it, never
      lengthens it, and leaves it alone when it already fits. */
  lemma ClipBounds(pos: int, len: int, limit: int)
    requires pos < limit
    ensures var l := Clip(pos, len, limit);
      pos + l - 1 <= limit - 1 && l <= len && (pos + len - 1 < limit ==> l == len)
  {
  }

  lemma RectClipping(s: Surface, x: int, y: int, w: int, h: int, c: Color, dc: bool)
    requires RectFits(s, x, y, w, h)
    ensures RectEvents(s, x, y, w, h, c) == [] <==> Offscreen(s, x, y)
    ensures !Offscreen(s, x, y) ==>
      var w', h' := Clip(x, w, s.width), Clip(y, h, s.height);
      x + w' - 1 <= s.width - 1 && y + h' - 1 <= s.height - 1
      && w' <= w && h' <= h
      && (x + w - 1 < s.width ==> w' == w) && (y + h - 1 < s.height ==> h' == h)
      && Wire(RectEvents(s, x, y, w, h, c), dc)
         == Wire(WindowFrame(s, x, y, x + w' - 1, y + h' - 1), dc) + Params(Repeat(ColorBytes(c), Sent(w' * h')))
  {
    if !Offscreen(s, x, y) {
      var w', h' := Clip(x, w, s.width), Clip(y, h, s.height);
      ClipBounds(x, w, s.width);
      ClipBounds(y, h, s.height);
      WindowFrameNonEmpty(s, x, y, x + w' - 1, y + h' - 1);
      assert RectEvents(s, x, y, w, h, c) == WindowFrame(s, x, y, x + w' - 1, y + h' - 1) + Paint(s, c, w' * h');
      hide *;
      WindowThenPaint(s, x, y, x + w' - 1, y + h' - 1, c, w' * h', dc);
    }
  }

  /** Clipping in `hline`: the same rule on the x axis only; the colour is
      requested as many times as the clipped window's last column index. */
  lemma HLineClipping(s: Surface, x: int, y: int, w: int, c: Color, dc: bool)
    requires HLineFits(s, x, y, w)
    ensures HLineEvents(s, x, y, w, c) == [] <==> Offscreen(s, x, y)
    ensures !Offscreen(s, x, y) ==>
      var w' := Clip(x, w, s.width);
      x + w' - 1 <= s.width - 1 && w' <= w && (x + w - 1 < s.width ==> w' == w)
      && Wire(HLineEvents(s, x, y, w, c), dc)
         == Wire(WindowFrame(s, x, y, x + w' - 1, y), dc) + Params(Repeat(ColorBytes(c), Sent(x + w' - 1)))
  {
    if !Offscreen(s, x, y) {
      var w' := Clip(x, w, s.width);
      ClipBounds(x, w, s.width);
      WindowFrameNonEmpty(s, x, y, x + w' - 1, y);
      assert HLineEvents(s, x, y, w, c) == WindowFrame(s, x, y, x + w' - 1, y) + Paint(s, c, x + w' - 1);
      hide *;
      WindowThenPaint(s, x, y, x + w' - 1, y, c, x + w' - 1, dc);
    }
  }

  /** Clipping in `vline`: the same rule on the y axis only; the colour is
      requested as many times as the clipped window's last row index. */
  lemma VLineClipping(s: Surface, x: int, y: int, h: int, c: Color, dc: bool)
    requires VLineFits(s, x, y, h)
    ensures VLineEvents(s, x, y, h, c) == [] <==> Offscreen(s, x, y)
    ensures !Offscreen(s, x, y) ==>
      var h' := Clip(y, h, s.height);
      y + h' - 1 <= s.height - 1 && h' <= h && (y + h - 1 < s.height ==> h' == h)
      && Wire(VLineEvents(s, x, y, h, c), dc)
         == Wire(WindowFrame(s, x, y, x, y + h' - 1), dc) + Params(Repeat(ColorBytes(c), Sent(y + h' - 1)))
  {
    if !Offscreen(s, x, y) {
      var h' := Clip(y, h, s.height);
      ClipBounds(y, h, s.height);
      WindowFrameNonEmpty(s, x, y, x, y + h' - 1);
      assert VLineEvents(s, x, y, h, c) == WindowFrame(s, x, y, x, y + h' - 1) + Paint(s, c, y + h' - 1);
      hide *;
      WindowThenPaint(s, x, y, x, y + h' - 1, c, y + h' - 1, dc);
    }
  }

  lemma CancelPrefix<T>(a: seq<T>, b: seq<T>, b': seq<T>)
    ensures a + b == a + b' <==> b == b'
  {
    if a + b == a + b' {
      assert (a + b)[|a|..] == b && (a + b')[|a|..] == b';
    }
  }

  /** `fill` is `rect` over the whole surface: nothing is clipped, so it
      addresses the full window and sends width * height colour copies'
      worth of batches. */
  lemma FillShape(s: Surface, c: Color)
    requires s.width >= 1 && s.height >= 1 && FullWindowFits(s)
    ensures FillFits(s) && WindowFits(s, 0, 0, s.width - 1, s.height - 1)
    ensures var win, n := WindowFrame(s, 0, 0, s.width - 1, s.height - 1), s.width * s.height;
      n >= 0 && FillEvents(s, c) == win + RepeatFrame(s.hasCs, ColorBytes(c), n)
  {
    MulNonneg(s.width, s.height);
    assert !Offscreen(s, 0, 0);
    assert Clip(0, s.width, s.width) == s.width && Clip(0, s.height, s.height) == s.height;
    hide Clip, WindowFrame, RepeatFrame, RepeatSlowFrame, RepeatBulkFrame, ColorBytes;
  }

  /** The three fills address the same full-surface window; `fill_slow` and
      `fill_bulk` put the same words on the wire, and `fill` agrees with
      them exactly when width * height leaves a remainder of at most one
      modulo 50. */
  lemma FillsAgree(s: Surface, c: Color, dc: bool)
    requires s.width >= 1 && s.height >= 1 && FullWindowFits(s)
    ensures FillFits(s)
    ensures Wire(FillSlowEvents(s, c), dc) == Wire(FillBulkEvents(s, c), dc)
    ensures Wire(FillEvents(s, c), dc) == Wire(FillBulkEvents(s, c), dc) <==> (s.width * s.height) % BatchSize <= 1
  {
    hide Wire, DcAfter, WindowFrame, RepeatFrame, RepeatSlowFrame, RepeatBulkFrame, ColorBytes, FillEvents, FillFits, FullWindowFits;
    FillShape(s, c);
    var win := WindowFrame(s, 0, 0, s.width - 1, s.height - 1);
    var n := s.width * s.height;
    var d := ColorBytes(c);
    var dc' := DcAfter(win, dc);
    WireAppend(win, RepeatFrame(s.hasCs, d, n), dc);
    WireAppend(win, RepeatSlowFrame(s.hasCs, d, n), dc);
    WireAppend(win, RepeatBulkFrame(s.hasCs, d, n), dc);
    RepeatVariantsAgree(s.hasCs, d, n, dc');
    CancelPrefix(Wire(win, dc), Wire(RepeatFrame(s.hasCs, d, n), dc'), Wire(RepeatBulkFrame(s.hasCs, d, n), dc'));
  }

  /** A vertical or horizontal `line` draws the same thing whichever end it
      is given first. */
  lemma AxisLineSymmetric(s: Surface, x0: int, y0: int, x1: int, y1: int, c: Color)
    requires x0 == x1 || y0 == y1
    ensures LineFits(s, x0, y0, x1, y1) <==> LineFits(s, x1, y1, x0, y0)
    ensures LineFits(s, x0, y0, x1, y1) ==> LineEvents(s, x0, y0, x1, y1, c) == LineEvents(s, x1, y1, x0, y0, c)
  {
    assert Bresenham.Abs(y1 - y0) == Bresenham.Abs(y0 - y1);
    assert Bresenham.Abs(x1 - x0) == Bresenham.Abs(x0 - x1);
  }

  /** Each row window of `circle`, as far as it reaches after clipping,
      lies inside the circle. */
  lemma CircleRowsInside(s: Surface, x: int, y: int, r: int, i: int, cx: int)
    requires 1 <= i < r
    requires var a := Circle.HalfChord(r, i);
      !Offscreen(s, x - a, y + i) && x - a <= cx <= x - a + Clip(x - a, a * 2, s.width) - 1
    ensures (cx - x) * (cx - x) + i * i <= r * r
  {
    Circle.RowInside(r, i, cx - x);
  }

  /** The marks of a glyph are the cells of its set bits placed on the
      glyph's grid: one pixel per set bit unscaled, one sizex by sizey
      rectangle per set bit scaled. */
  lemma CharCells(x: int, y: int, code: int, f: Font, sx: int, sy: int)
    ensures var ch := GlyphColumns(f, code);
      CharMarks(x, y, code, f, sx, sy)
      == (if Unscaled(sx, sy) then Placed(x, y, GlyphCells(ch, 0, f.height), 1, 1)
          else Placed(x, y, GlyphCells(ch, 0, f.height), sx, sy))
  {
    var ch := GlyphColumns(f, code);
    assert ch[0..] == ch;
    GlyphMarksCells(x, y, ch, 0, f.height, 1, 1);
    GlyphMarksCells(x, y, ch, 0, f.height, sx, sy);
  }

  predicate CharsFit(s: Surface, pens: seq<Point>, str: seq<char>, f: Font, size: int)
    decreases |str|
  {
    |pens| == |str|
    && (str == [] || (CharFits(s, pens[0].x, pens[0].y, str[0] as int, f, size, size)
                      && CharsFit(s, pens[1..], str[1..], f, size)))
  }

  /** One `char` per character, each at its pen. */
  function CharsEvents(s: Surface, pens: seq<Point>, str: seq<char>, f: Font, c: Color, size: int): seq<Event>
    requires CharsFit(s, pens, str, f, size)
    decreases |str|
  {
    if str == [] then []
    else CharEvents(s, pens[0].x, pens[0].y, str[0] as int, Some(f), c, size, size) + CharsEvents(s, pens[1..], str[1..], f, c, size)
  }

  /** Once every character is drawn, nothing is left to send. */
  lemma TextEnd(s: Surface, px: int, y: int, str: seq<char>, f: Font, c: Color, size: int, wrapX: int)
    requires TextFits(s, px, y, str[|str|..], f, size, wrapX)
    ensures TextEvents(s, px, y, str[|str|..], f, c, size, wrapX) == []
  {
    assert str[|str|..] == [];
  }

  /** One pass of the loop of `text`: the character at the pen, then the
      rest of the string from the next pen. */
  lemma TextStep(s: Surface, px: int, y: int, str: seq<char>, f: Font, c: Color, size: int, wrapX: int)
    requires str != [] && TextFits(s, px, y, str, f, size, wrapX)
    ensures CharFits(s, px, y, str[0] as int, f, size, size)
    ensures TextFits(s, NextPen(s, px, y, f, size, wrapX).x, NextPen(s, px, y, f, size, wrapX).y, str[1..], f, size, wrapX)
    ensures TextEvents(s, px, y, str, f, c, size, wrapX)
         == CharEvents(s, px, y, str[0] as int, Some(f), c, size, size)
            + TextEvents(s, NextPen(s, px, y, f, size, wrapX).x, NextPen(s, px, y, f, size, wrapX).y, str[1..], f, c, size, wrapX)
  {
    hide CharEvents, CharFits, NextPen;
  }

  /** What the loops of `char` start from: with the glyph's column bytes,
      the marks of the whole glyph at (x, y), with the brush the sizes
      choose. */
  lemma CharShape(s: Surface, x: int, y: int, code: int, f: Font, sx: int, sy: int, c: Color)
    requires Covers(f, code) && CharFits(s, x, y, code, f, sx, sy)
    ensures var glyph := GlyphColumns(f, code);
      if Unscaled(sx, sy) then
        MarksFit(s, GlyphMarks(x, y, glyph[0..], f.height, 1, 1), Dot)
        && CharEvents(s, x, y, code, Some(f), c, sx, sy) == MarksEvents(s, GlyphMarks(x, y, glyph[0..], f.height, 1, 1), Dot, c)
      else
        MarksFit(s, GlyphMarks(x, y, glyph[0..], f.height, sx, sy), Block(sx, sy))
        && CharEvents(s, x, y, code, Some(f), c, sx, sy) == MarksEvents(s, GlyphMarks(x, y, glyph[0..], f.height, sx, sy), Block(sx, sy), c)
  {
    var glyph := GlyphColumns(f, code);
    assert glyph[0..] == glyph;
  }

  /** The pass of the loop of `text` for character k of the string. */
  lemma TextStepAt(s: Surface, px: int, y: int, str: seq<char>, k: int, f: Font, c: Color, size: int, wrapX: int)
    requires 0 <= k < |str| && TextFits(s, px, y, str[k..], f, size, wrapX)
    ensures CharFits(s, px, y, str[k] as int, f, size, size)
    ensures TextFits(s, NextPen(s, px, y, f, size, wrapX).x, NextPen(s, px, y, f, size, wrapX).y, str[k + 1..], f, size, wrapX)
    ensures TextEvents(s, px, y, str[k..], f, c, size, wrapX)
         == CharEvents(s, px, y, str[k] as int, Some(f), c, size, size)
            + TextEvents(s, NextPen(s, px, y, f, size, wrapX).x, NextPen(s, px, y, f, size, wrapX).y, str[k + 1..], f, c, size, wrapX)
  {
    assert str[k..][0] == str[k] && str[k..][1..] == str[k + 1..];
    hide CharEvents, CharFits, NextPen;
    TextStep(s, px, y, str[k..], f, c, size, wrapX);
  }

  /** `text` is one `char` call per character, each at the pen `Pens` gives
      for it. */
  lemma {:induction false} TextAtPens(s: Surface, px: int, y: int, str: seq<char>, f: Font, c: Color, size: int, wrapX: int)
    requires TextFits(s, px, y, str, f, size, wrapX)
    ensures var pens := Pens(px, y, |str|, Advance(f, size), LineHeight(f, size), s.width, wrapX);
      CharsFit(s, pens, str, f, size)
      && TextEvents(s, px, y, str, f, c, size, wrapX) == CharsEvents(s, pens, str, f, c, size)
    decreases |str|
  {
    if str != [] {
      hide TextEvents, TextFits, CharEvents, CharFits, Pens;
      var adv, lineH := Advance(f, size), LineHeight(f, size);
      var q := px + adv;
      var pens := Pens(px, y, |str|, adv, lineH, s.width, wrapX);
      PensStep(px, y, |str|, adv, lineH, s.width, wrapX);
      var nx := if q + adv > s.width then wrapX else q;
      var ny := if q + adv > s.width then y + lineH else y;
      var rest := Pens(nx, ny, |str| - 1, adv, lineH, s.width, wrapX);
      assert pens[0] == Point(px, y) && pens[1..] == rest;
      assert NextPen(s, px, y, f, size, wrapX) == Point(nx, ny);
      TextStep(s, px, y, str, f, c, size, wrapX);
      TextAtPens(s, nx, ny, str[1..], f, c, size, wrapX);
      assert CharsFit(s, pens, str, f, size);
    }
  }

  // ------------------------------------------------- stepping the loops

  /** The same for `hline`: the clipped one-row window, then the burst. */
  lemma HLineLog(s: Surface, x: int, y: int, w: int, c: Color,
                 w': int, start: seq<Event>, mid: seq<Event>, end: seq<Event>)
    requires HLineFits(s, x, y, w) && !Offscreen(s, x, y) && w' == Clip(x, w, s.width)
    requires mid == start + WindowFrame(s, x, y, x + w' - 1, y)
    requires end == mid + RepeatFrame(s.hasCs, ColorBytes(c), x + w' - 1)
    ensures end == start + HLineEvents(s, x, y, w, c)
  {
    AppendAssoc(start, WindowFrame(s, x, y, x + w' - 1, y), RepeatFrame(s.hasCs, ColorBytes(c), x + w' - 1));
  }

  /** The same for `vline`: the clipped one-column window, then the burst. */
  lemma VLineLog(s: Surface, x: int, y: int, h: int, c: Color,
                 h': int, start: seq<Event>, mid: seq<Event>, end: seq<Event>)
    requires VLineFits(s, x, y, h) && !Offscreen(s, x, y) && h' == Clip(y, h, s.height)
    requires mid == start + WindowFrame(s, x, y, x, y + h' - 1)
    requires end == mid + RepeatFrame(s.hasCs, ColorBytes(c), y + h' - 1)
    ensures end == start + VLineEvents(s, x, y, h, c)
  {
    AppendAssoc(start, WindowFrame(s, x, y, x, y + h' - 1), RepeatFrame(s.hasCs, ColorBytes(c), y + h' - 1));
  }

  /** A log grown by the window of `rect` and then its colour burst has grown
      by the events of `rect`. */
  lemma RectLog(s: Surface, x: int, y: int, w: int, h: int, c: Color,
                w': int, h': int, start: seq<Event>, mid: seq<Event>, end: seq<Event>)
    requires RectFits(s, x, y, w, h) && !Offscreen(s, x, y)
    requires w' == Clip(x, w, s.width) && h' == Clip(y, h, s.height)
    requires mid == start + WindowFrame(s, x, y, x + w' - 1, y + h' - 1)
    requires end == mid + RepeatFrame(s.hasCs, ColorBytes(c), w' * h')
    ensures end == start + RectEvents(s, x, y, w, h, c)
  {
    AppendAssoc(start, WindowFrame(s, x, y, x + w' - 1, y + h' - 1), RepeatFrame(s.hasCs, ColorBytes(c), w' * h'));
  }

  /** One mark, then the rest. */
  lemma MarksCons(s: Surface, p: Point, q: seq<Point>, b: Brush, c: Color)
    requires MarksFit(s, [p] + q, b)
    ensures MarkFits(s, p, b) && MarksFit(s, q, b)
    ensures MarksEvents(s, [p] + q, b, c) == MarkEvents(s, p, b, c) + MarksEvents(s, q, b, c)
  {
    assert ([p] + q)[0] == p && ([p] + q)[1..] == q;
  }

  /** One pass of either loop of `line`: the walk plots its current point,
      then the rest of the walk from the stepped coordinates and error. */
  lemma WalkHead(s: Surface, a: int, b: int, aEnd: int, e: int, ia: int, ib: int,
                 da2: int, db2: int, steep: bool, c: Color)
    requires (ia == 1 && a <= aEnd) || (ia == -1 && a >= aEnd)
    requires a != aEnd && MarksFit(s, Bresenham.Walk(a, b, aEnd, e, ia, ib, da2, db2, steep), Dot)
    ensures var p := Bresenham.Orient(a, b, steep);
      var rest := Bresenham.Walk(a + ia, if e >= 0 then b + ib else b, aEnd,
                                 (if e >= 0 then e - da2 else e) + db2, ia, ib, da2, db2, steep);
      PixelFits(s, p.x, p.y) && MarksFit(s, rest, Dot)
      && MarksEvents(s, Bresenham.Walk(a, b, aEnd, e, ia, ib, da2, db2, steep), Dot, c)
         == PixelEvents(s, p.x, p.y, c) + MarksEvents(s, rest, Dot, c)
  {
    var rest := Bresenham.Walk(a + ia, if e >= 0 then b + ib else b, aEnd,
                               (if e >= 0 then e - da2 else e) + db2, ia, ib, da2, db2, steep);
    assert Bresenham.Walk(a, b, aEnd, e, ia, ib, da2, db2, steep) == [Bresenham.Orient(a, b, steep)] + rest;
    MarksCons(s, Bresenham.Orient(a, b, steep), rest, Dot, c);
  }

  /** The walk ends where the major coordinate reaches its end: nothing is
      left to draw. */
  lemma WalkEnd(s: Surface, a: int, b: int, aEnd: int, e: int, ia: int, ib: int,
                da2: int, db2: int, steep: bool, c: Color)
    requires a == aEnd && ((ia == 1 && a <= aEnd) || (ia == -1 && a >= aEnd))
    ensures MarksFit(s, Bresenham.Walk(a, b, aEnd, e, ia, ib, da2, db2, steep), Dot)
    ensures MarksEvents(s, Bresenham.Walk(a, b, aEnd, e, ia, ib, da2, db2, steep), Dot, c) == []
  {
  }

  /** One row of the inner loop of `char`: mark the current row when the
      low bit is set, then go on with the shifted byte one row lower. */
  lemma ColumnStep(s: Surface, px: int, py: int, col: int, n: int, dy: int, b: Brush, c: Color)
    requires n > 0 && MarksFit(s, ColumnMarks(px, py, col, n, dy), b)
    ensures col % 2 == 1 ==> MarkFits(s, Point(px, py), b)
    ensures MarksFit(s, ColumnMarks(px, py + dy, col / 2, n - 1, dy), b)
    ensures MarksEvents(s, ColumnMarks(px, py, col, n, dy), b, c)
         == (if col % 2 == 1 then MarkEvents(s, Point(px, py), b, c) else [])
            + MarksEvents(s, ColumnMarks(px, py + dy, col / 2, n - 1, dy), b, c)
  {
    var head: seq<Point> := if col % 2 == 1 then [Point(px, py)] else [];
    var rest := ColumnMarks(px, py + dy, col / 2, n - 1, dy);
    assert ColumnMarks(px, py, col, n, dy) == head + rest;
    MarksAppend(s, head, rest, b, c);
    if col % 2 == 1 {
      assert head[1..] == [];
    }
  }

  /** `ColumnStep` for the unscaled glyph, where a mark is a `pixel`. */
  lemma DotColumnStep(s: Surface, px: int, py: int, col: int, n: int, c: Color)
    requires n > 0 && MarksFit(s, ColumnMarks(px, py, col, n, 1), Dot)
    ensures col % 2 == 1 ==> PixelFits(s, px, py)
    ensures MarksFit(s, ColumnMarks(px, py + 1, col / 2, n - 1, 1), Dot)
    ensures MarksEvents(s, ColumnMarks(px, py, col, n, 1), Dot, c)
         == (if col % 2 == 1 then PixelEvents(s, px, py, c) else [])
            + MarksEvents(s, ColumnMarks(px, py + 1, col / 2, n - 1, 1), Dot, c)
  {
    hide ColumnMarks, MarksFit, MarksEvents, PixelFits, PixelEvents;
    ColumnStep(s, px, py, col, n, 1, Dot, c);
  }

  /** `ColumnStep` for the scaled glyph, where a mark is a `rect`. */
  lemma BlockColumnStep(s: Surface, px: int, py: int, col: int, n: int, sx: int, sy: int, c: Color)
    requires n > 0 && MarksFit(s, ColumnMarks(px, py, col, n, sy), Block(sx, sy))
    ensures col % 2 == 1 ==> RectFits(s, px, py, sx, sy)
    ensures MarksFit(s, ColumnMarks(px, py + sy, col / 2, n - 1, sy), Block(sx, sy))
    ensures MarksEvents(s, ColumnMarks(px, py, col, n, sy), Block(sx, sy), c)
         == (if col % 2 == 1 then RectEvents(s, px, py, sx, sy, c) else [])
            + MarksEvents(s, ColumnMarks(px, py + sy, col / 2, n - 1, sy), Block(sx, sy), c)
  {
    hide ColumnMarks, MarksFit, MarksEvents, RectFits, RectEvents;
    ColumnStep(s, px, py, col, n, sy, Block(sx, sy), c);
  }

  /** One column of the outer loop of `char`. */
  lemma GlyphStep(s: Surface, px: int, py: int, ch: seq<byte>, j: int, n: int, dx: int, dy: int, b: Brush, c: Color)
    requires 0 <= j < |ch| && MarksFit(s, GlyphMarks(px, py, ch[j..], n, dx, dy), b)
    ensures MarksFit(s, ColumnMarks(px, py, ch[j], n, dy), b)
    ensures MarksFit(s, GlyphMarks(px + dx, py, ch[j + 1..], n, dx, dy), b)
    ensures MarksEvents(s, GlyphMarks(px, py, ch[j..], n, dx, dy), b, c)
         == MarksEvents(s, ColumnMarks(px, py, ch[j], n, dy), b, c)
            + MarksEvents(s, GlyphMarks(px + dx, py, ch[j + 1..], n, dx, dy), b, c)
  {
    assert ch[j..][0] == ch[j] && ch[j..][1..] == ch[j + 1..];
    var head := ColumnMarks(px, py, ch[j], n, dy);
    var rest := GlyphMarks(px + dx, py, ch[j + 1..], n, dx, dy);
    assert GlyphMarks(px, py, ch[j..], n, dx, dy) == head + rest;
    MarksAppend(s, head, rest, b, c);
  }

  /** One pass of the loop of `circle`, with a the half chord of row i:
      the row below, the row above, then the remaining rows. */
  lemma RowsStep(s: Surface, x: int, y: int, r: int, i: int, a: int, c: Color)
    requires 1 <= i < r && RowsFit(s, x, y, r, i) && a == Circle.HalfChord(r, i)
    ensures HLineFits(s, x - a, y + i, a * 2) && HLineFits(s, x - a, y - i, a * 2)
    ensures RowsFit(s, x, y, r, i + 1)
    ensures RowsEvents(s, x, y, r, i, c)
         == HLineEvents(s, x - a, y + i, a * 2, c) + (HLineEvents(s, x - a, y - i, a * 2, c) + RowsEvents(s, x, y, r, i + 1, c))
  {
    hide HLineEvents, HLineFits, Circle.HalfChord;
    AppendAssoc(HLineEvents(s, x - a, y + i, a * 2, c), HLineEvents(s, x - a, y - i, a * 2, c), RowsEvents(s, x, y, r, i + 1, c));
  }

  /** Every point of a run of dots that fits is a pixel that fits. */
  lemma {:induction false} DotsFit(s: Surface, pts: seq<Point>, rest: seq<Point>)
    requires MarksFit(s, pts + rest, Dot)
    ensures forall k :: 0 <= k < |pts| ==> PixelFits(s, pts[k].x, pts[k].y)
    ensures MarksFit(s, rest, Dot)
    decreases |pts|
  {
    if pts == [] {
      assert pts + rest == rest;
    } else {
      assert pts + rest == [pts[0]] + (pts[1..] + rest);
      MarksCons(s, pts[0], pts[1..] + rest, Dot, 0);
      DotsFit(s, pts[1..], rest);
      forall k | 1 <= k < |pts| ensures PixelFits(s, pts[k].x, pts[k].y) {
        assert pts[k] == pts[1..][k - 1];
      }
    }
  }

  /** Plotting the dots of `pts` one after another, log `logs[k + 1]` after
      the k-th, leaves the dots of `rest` to complete the same log as the
      whole run would from `logs[0]`. */
  lemma {:induction false} DotsLog(s: Surface, pts: seq<Point>, rest: seq<Point>, c: Color, logs: seq<seq<Event>>)
    requires |logs| == |pts| + 1 && MarksFit(s, pts + rest, Dot)
    requires forall k :: 0 <= k < |pts| ==>
      PixelFits(s, pts[k].x, pts[k].y) && logs[k + 1] == logs[k] + PixelEvents(s, pts[k].x, pts[k].y, c)
    ensures MarksFit(s, rest, Dot)
    ensures logs[|pts|] + MarksEvents(s, rest, Dot, c) == logs[0] + MarksEvents(s, pts + rest, Dot, c)
    decreases |pts|
  {
    if pts == [] {
      assert pts + rest == rest;
    } else {
      assert pts + rest == [pts[0]] + (pts[1..] + rest);
      MarksCons(s, pts[0], pts[1..] + rest, Dot, c);
      forall k | 0 <= k < |pts| - 1
        ensures PixelFits(s, pts[1..][k].x, pts[1..][k].y)
             && logs[1..][k + 1] == logs[1..][k] + PixelEvents(s, pts[1..][k].x, pts[1..][k].y, c)
      {
        assert pts[1..][k] == pts[k + 1];
      }
      DotsLog(s, pts[1..], rest, c, logs[1..]);
      AppendAssoc(logs[0], PixelEvents(s, pts[0].x, pts[0].y, c), MarksEvents(s, pts[1..] + rest, Dot, c));
    }
  }

  /** The four extreme pixels of `circle_outline` fit when the outline does. */
  lemma EndsFit(s: Surface, x: int, y: int, r: int)
    requires MarksFit(s, Circle.OutlinePoints(x, y, r), Dot)
    ensures PixelFits(s, x - r, y) && PixelFits(s, x + r, y) && PixelFits(s, x, y - r) && PixelFits(s, x, y + r)
    ensures MarksFit(s, Circle.Arcs(x, y, r, 1), Dot)
  {
    var ends := [Point(x - r, y), Point(x + r, y), Point(x, y - r), Point(x, y + r)];
    DotsFit(s, ends, Circle.Arcs(x, y, r, 1));
    assert ends[0] == Point(x - r, y) && ends[1] == Point(x + r, y);
    assert ends[2] == Point(x, y - r) && ends[3] == Point(x, y + r);
  }

  /** The four extreme pixels of `circle_outline`, one after another. */
  function EndsEvents(s: Surface, x: int, y: int, r: int, c: Color): seq<Event>
    requires PixelFits(s, x - r, y) && PixelFits(s, x + r, y) && PixelFits(s, x, y - r) && PixelFits(s, x, y + r)
  {
    PixelEvents(s, x - r, y, c) + PixelEvents(s, x + r, y, c) + PixelEvents(s, x, y - r, c) + PixelEvents(s, x, y + r, c)
  }

  /** After the four extreme pixels, the rows complete the outline. */
  lemma EndsLog(s: Surface, x: int, y: int, r: int, c: Color, before: seq<Event>, after: seq<Event>)
    requires MarksFit(s, Circle.OutlinePoints(x, y, r), Dot)
    requires PixelFits(s, x - r, y) && PixelFits(s, x + r, y) && PixelFits(s, x, y - r) && PixelFits(s, x, y + r)
    requires after == before + EndsEvents(s, x, y, r, c)
    ensures MarksFit(s, Circle.Arcs(x, y, r, 1), Dot)
    ensures after + MarksEvents(s, Circle.Arcs(x, y, r, 1), Dot, c) == before + CircleOutlineEvents(s, x, y, r, c)
  {
    var ends := [Point(x - r, y), Point(x + r, y), Point(x, y - r), Point(x, y + r)];
    hide PixelEvents, PixelFits, MarksEvents, MarksFit, Circle.Arcs;
    var p0, p1, p2, p3 := PixelEvents(s, x - r, y, c), PixelEvents(s, x + r, y, c), PixelEvents(s, x, y - r, c), PixelEvents(s, x, y + r, c);
    var l1, l2, l3 := before + p0, before + p0 + p1, before + p0 + p1 + p2;
    AppendChain(before, l1, l2, l3, after, p0, p1, p2, p3);
    DotsLog(s, ends, Circle.Arcs(x, y, r, 1), c, [before, l1, l2, l3, after]);
  }

  /** The eight pixels of row i of `circle_outline` fit when the rows from
      i on do, and so do the rows after it. */
  lemma ArcRowFits(s: Surface, x: int, y: int, r: int, i: int, a: int)
    requires 1 <= i < r && a == Circle.HalfChord(r, i) && MarksFit(s, Circle.Arcs(x, y, r, i), Dot)
    ensures PixelFits(s, x - a, y - i) && PixelFits(s, x - i, y - a) && PixelFits(s, x + a, y - i) && PixelFits(s, x + i, y - a)
    ensures PixelFits(s, x - a, y + i) && PixelFits(s, x - i, y + a) && PixelFits(s, x + a, y + i) && PixelFits(s, x + i, y + a)
    ensures MarksFit(s, Circle.Arcs(x, y, r, i + 1), Dot)
  {
    var row := Circle.ArcRow(x, y, r, i);
    assert Circle.Arcs(x, y, r, i) == row + Circle.Arcs(x, y, r, i + 1);
    hide PixelFits, MarksFit, Circle.Arcs;
    DotsFit(s, row, Circle.Arcs(x, y, r, i + 1));
    assert row[0] == Point(x - a, y - i) && row[1] == Point(x - i, y - a);
    assert row[2] == Point(x + a, y - i) && row[3] == Point(x + i, y - a);
    assert row[4] == Point(x - a, y + i) && row[5] == Point(x - i, y + a);
    assert row[6] == Point(x + a, y + i) && row[7] == Point(x + i, y + a);
  }

  /** Plotting the next dot of a run: what is left of the run completes
      the same log. */
  lemma DotStep(s: Surface, p: Point, rest: seq<Point>, c: Color, before: seq<Event>, after: seq<Event>, total: seq<Event>)
    requires MarksFit(s, [p] + rest, Dot) && before + MarksEvents(s, [p] + rest, Dot, c) == total
    requires PixelFits(s, p.x, p.y) && after == before + PixelEvents(s, p.x, p.y, c)
    ensures MarksFit(s, rest, Dot) && after + MarksEvents(s, rest, Dot, c) == total
  {
    MarksCons(s, p, rest, Dot, c);
    AppendAssoc(before, PixelEvents(s, p.x, p.y, c), MarksEvents(s, rest, Dot, c));
  }

  /** The eight pixels of row i of `circle_outline`, whose half chord is a,
      one after another. */
  function ArcRowEvents(s: Surface, x: int, y: int, i: int, a: int, c: Color): seq<Event>
    requires PixelFits(s, x - a, y - i) && PixelFits(s, x - i, y - a) && PixelFits(s, x + a, y - i) && PixelFits(s, x + i, y - a)
    requires PixelFits(s, x - a, y + i) && PixelFits(s, x - i, y + a) && PixelFits(s, x + a, y + i) && PixelFits(s, x + i, y + a)
  {
    PixelEvents(s, x - a, y - i, c) + PixelEvents(s, x - i, y - a, c) + PixelEvents(s, x + a, y - i, c) + PixelEvents(s, x + i, y - a, c)
    + PixelEvents(s, x - a, y + i, c) + PixelEvents(s, x - i, y + a, c) + PixelEvents(s, x + a, y + i, c) + PixelEvents(s, x + i, y + a, c)
  }

  /** A log grown by the eight pixels of a row, one by one, holds the row. */
  lemma ArcRowChain(s: Surface, x: int, y: int, i: int, a: int, c: Color,
                    l0: seq<Event>, l1: seq<Event>, l2: seq<Event>, l3: seq<Event>, l4: seq<Event>,
                    l5: seq<Event>, l6: seq<Event>, l7: seq<Event>, l8: seq<Event>)
    requires PixelFits(s, x - a, y - i) && PixelFits(s, x - i, y - a) && PixelFits(s, x + a, y - i) && PixelFits(s, x + i, y - a)
    requires PixelFits(s, x - a, y + i) && PixelFits(s, x - i, y + a) && PixelFits(s, x + a, y + i) && PixelFits(s, x + i, y + a)
    requires l1 == l0 + PixelEvents(s, x - a, y - i, c) && l2 == l1 + PixelEvents(s, x - i, y - a, c)
    requires l3 == l2 + PixelEvents(s, x + a, y - i, c) && l4 == l3 + PixelEvents(s, x + i, y - a, c)
    requires l5 == l4 + PixelEvents(s, x - a, y + i, c) && l6 == l5 + PixelEvents(s, x - i, y + a, c)
    requires l7 == l6 + PixelEvents(s, x + a, y + i, c) && l8 == l7 + PixelEvents(s, x + i, y + a, c)
    ensures l8 == l0 + ArcRowEvents(s, x, y, i, a, c)
  {
    hide PixelEvents;
    var p0, p1, p2, p3 := PixelEvents(s, x - a, y - i, c), PixelEvents(s, x - i, y - a, c), PixelEvents(s, x + a, y - i, c), PixelEvents(s, x + i, y - a, c);
    var p4, p5, p6, p7 := PixelEvents(s, x - a, y + i, c), PixelEvents(s, x - i, y + a, c), PixelEvents(s, x + a, y + i, c), PixelEvents(s, x + i, y + a, c);
    AppendChain(l0, l1, l2, l3, l4, p0, p1, p2, p3);
    AppendChain(l4, l5, l6, l7, l8, p4, p5, p6, p7);
    AppendAssoc(l0, p0 + p1 + p2 + p3, p4 + p5 + p6 + p7);
    assert p0 + p1 + p2 + p3 + (p4 + p5 + p6 + p7) == p0 + p1 + p2 + p3 + p4 + p5 + p6 + p7;
  }

  /** After the eight pixels of row i, the rows after it complete the log
      the rows from i on would. */
  lemma ArcRowLog(s: Surface, x: int, y: int, r: int, i: int, a: int, c: Color, total: seq<Event>,
                  before: seq<Event>, after: seq<Event>)
    requires 1 <= i < r && a == Circle.HalfChord(r, i) && MarksFit(s, Circle.Arcs(x, y, r, i), Dot)
    requires PixelFits(s, x - a, y - i) && PixelFits(s, x - i, y - a) && PixelFits(s, x + a, y - i) && PixelFits(s, x + i, y - a)
    requires PixelFits(s, x - a, y + i) && PixelFits(s, x - i, y + a) && PixelFits(s, x + a, y + i) && PixelFits(s, x + i, y + a)
    requires after == before + ArcRowEvents(s, x, y, i, a, c)
    requires before + MarksEvents(s, Circle.Arcs(x, y, r, i), Dot, c) == total
    ensures MarksFit(s, Circle.Arcs(x, y, r, i + 1), Dot)
    ensures after + MarksEvents(s, Circle.Arcs(x, y, r, i + 1), Dot, c) == total
  {
    hide PixelEvents, PixelFits, MarksEvents, MarksFit, Circle.Arcs, Circle.HalfChord;
    Circle.ArcsHead(x, y, r, i, a);
    var t8 := Circle.Arcs(x, y, r, i + 1);
    var t7 := [Point(x + i, y + a)] + t8;
    var t6 := [Point(x + a, y + i)] + t7;
    var t5 := [Point(x - i, y + a)] + t6;
    var t4 := [Point(x - a, y + i)] + t5;
    var t3 := [Point(x + i, y - a)] + t4;
    var t2 := [Point(x + a, y - i)] + t3;
    var t1 := [Point(x - i, y - a)] + t2;
    var l1 := before + PixelEvents(s, x - a, y - i, c);
    var l2 := l1 + PixelEvents(s, x - i, y - a, c);
    var l3 := l2 + PixelEvents(s, x + a, y - i, c);
    var l4 := l3 + PixelEvents(s, x + i, y - a, c);
    var l5 := l4 + PixelEvents(s, x - a, y + i, c);
    var l6 := l5 + PixelEvents(s, x - i, y + a, c);
    var l7 := l6 + PixelEvents(s, x + a, y + i, c);
    var l8 := l7 + PixelEvents(s, x + i, y + a, c);
    ArcRowChain(s, x, y, i, a, c, before, l1, l2, l3, l4, l5, l6, l7, l8);
    DotStep(s, Point(x - a, y - i), t1, c, before, l1, total);
    DotStep(s, Point(x - i, y - a), t2, c, l1, l2, total);
    DotStep(s, Point(x + a, y - i), t3, c, l2, l3, total);
    DotStep(s, Point(x + i, y - a), t4, c, l3, l4, total);
    DotStep(s, Point(x - a, y + i), t5, c, l4, l5, total);
    DotStep(s, Point(x - i, y + a), t6, c, l5, l6, total);
    DotStep(s, Point(x + a, y + i), t7, c, l6, l7, total);
    DotStep(s, Point(x + i, y + a), t8, c, l7, l8, total);
  }

  /** The outer loop of `char` has no column left once it has passed them
      all. */
  lemma GlyphEnd(s: Surface, px: int, py: int, ch: seq<byte>, n: int, dx: int, dy: int, b: Brush, c: Color)
    ensures GlyphMarks(px, py, ch[|ch|..], n, dx, dy) == []
    ensures MarksFit(s, [], b) && MarksEvents(s, [], b, c) == []
  {
    assert ch[|ch|..] == [];
  }

  /** The inner loop of `char` has no row left once it has done `height`
      of them. */
  lemma ColumnEnd(s: Surface, px: int, py: int, col: int, n: int, dy: int, b: Brush, c: Color)
    requires n <= 0
    ensures ColumnMarks(px, py, col, n, dy) == []
    ensures MarksFit(s, [], b) && MarksEvents(s, [], b, c) == []
  {
  }

  /** No marks, no events. */
  lemma NoMarks(s: Surface, b: Brush, c: Color)
    ensures MarksFit(s, [], b) && MarksEvents(s, [], b, c) == []
  {
  }
}
