/** The `ST7735R` class of st7735r.py: a driver object holding the panel's
    geometry and two four-byte address buffers, whose every public call
    appends bus events to `log`. Each method is proved to append exactly the
    events of the corresponding function of `Raster`, `Burst` or `Window`,
    whose meaning on the wire is proved there. */
module Driver {
  import opened Bus
  import opened Burst
  import opened Rgb565
  import opened Window
  import opened Glyph
  import opened Raster
  import Bresenham
  import Disc = Circle

  class Display {
    /** Whether the optional chip-select pin was given. */
    const hasCs: bool
    /** The panel's own size and offsets, not affected by rotation. */
    const w: int
    const h: int
    const x: int
    const y: int
    /** The size and offsets in the current orientation. */
    var width: int
    var height: int
    var xoff: int
    var yoff: int
    var rot: int
    var inv: bool
    var bgr: bool
    /** The CASET and RASET parameter buffers (`bytearray(4)` each). */
    const caset: array<byte>
    const raset: array<byte>
    /** Everything done on the bus so far. */
    var log: seq<Event>

    /** What drawing calls read of the driver. */
    function View(): Surface
      reads this`width, this`height, this`xoff, this`yoff
    {
      Surface(hasCs, width, height, xoff, yoff)
    }

    /** Two distinct four-byte buffers whose high bytes stay zero, and the
        panel laid one of its two ways. */
    predicate Valid()
      reads this`width, this`height, this`xoff, this`yoff, caset, raset
    {
      caset.Length == 4 && raset.Length == 4 && caset != raset
      && caset[0] == 0 && caset[2] == 0 && raset[0] == 0 && raset[2] == 0
      && Upright(Geometry(width, height, xoff, yoff), w, h, x, y)
    }

    /** `ST7735R(spi, dc, cs, rst, w, h, x, y, rot, inv, bgr)`: records the
        configuration and lays out the panel for `rot`; nothing is sent. */
    constructor (hasCs: bool, w: int, h: int, x: int, y: int, rot: int, inv: bool, bgr: bool)
      ensures Valid()
      ensures this.hasCs == hasCs && this.w == w && this.h == h && this.x == x && this.y == y
      ensures this.rot == rot && this.inv == inv && this.bgr == bgr
      ensures Geometry(width, height, xoff, yoff) == Oriented(w, h, x, y, rot)
      ensures caset[..] == [0, 0, 0, 0] && raset[..] == [0, 0, 0, 0]
      ensures fresh(caset) && fresh(raset)
      ensures log == []
    {
      this.hasCs := hasCs;
      this.w, this.h, this.x, this.y := w, h, x, y;
      this.rot, this.inv, this.bgr := rot, inv, bgr;
      caset := new byte[4](_ => 0);
      raset := new byte[4](_ => 0);
      log := [];
      new;
      InitRotate(rot);
      OrientedUpright(w, h, x, y, rot);
    }

    /** `_init_rotate(r)`. */
    method InitRotate(r: int)
      modifies this`width, this`height, this`xoff, this`yoff
      ensures Geometry(width, height, xoff, yoff) == Oriented(w, h, x, y, r)
    {
      if r % 2 == 0 {
        width := w;
        height := h;
        xoff := x;
        yoff := y;
      } else {
        width := h;
        height := w;
        xoff := y;
        yoff := x;
      }
    }

    /** `rotate(r)`: lays out the panel for r and sends MADCTL; `rot` is
        left as it was. */
    method Rotate(r: int)
      requires 0 <= r < 4 && Valid()
      modifies this`width, this`height, this`xoff, this`yoff, this`log
      ensures Valid()
      ensures Geometry(width, height, xoff, yoff) == Oriented(w, h, x, y, r)
      ensures log == old(log) + CmdFrame(hasCs, Some(MADCTL), Some([Madctl(r, bgr)]))
    {
      InitRotate(r);
      OrientedUpright(w, h, x, y, r);
      var madctl: bv8;
      if r == 0 {
        madctl := 0x00;
      } else if r == 1 {
        madctl := 0x60;
      } else if r == 2 {
        madctl := 0xC0;
      } else {
        madctl := 0xA0;
      }
      if bgr {
        madctl := madctl | 0x08;
      }
      Cmd(Some(MADCTL), Some([madctl as int]));
    }

    // ------------------------------------------------------------ the bus

    method LowerDc()
      modifies this`log
      ensures log == old(log) + [DcLow]
    {
      log := log + [DcLow];
    }

    method RaiseDc()
      modifies this`log
      ensures log == old(log) + [DcHigh]
    {
      log := log + [DcHigh];
    }

    /** `_cs_low`: nothing happens without a chip-select pin. */
    method LowerCs()
      modifies this`log
      ensures log == old(log) + Select(hasCs)
    {
      if hasCs {
        log := log + [CsLow];
      }
    }

    method RaiseCs()
      modifies this`log
      ensures log == old(log) + Deselect(hasCs)
    {
      if hasCs {
        log := log + [CsHigh];
      }
    }

    /** `spi.write(bs)`. */
    method SpiWrite(bs: seq<byte>)
      modifies this`log
      ensures log == old(log) + [Write(bs)]
    {
      log := log + [Write(bs)];
    }

    /** `cmd(command, data)`. */
    method Cmd(command: Option<byte>, data: Option<seq<byte>>)
      modifies this`log
      ensures log == old(log) + CmdFrame(hasCs, command, data)
    {
      ghost var opcode: seq<Event> := if command.Some? then [DcLow, Write([command.value])] else [];
      ghost var payload: seq<Event> := if data.Some? then [DcHigh, Write(data.value)] else [];
      ghost var l0 := log;
      LowerCs();
      ghost var l1 := log;
      if command.Some? {
        LowerDc();
        SpiWrite([command.value]);
      }
      assert log == l1 + opcode;
      ghost var l2 := log;
      if data.Some? {
        RaiseDc();
        SpiWrite(data.value);
      }
      assert log == l2 + payload;
      ghost var l3 := log;
      RaiseCs();
      AppendChain(l0, l1, l2, l3, log, Select(hasCs), opcode, payload, Deselect(hasCs));
    }

    /** `data(data)`. */
    method Data(data: seq<byte>)
      modifies this`log
      ensures log == old(log) + DataFrame(hasCs, data)
    {
      RaiseDc();
      LowerCs();
      SpiWrite(data);
      RaiseCs();
    }

    /** `_repeat_data(data, count)`. */
    method RepeatData(data: seq<byte>, count: int)
      modifies this`log
      ensures log == old(log) + RepeatFrame(hasCs, data, count)
    {
      var repeat := count / BatchSize;
      var remain := count % BatchSize;
      var repeatBytes: seq<byte> := [];
      var remainBytes: seq<byte> := [];
      if repeat > 0 {
        repeatBytes := Repeat(data, BatchSize);
      }
      if remain > 0 {
        remainBytes := Repeat(data, remain);
      }
      assert Writes(repeatBytes, repeat) == Writes(Repeat(data, BatchSize), repeat);
      assert Writes(remainBytes, remain) == Writes(Repeat(data, remain), remain);
      RaiseDc();
      LowerCs();
      ghost var start := log;
      var i := 0;
      while i < repeat
        invariant 0 <= i <= Max0(repeat)
        invariant log + Writes(repeatBytes, repeat - i) == start + Writes(repeatBytes, repeat)
      {
        AppendAssoc(log, [Write(repeatBytes)], Writes(repeatBytes, repeat - i - 1));
        SpiWrite(repeatBytes);
        i := i + 1;
      }
      assert log + [] == log == start + Writes(repeatBytes, repeat);
      ghost var mid := log;
      var j := 0;
      while j < remain
        invariant 0 <= j <= remain
        invariant log + Writes(remainBytes, remain - j) == mid + Writes(remainBytes, remain)
      {
        AppendAssoc(log, [Write(remainBytes)], Writes(remainBytes, remain - j - 1));
        SpiWrite(remainBytes);
        j := j + 1;
      }
      assert log + [] == log == mid + Writes(remainBytes, remain);
      RaiseCs();
      BurstLog(old(log), hasCs, Writes(repeatBytes, repeat), Writes(remainBytes, remain));
    }

    /** `_repeat_data_slow(data, count)`. */
    method RepeatDataSlow(data: seq<byte>, count: int)
      modifies this`log
      ensures log == old(log) + RepeatSlowFrame(hasCs, data, count)
    {
      RaiseDc();
      LowerCs();
      ghost var start := log;
      var i := 0;
      while i < count
        invariant 0 <= i <= Max0(count)
        invariant log + Writes(data, count - i) == start + Writes(data, count)
      {
        AppendAssoc(log, [Write(data)], Writes(data, count - i - 1));
        SpiWrite(data);
        i := i + 1;
      }
      assert log + [] == log == start + Writes(data, count);
      RaiseCs();
      BurstLog(old(log), hasCs, Writes(data, count), []);
      assert Writes(data, count) + [] == Writes(data, count);
    }

    /** `_repeat_data_bulk(data, count)`. */
    method RepeatDataBulk(data: seq<byte>, count: int)
      modifies this`log
      ensures log == old(log) + RepeatBulkFrame(hasCs, data, count)
    {
      RaiseDc();
      LowerCs();
      SpiWrite(Repeat(data, count));
      RaiseCs();
    }

    // ------------------------------------------------------ panel control

    /** `soft_reset()`, without the delay. */
    method SoftReset()
      modifies this`log
      ensures log == old(log) + CmdFrame(hasCs, Some(SWRESET), None)
    {
      Cmd(Some(SWRESET), None);
    }

    /** `sleep(sleep)`: SLPIN when true, SLPOUT when false. */
    method Sleep(sleep: bool)
      modifies this`log
      ensures log == old(log) + CmdFrame(hasCs, Some(if sleep then SLPIN else SLPOUT), None)
    {
      Cmd(Some(if sleep then SLPIN else SLPOUT), None);
    }

    /** `power(on)`: DISPON when on, DISPOFF otherwise. */
    method Power(on: bool)
      modifies this`log
      ensures log == old(log) + CmdFrame(hasCs, Some(if on then DISPON else DISPOFF), None)
    {
      Cmd(Some(if on then DISPON else DISPOFF), None);
    }

    /** `invert(invert)`: INVON when true, INVOFF when false. */
    method Invert(invert: bool)
      modifies this`log
      ensures log == old(log) + CmdFrame(hasCs, Some(if invert then INVON else INVOFF), None)
    {
      Cmd(Some(if invert then INVON else INVOFF), None);
    }

    /** `_set_window(x0, y0, x1, y1)`: stores the shifted corners in the
        address buffers and sends CASET, RASET and RAMWR. */
    method SetWindow(x0: int, y0: int, x1: int, y1: int)
      requires Valid() && WindowFits(View(), x0, y0, x1, y1)
      modifies this`log, caset, raset
      ensures Valid()
      ensures caset[..] == Address(xoff + x0, xoff + x1) && raset[..] == Address(yoff + y0, yoff + y1)
      ensures log == old(log) + WindowFrame(View(), x0, y0, x1, y1)
    {
      caset[1] := xoff + x0;
      caset[3] := xoff + x1;
      raset[1] := yoff + y0;
      raset[3] := yoff + y1;
      assert caset[..] == Address(xoff + x0, xoff + x1);
      assert raset[..] == Address(yoff + y0, yoff + y1);
      ghost var start := log;
      ghost var columns := CmdFrame(hasCs, Some(CASET), Some(Address(xoff + x0, xoff + x1)));
      ghost var rows := CmdFrame(hasCs, Some(RASET), Some(Address(yoff + y0, yoff + y1)));
      hide CmdFrame;
      Cmd(Some(CASET), Some(caset[..]));
      Cmd(Some(RASET), Some(raset[..]));
      AppendAssoc(start, columns, rows);
      Cmd(Some(RAMWR), None);
      AppendAssoc(start, columns + rows, CmdFrame(hasCs, Some(RAMWR), None));
    }

    // ------------------------------------------------------------ drawing

    /** `fill(color)`. */
    method Fill(color: Color)
      requires Valid() && FillFits(View())
      modifies this`log, caset, raset
      ensures Valid()
      ensures log == old(log) + FillEvents(View(), color)
    {
      Rect(0, 0, width, height, color);
    }

    /** `fill_slow(color)`. */
    method FillSlow(color: Color)
      requires Valid() && FullWindowFits(View())
      modifies this`log, caset, raset
      ensures Valid()
      ensures log == old(log) + FillSlowEvents(View(), color)
    {
      hide WindowFrame, RepeatSlowFrame;
      ghost var s, start := View(), log;
      SetWindow(0, 0, width - 1, height - 1);
      RepeatDataSlow(ColorBytes(color), width * height);
      AppendAssoc(start, WindowFrame(s, 0, 0, width - 1, height - 1), RepeatSlowFrame(hasCs, ColorBytes(color), width * height));
    }

    /** `fill_bulk(color)`. */
    method FillBulk(color: Color)
      requires Valid() && FullWindowFits(View())
      modifies this`log, caset, raset
      ensures Valid()
      ensures log == old(log) + FillBulkEvents(View(), color)
    {
      hide WindowFrame, RepeatBulkFrame;
      ghost var s, start := View(), log;
      SetWindow(0, 0, width - 1, height - 1);
      RepeatDataBulk(ColorBytes(color), width * height);
      AppendAssoc(start, WindowFrame(s, 0, 0, width - 1, height - 1), RepeatBulkFrame(hasCs, ColorBytes(color), width * height));
    }

    /** `pixel(x, y, color)`. */
    method Pixel(x: int, y: int, color: Color)
      requires Valid() && PixelFits(View(), x, y)
      modifies this`log, caset, raset
      ensures Valid() && View() == old(View())
      ensures log == old(log) + PixelEvents(View(), x, y, color)
    {
      hide WindowFrame, RepeatFrame;
      SetWindow(x, y, x + 1, y + 1);
      RepeatData(ColorBytes(color), 1);
    }

    /** `rect(x, y, w, h, color)`. */
    method Rect(x: int, y: int, w: int, h: int, color: Color)
      requires Valid() && RectFits(View(), x, y, w, h)
      modifies this`log, caset, raset
      ensures Valid()
      ensures log == old(log) + RectEvents(View(), x, y, w, h, color)
    {
      hide WindowFrame, RepeatFrame;
      if x >= width || y >= height {
        return;
      }
      var w', h' := w, h;
      if x + w' - 1 >= width {
        w' := width - x;
      }
      if y + h' - 1 >= height {
        h' := height - y;
      }
      ghost var s, start := View(), log;
      SetWindow(x, y, x + w' - 1, y + h' - 1);
      ghost var mid := log;
      RepeatData(ColorBytes(color), w' * h');
      RectLog(s, x, y, w, h, color, w', h', start, mid, log);
    }

    /** `hline(x, y, w, color)`. */
    method HLine(x: int, y: int, w: int, color: Color)
      requires Valid() && HLineFits(View(), x, y, w)
      modifies this`log, caset, raset
      ensures Valid()
      ensures log == old(log) + HLineEvents(View(), x, y, w, color)
    {
      hide WindowFrame, RepeatFrame;
      if x >= width || y >= height {
        return;
      }
      var w' := w;
      if x + w' - 1 >= width {
        w' := width - x;
      }
      ghost var s, start := View(), log;
      SetWindow(x, y, x + w' - 1, y);
      ghost var mid := log;
      RepeatData(ColorBytes(color), x + w' - 1);
      HLineLog(s, x, y, w, color, w', start, mid, log);
    }

    /** `vline(x, y, h, color)`. */
    method VLine(x: int, y: int, h: int, color: Color)
      requires Valid() && VLineFits(View(), x, y, h)
      modifies this`log, caset, raset
      ensures Valid()
      ensures log == old(log) + VLineEvents(View(), x, y, h, color)
    {
      hide WindowFrame, RepeatFrame;
      if x >= width || y >= height {
        return;
      }
      var h' := h;
      if y + h' - 1 >= height {
        h' := height - y;
      }
      ghost var s, start := View(), log;
      SetWindow(x, y, x, y + h' - 1);
      ghost var mid := log;
      RepeatData(ColorBytes(color), y + h' - 1);
      VLineLog(s, x, y, h, color, h', start, mid, log);
    }

    /** `rect_outline(x, y, w, h, color)`. */
    method RectOutline(x: int, y: int, w: int, h: int, color: Color)
      requires Valid() && RectOutlineFits(View(), x, y, w, h)
      modifies this`log, caset, raset
      ensures Valid()
      ensures log == old(log) + RectOutlineEvents(View(), x, y, w, h, color)
    {
      // The sides are assembled whole; their contents are not needed here.
      hide HLineEvents, VLineEvents;
      ghost var s, l0 := View(), log;
      HLine(x, y, w, color);
      ghost var l1 := log;
      VLine(x + w - 1, y, h, color);
      ghost var l2 := log;
      HLine(x, y + h - 1, w, color);
      ghost var l3 := log;
      VLine(x, y, h, color);
      AppendChain(l0, l1, l2, l3, log, HLineEvents(s, x, y, w, color), VLineEvents(s, x + w - 1, y, h, color),
                  HLineEvents(s, x, y + h - 1, w, color), VLineEvents(s, x, y, h, color));
    }

    /** `line(x0, y0, x1, y1, color)`. */
    method Line(x0: int, y0: int, x1: int, y1: int, color: Color)
      requires Valid() && LineFits(View(), x0, y0, x1, y1)
      modifies this`log, caset, raset
      ensures Valid()
      ensures log == old(log) + LineEvents(View(), x0, y0, x1, y1, color)
    {
      hide WindowFrame, RepeatFrame, HLineEvents, VLineEvents, MarksFit, MarksEvents, Bresenham.Walk;
      if x0 == x1 {
        var start, end := if y1 < y0 then x1 else x0, if y1 < y0 then y1 else y0;
        VLine(start, end, Bresenham.Abs(y1 - y0) + 1, color);
      } else if y0 == y1 {
        var start, end := if x1 < x0 then x1 else x0, if x1 < x0 then y1 else y0;
        HLine(start, end, Bresenham.Abs(x1 - x0) + 1, color);
      } else {
        var dx: int, dy: int := Bresenham.Abs(x1 - x0), Bresenham.Abs(y1 - y0);
        var inx := if x1 - x0 > 0 then 1 else -1;
        var iny := if y1 - y0 > 0 then 1 else -1;
        if dx >= dy {
          dy := dy * 2;
          var e := dy - dx;
          dx := dx * 2;
          assert Bresenham.LinePoints(x0, y0, x1, y1) == Bresenham.Walk(x0, y0, x1, e, inx, iny, dx, dy, true);
          StepAlongX(x0, y0, x1, e, inx, iny, dx, dy, color);
        } else {
          dx := dx * 2;
          var e := dx - dy;
          dy := dy * 2;
          assert Bresenham.LinePoints(x0, y0, x1, y1) == Bresenham.Walk(y0, x0, y1, e, iny, inx, dy, dx, false);
          StepAlongY(x0, y0, y1, e, inx, iny, dx, dy, color);
        }
      }
    }

    /** The first `while` loop of `line` (x is the major axis): one pixel per
        column from x0 up to, not including, x1, stepping y when the error
        is non-negative. */
    method StepAlongX(x0: int, y0: int, x1: int, e0: int, inx: int, iny: int, dx: int, dy: int, color: Color)
      requires Valid() && ((inx == 1 && x0 <= x1) || (inx == -1 && x0 >= x1))
      requires MarksFit(View(), Bresenham.Walk(x0, y0, x1, e0, inx, iny, dx, dy, true), Dot)
      modifies this`log, caset, raset
      ensures Valid()
      ensures log == old(log) + MarksEvents(View(), Bresenham.Walk(x0, y0, x1, e0, inx, iny, dx, dy, true), Dot, color)
    {
      var x, y, e := x0, y0, e0;
      ghost var s := View();
      hide Bresenham.Walk, MarksFit, MarksEvents, PixelEvents;
      while x != x1
        invariant (inx == 1 && x <= x1) || (inx == -1 && x >= x1)
        invariant Valid() && View() == s
        invariant MarksFit(s, Bresenham.Walk(x, y, x1, e, inx, iny, dx, dy, true), Dot)
        invariant log + MarksEvents(s, Bresenham.Walk(x, y, x1, e, inx, iny, dx, dy, true), Dot, color)
               == old(log) + MarksEvents(s, Bresenham.Walk(x0, y0, x1, e0, inx, iny, dx, dy, true), Dot, color)
        decreases Bresenham.Abs(x1 - x)
      {
        WalkHead(s, x, y, x1, e, inx, iny, dx, dy, true, color);
        ghost var before := log;
        Pixel(x, y, color);
        AppendAssoc(before, PixelEvents(s, x, y, color),
                    MarksEvents(s, Bresenham.Walk(x + inx, if e >= 0 then y + iny else y, x1,
                                                  (if e >= 0 then e - dx else e) + dy, inx, iny, dx, dy, true), Dot, color));
        if e >= 0 {
          y := y + iny;
          e := e - dx;
        }
        e := e + dy;
        x := x + inx;
      }
      WalkEnd(s, x, y, x1, e, inx, iny, dx, dy, true, color);
    }

    /** The second `while` loop of `line` (y is the major axis): one pixel per
        row from y0 up to, not including, y1, stepping x when the error is
        non-negative. */
    method StepAlongY(x0: int, y0: int, y1: int, e0: int, inx: int, iny: int, dx: int, dy: int, color: Color)
      requires Valid() && ((iny == 1 && y0 <= y1) || (iny == -1 && y0 >= y1))
      requires MarksFit(View(), Bresenham.Walk(y0, x0, y1, e0, iny, inx, dy, dx, false), Dot)
      modifies this`log, caset, raset
      ensures Valid()
      ensures log == old(log) + MarksEvents(View(), Bresenham.Walk(y0, x0, y1, e0, iny, inx, dy, dx, false), Dot, color)
    {
      var x, y, e := x0, y0, e0;
      ghost var s := View();
      hide Bresenham.Walk, MarksFit, MarksEvents, PixelEvents;
      while y != y1
        invariant (iny == 1 && y <= y1) || (iny == -1 && y >= y1)
        invariant Valid() && View() == s
        invariant MarksFit(s, Bresenham.Walk(y, x, y1, e, iny, inx, dy, dx, false), Dot)
        invariant log + MarksEvents(s, Bresenham.Walk(y, x, y1, e, iny, inx, dy, dx, false), Dot, color)
               == old(log) + MarksEvents(s, Bresenham.Walk(y0, x0, y1, e0, iny, inx, dy, dx, false), Dot, color)
        decreases Bresenham.Abs(y1 - y)
      {
        WalkHead(s, y, x, y1, e, iny, inx, dy, dx, false, color);
        ghost var before := log;
        Pixel(x, y, color);
        AppendAssoc(before, PixelEvents(s, x, y, color),
                    MarksEvents(s, Bresenham.Walk(y + iny, if e >= 0 then x + inx else x, y1,
                                                  (if e >= 0 then e - dy else e) + dx, iny, inx, dy, dx, false), Dot, color));
        if e >= 0 {
          x := x + inx;
          e := e - dy;
        }
        e := e + dx;
        y := y + iny;
      }
      WalkEnd(s, y, x, y1, e, iny, inx, dy, dx, false, color);
    }

    /** `triangle_outline(x0, y0, x1, y1, x2, y2, color)`. */
    method TriangleOutline(x0: int, y0: int, x1: int, y1: int, x2: int, y2: int, color: Color)
      requires Valid() && TriangleFits(View(), x0, y0, x1, y1, x2, y2)
      modifies this`log, caset, raset
      ensures Valid()
      ensures log == old(log) + TriangleEvents(View(), x0, y0, x1, y1, x2, y2, color)
    {
      ghost var s, start := View(), log;
      Line(x0, y0, x1, y1, color);
      Line(x1, y1, x2, y2, color);
      AppendAssoc(start, LineEvents(s, x0, y0, x1, y1, color), LineEvents(s, x1, y1, x2, y2, color));
      Line(x2, y2, x0, y0, color);
      AppendAssoc(start, LineEvents(s, x0, y0, x1, y1, color) + LineEvents(s, x1, y1, x2, y2, color),
                  LineEvents(s, x2, y2, x0, y0, color));
    }

    /** `circle(x, y, radius, color)`: the middle row, then for each row i
        from 1 below the radius the rows y + i and y - i, each spanning
        twice the half chord `a`. */
    method Circle(x: int, y: int, radius: int, color: Color)
      requires Valid() && CircleFits(View(), x, y, radius)
      modifies this`log, caset, raset
      ensures Valid()
      ensures log == old(log) + CircleEvents(View(), x, y, radius, color)
    {
      ghost var s := View();
      hide HLineEvents, HLineFits;
      HLine(x - radius, y, radius * 2, color);
      ghost var mid := log;
      var i := 1;
      while i < radius
        invariant i >= 1
        invariant Valid() && View() == s
        invariant RowsFit(s, x, y, radius, i)
        invariant log + RowsEvents(s, x, y, radius, i, color) == mid + RowsEvents(s, x, y, radius, 1, color)
        decreases radius - i
      {
        var a := Disc.ISqrt(radius * radius - i * i);
        RowsStep(s, x, y, radius, i, a, color);
        ghost var rows := RowsEvents(s, x, y, radius, i + 1, color);
        ghost var l0 := log;
        HLine(x - a, y + i, a * 2, color);
        ghost var l1 := log;
        HLine(x - a, y - i, a * 2, color);
        AppendAssoc(l1, HLineEvents(s, x - a, y - i, a * 2, color), rows);
        AppendAssoc(l0, HLineEvents(s, x - a, y + i, a * 2, color), HLineEvents(s, x - a, y - i, a * 2, color) + rows);
        i := i + 1;
      }
      assert log + [] == log;
      AppendAssoc(old(log), HLineEvents(s, x - radius, y, radius * 2, color), RowsEvents(s, x, y, radius, 1, color));
    }

    /** `circle_outline(x, y, radius, color)`: the four extreme pixels, then
        for each row i from 1 below the radius the eight pixels where the
        half chord `a` meets the rim. */
    method CircleOutline(x: int, y: int, radius: int, color: Color)
      requires Valid() && MarksFit(View(), Disc.OutlinePoints(x, y, radius), Dot)
      modifies this`log, caset, raset
      ensures Valid()
      ensures log == old(log) + CircleOutlineEvents(View(), x, y, radius, color)
    {
      ghost var s := View();
      ghost var total := old(log) + CircleOutlineEvents(s, x, y, radius, color);
      hide MarksFit, MarksEvents, PixelFits, PixelEvents, CircleOutlineEvents, Disc.Arcs, Disc.OutlinePoints, Disc.HalfChord;
      OutlineEnds(x, y, radius, color);
      var i := 1;
      while i < radius
        invariant i >= 1
        invariant Valid() && View() == s
        invariant MarksFit(s, Disc.Arcs(x, y, radius, i), Dot)
        invariant log + MarksEvents(s, Disc.Arcs(x, y, radius, i), Dot, color) == total
        decreases radius - i
      {
        OutlineRow(x, y, radius, i, color);
        i := i + 1;
      }
      Disc.ArcsEnd(x, y, radius, i);
      NoMarks(s, Dot, color);
      assert log + [] == log;
    }

    /** The start of `circle_outline`: its four extreme pixels; the rows
        of the outline are left. */
    method OutlineEnds(x: int, y: int, radius: int, color: Color)
      requires Valid() && MarksFit(View(), Disc.OutlinePoints(x, y, radius), Dot)
      modifies this`log, caset, raset
      ensures Valid() && View() == old(View())
      ensures MarksFit(View(), Disc.Arcs(x, y, radius, 1), Dot)
      ensures log + MarksEvents(View(), Disc.Arcs(x, y, radius, 1), Dot, color)
           == old(log) + CircleOutlineEvents(View(), x, y, radius, color)
    {
      ghost var s := View();
      hide MarksFit, MarksEvents, PixelFits, PixelEvents, CircleOutlineEvents, Disc.Arcs, Disc.OutlinePoints;
      EndsFit(s, x, y, radius);
      EndPixels(x, y, radius, color);
      EndsLog(s, x, y, radius, color, old(log), log);
    }

    /** The first four calls of `circle_outline`: the pixels radius to the
        left and right of the centre, then above and below it. */
    method EndPixels(x: int, y: int, radius: int, color: Color)
      requires Valid()
      requires PixelFits(View(), x - radius, y) && PixelFits(View(), x + radius, y)
      requires PixelFits(View(), x, y - radius) && PixelFits(View(), x, y + radius)
      modifies this`log, caset, raset
      ensures Valid() && View() == old(View())
      ensures log == old(log) + EndsEvents(View(), x, y, radius, color)
    {
      ghost var s := View();
      hide PixelFits, PixelEvents;
      ghost var l0 := log;
      Pixel(x - radius, y, color);
      ghost var l1 := log;
      Pixel(x + radius, y, color);
      ghost var l2 := log;
      Pixel(x, y - radius, color);
      ghost var l3 := log;
      Pixel(x, y + radius, color);
      AppendChain(l0, l1, l2, l3, log, PixelEvents(s, x - radius, y, color), PixelEvents(s, x + radius, y, color),
                  PixelEvents(s, x, y - radius, color), PixelEvents(s, x, y + radius, color));
    }

    /** One pass of the loop of `circle_outline`: the half chord a of row
        i, then the eight pixels of that row; rows i + 1 on are left. */
    method OutlineRow(x: int, y: int, radius: int, i: int, color: Color)
      requires 1 <= i < radius
      requires Valid() && MarksFit(View(), Disc.Arcs(x, y, radius, i), Dot)
      modifies this`log, caset, raset
      ensures Valid() && View() == old(View())
      ensures MarksFit(View(), Disc.Arcs(x, y, radius, i + 1), Dot)
      ensures log + MarksEvents(View(), Disc.Arcs(x, y, radius, i + 1), Dot, color)
           == old(log) + MarksEvents(View(), Disc.Arcs(x, y, radius, i), Dot, color)
    {
      ghost var s := View();
      hide MarksFit, MarksEvents, PixelFits, PixelEvents, Disc.Arcs, Disc.HalfChord;
      var a := Disc.HalfChord(radius, i);
      ArcRowFits(s, x, y, radius, i, a);
      ArcPixels(x, y, i, a, color);
      ArcRowLog(s, x, y, radius, i, a, color, old(log) + MarksEvents(s, Disc.Arcs(x, y, radius, i), Dot, color), old(log), log);
    }

    /** The body of the loop of `circle_outline`: the eight pixels of row i,
        whose half chord is a. */
    method ArcPixels(x: int, y: int, i: int, a: int, color: Color)
      requires Valid()
      requires PixelFits(View(), x - a, y - i) && PixelFits(View(), x - i, y - a)
      requires PixelFits(View(), x + a, y - i) && PixelFits(View(), x + i, y - a)
      requires PixelFits(View(), x - a, y + i) && PixelFits(View(), x - i, y + a)
      requires PixelFits(View(), x + a, y + i) && PixelFits(View(), x + i, y + a)
      modifies this`log, caset, raset
      ensures Valid() && View() == old(View())
      ensures log == old(log) + ArcRowEvents(View(), x, y, i, a, color)
    {
      ghost var s := View();
      hide PixelFits, PixelEvents;
      ghost var l0 := log;
      Pixel(x - a, y - i, color);
      ghost var l1 := log;
      Pixel(x - i, y - a, color);
      ghost var l2 := log;
      Pixel(x + a, y - i, color);
      ghost var l3 := log;
      Pixel(x + i, y - a, color);
      ghost var l4 := log;
      Pixel(x - a, y + i, color);
      ghost var l5 := log;
      Pixel(x - i, y + a, color);
      ghost var l6 := log;
      Pixel(x + a, y + i, color);
      ghost var l7 := log;
      Pixel(x + i, y + a, color);
      ghost var l8 := log;
      ArcRowChain(s, x, y, i, a, color, l0, l1, l2, l3, l4, l5, l6, l7, l8);
    }

    /** `char(x, y, ch, font, color, sizex, sizey)`: nothing without a font or
        for a character the font does not cover; else the glyph's column
        bytes, one column per step of `px`, drawn one pixel per set bit when
        neither size exceeds 1, and one sizex by sizey rectangle per set bit
        otherwise. */
    method Char(x: int, y: int, ch: char, font: Option<Font>, color: Color, sizex: int, sizey: int)
      requires Valid() && (font.Some? ==> CharFits(View(), x, y, ch as int, font.value, sizex, sizey))
      modifies this`log, caset, raset
      ensures Valid() && View() == old(View())
      ensures log == old(log) + CharEvents(View(), x, y, ch as int, font, color, sizex, sizey)
    {
      if font.None? {
        assert log + [] == log;
        return;
      }
      var f := font.value;
      var startchar, endchar := f.start, f.end;
      var ci := ch as int;
      if startchar <= ci <= endchar {
        var width, height := f.width, f.height;
        ci := (ci - startchar) * width;
        var glyph := Slice(f.bytes, ci, ci + width);
        ghost var s := View();
        assert glyph == GlyphColumns(f, ch as int);
        CharShape(s, x, y, ch as int, f, sizex, sizey, color);
        hide CharEvents, CharFits, GlyphColumns, GlyphMarks, MarksFit, MarksEvents;
        if sizex <= 1 && sizey <= 1 {
          PlotGlyph(x, y, glyph, height, color);
        } else {
          FillGlyph(x, y, glyph, height, sizex, sizey, color);
        }
      }
    }

    /** The outer loop of `char` without scaling: one column per byte of
        the glyph, `px` moving one to the right after each. */
    method PlotGlyph(x: int, y: int, glyph: seq<byte>, height: int, color: Color)
      requires Valid() && MarksFit(View(), GlyphMarks(x, y, glyph[0..], height, 1, 1), Dot)
      modifies this`log, caset, raset
      ensures Valid() && View() == old(View())
      ensures log == old(log) + MarksEvents(View(), GlyphMarks(x, y, glyph[0..], height, 1, 1), Dot, color)
    {
      ghost var s := View();
      ghost var total := old(log) + MarksEvents(s, GlyphMarks(x, y, glyph[0..], height, 1, 1), Dot, color);
      hide GlyphMarks, ColumnMarks, MarksFit, MarksEvents;
      var px := x;
      var j := 0;
      while j < |glyph|
        invariant 0 <= j <= |glyph| && px == x + j
        invariant Valid() && View() == s
        invariant MarksFit(s, GlyphMarks(px, y, glyph[j..], height, 1, 1), Dot)
        invariant log + MarksEvents(s, GlyphMarks(px, y, glyph[j..], height, 1, 1), Dot, color) == total
      {
        PlotGlyphColumn(px, y, glyph, j, height, color);
        px := px + 1;
        j := j + 1;
      }
      GlyphEnd(s, px, y, glyph, height, 1, 1, Dot, color);
    }

    /** The outer loop of `char` when scaled: `px` moves sizex to the right
        after each column. */
    method FillGlyph(x: int, y: int, glyph: seq<byte>, height: int, sizex: int, sizey: int, color: Color)
      requires Valid() && MarksFit(View(), GlyphMarks(x, y, glyph[0..], height, sizex, sizey), Block(sizex, sizey))
      modifies this`log, caset, raset
      ensures Valid() && View() == old(View())
      ensures log == old(log) + MarksEvents(View(), GlyphMarks(x, y, glyph[0..], height, sizex, sizey), Block(sizex, sizey), color)
    {
      ghost var s := View();
      ghost var b := Block(sizex, sizey);
      ghost var total := old(log) + MarksEvents(s, GlyphMarks(x, y, glyph[0..], height, sizex, sizey), b, color);
      hide GlyphMarks, ColumnMarks, MarksFit, MarksEvents;
      var px := x;
      var j := 0;
      while j < |glyph|
        invariant 0 <= j <= |glyph|
        invariant Valid() && View() == s
        invariant MarksFit(s, GlyphMarks(px, y, glyph[j..], height, sizex, sizey), b)
        invariant log + MarksEvents(s, GlyphMarks(px, y, glyph[j..], height, sizex, sizey), b, color) == total
      {
        FillGlyphColumn(px, y, glyph, j, height, sizex, sizey, color);
        px := px + sizex;
        j := j + 1;
      }
      GlyphEnd(s, px, y, glyph, height, sizex, sizey, b, color);
    }

    /** The inner loop of `char` without scaling: for each of `height` rows
        from y down, a pixel when the low bit of the column byte is set, then
        the byte shifted right. */
    method PlotColumn(px: int, y: int, column: byte, height: int, color: Color)
      requires Valid() && MarksFit(View(), ColumnMarks(px, y, column, height, 1), Dot)
      modifies this`log, caset, raset
      ensures Valid() && View() == old(View())
      ensures log == old(log) + MarksEvents(View(), ColumnMarks(px, y, column, height, 1), Dot, color)
    {
      ghost var s := View();
      ghost var total := old(log) + MarksEvents(s, ColumnMarks(px, y, column, height, 1), Dot, color);
      hide ColumnMarks, MarksFit, MarksEvents, MarkFits, MarkEvents, PixelFits, PixelEvents;
      var py, c := y, column as int;
      var k := 0;
      while k < height
        invariant 0 <= k && (k <= height || k == 0) && c >= 0
        invariant Valid() && View() == s
        invariant MarksFit(s, ColumnMarks(px, py, c, height - k, 1), Dot)
        invariant log + MarksEvents(s, ColumnMarks(px, py, c, height - k, 1), Dot, color) == total
      {
        PlotBit(px, py, c, height - k, color);
        py := py + 1;
        c := c / 2;
        k := k + 1;
      }
      ColumnEnd(s, px, py, c, height - k, 1, Dot, color);
      assert log + [] == log;
    }

    /** The inner loop of `char` when scaled: for each of `height` rows, a
        sizex by sizey rectangle when the low bit is set, the next row
        sizey lower. */
    method FillColumn(px: int, y: int, column: byte, height: int, sizex: int, sizey: int, color: Color)
      requires Valid() && MarksFit(View(), ColumnMarks(px, y, column, height, sizey), Block(sizex, sizey))
      modifies this`log, caset, raset
      ensures Valid() && View() == old(View())
      ensures log == old(log) + MarksEvents(View(), ColumnMarks(px, y, column, height, sizey), Block(sizex, sizey), color)
    {
      ghost var s := View();
      ghost var total := old(log) + MarksEvents(s, ColumnMarks(px, y, column, height, sizey), Block(sizex, sizey), color);
      hide ColumnMarks, MarksFit, MarksEvents, MarkFits, MarkEvents, RectFits, RectEvents;
      var py, c := y, column as int;
      var k := 0;
      while k < height
        invariant 0 <= k && (k <= height || k == 0) && c >= 0
        invariant Valid() && View() == s
        invariant MarksFit(s, ColumnMarks(px, py, c, height - k, sizey), Block(sizex, sizey))
        invariant log + MarksEvents(s, ColumnMarks(px, py, c, height - k, sizey), Block(sizex, sizey), color) == total
      {
        FillBit(px, py, c, height - k, sizex, sizey, color);
        py := py + sizey;
        c := c / 2;
        k := k + 1;
      }
      ColumnEnd(s, px, py, c, height - k, sizey, Block(sizex, sizey), color);
      assert log + [] == log;
    }

    /** One pass of the outer loop of `char` without scaling: column j of
        the glyph at px; the columns after it are left for px + 1. */
    method PlotGlyphColumn(px: int, y: int, glyph: seq<byte>, j: int, height: int, color: Color)
      requires 0 <= j < |glyph|
      requires Valid() && MarksFit(View(), GlyphMarks(px, y, glyph[j..], height, 1, 1), Dot)
      modifies this`log, caset, raset
      ensures Valid() && View() == old(View())
      ensures MarksFit(View(), GlyphMarks(px + 1, y, glyph[j + 1..], height, 1, 1), Dot)
      ensures log + MarksEvents(View(), GlyphMarks(px + 1, y, glyph[j + 1..], height, 1, 1), Dot, color)
           == old(log) + MarksEvents(View(), GlyphMarks(px, y, glyph[j..], height, 1, 1), Dot, color)
    {
      ghost var s := View();
      hide GlyphMarks, ColumnMarks, MarksFit, MarksEvents;
      GlyphStep(s, px, y, glyph, j, height, 1, 1, Dot, color);
      PlotColumn(px, y, glyph[j], height, color);
      AppendAssoc(old(log), MarksEvents(s, ColumnMarks(px, y, glyph[j], height, 1), Dot, color),
                  MarksEvents(s, GlyphMarks(px + 1, y, glyph[j + 1..], height, 1, 1), Dot, color));
    }

    /** One pass of the outer loop of `char` when scaled: column j of the
        glyph at px; the columns after it are left for px + sizex. */
    method FillGlyphColumn(px: int, y: int, glyph: seq<byte>, j: int, height: int, sizex: int, sizey: int, color: Color)
      requires 0 <= j < |glyph|
      requires Valid() && MarksFit(View(), GlyphMarks(px, y, glyph[j..], height, sizex, sizey), Block(sizex, sizey))
      modifies this`log, caset, raset
      ensures Valid() && View() == old(View())
      ensures MarksFit(View(), GlyphMarks(px + sizex, y, glyph[j + 1..], height, sizex, sizey), Block(sizex, sizey))
      ensures log + MarksEvents(View(), GlyphMarks(px + sizex, y, glyph[j + 1..], height, sizex, sizey), Block(sizex, sizey), color)
           == old(log) + MarksEvents(View(), GlyphMarks(px, y, glyph[j..], height, sizex, sizey), Block(sizex, sizey), color)
    {
      ghost var s := View();
      ghost var b := Block(sizex, sizey);
      hide GlyphMarks, ColumnMarks, MarksFit, MarksEvents;
      GlyphStep(s, px, y, glyph, j, height, sizex, sizey, b, color);
      FillColumn(px, y, glyph[j], height, sizex, sizey, color);
      AppendAssoc(old(log), MarksEvents(s, ColumnMarks(px, y, glyph[j], height, sizey), b, color),
                  MarksEvents(s, GlyphMarks(px + sizex, y, glyph[j + 1..], height, sizex, sizey), b, color));
    }

    /** One pass of the inner loop of `char` without scaling: a pixel at
        (px, py) when the low bit of `c` is set; the n - 1 rows after it
        are left for the byte shifted right, one row lower. */
    method PlotBit(px: int, py: int, c: int, n: int, color: Color)
      requires n > 0
      requires Valid() && MarksFit(View(), ColumnMarks(px, py, c, n, 1), Dot)
      modifies this`log, caset, raset
      ensures Valid() && View() == old(View())
      ensures MarksFit(View(), ColumnMarks(px, py + 1, c / 2, n - 1, 1), Dot)
      ensures log + MarksEvents(View(), ColumnMarks(px, py + 1, c / 2, n - 1, 1), Dot, color)
           == old(log) + MarksEvents(View(), ColumnMarks(px, py, c, n, 1), Dot, color)
    {
      ghost var s := View();
      hide ColumnMarks, MarksFit, MarksEvents, MarkFits, MarkEvents, PixelFits, PixelEvents;
      DotColumnStep(s, px, py, c, n, color);
      ghost var rest := MarksEvents(s, ColumnMarks(px, py + 1, c / 2, n - 1, 1), Dot, color);
      if c % 2 == 1 {
        Pixel(px, py, color);
        AppendAssoc(old(log), PixelEvents(s, px, py, color), rest);
      } else {
        assert [] + rest == rest;
      }
    }

    /** One pass of the inner loop of `char` when scaled: a sizex by sizey
        rectangle at (px, py) when the low bit of `c` is set; the n - 1 rows
        after it are left for the byte shifted right, sizey lower. */
    method FillBit(px: int, py: int, c: int, n: int, sizex: int, sizey: int, color: Color)
      requires n > 0
      requires Valid() && MarksFit(View(), ColumnMarks(px, py, c, n, sizey), Block(sizex, sizey))
      modifies this`log, caset, raset
      ensures Valid() && View() == old(View())
      ensures MarksFit(View(), ColumnMarks(px, py + sizey, c / 2, n - 1, sizey), Block(sizex, sizey))
      ensures log + MarksEvents(View(), ColumnMarks(px, py + sizey, c / 2, n - 1, sizey), Block(sizex, sizey), color)
           == old(log) + MarksEvents(View(), ColumnMarks(px, py, c, n, sizey), Block(sizex, sizey), color)
    {
      ghost var s := View();
      hide ColumnMarks, MarksFit, MarksEvents, MarkFits, MarkEvents, RectFits, RectEvents;
      BlockColumnStep(s, px, py, c, n, sizex, sizey, color);
      ghost var rest := MarksEvents(s, ColumnMarks(px, py + sizey, c / 2, n - 1, sizey), Block(sizex, sizey), color);
      if c % 2 == 1 {
        Rect(px, py, sizex, sizey, color);
        AppendAssoc(old(log), RectEvents(s, px, py, sizex, sizey, color), rest);
      } else {
        assert [] + rest == rest;
      }
    }

    /** `text(x, y, string, font, color, size, x_wrap)`: nothing without a
        font; else one `char` per character at the pen, the pen moving one
        advance right, or to the wrap column one line lower when the next
        character would pass the right edge. */
    method Text(x: int, y: int, str: string, font: Option<Font>, color: Color, size: int, xWrap: Option<int>)
      requires Valid() && (font.Some? ==> TextFits(View(), x, y, str, font.value, size, WrapColumn(x, xWrap)))
      modifies this`log, caset, raset
      ensures Valid()
      ensures log == old(log) + TextCallEvents(View(), x, y, str, font, color, size, xWrap)
    {
      if font.None? {
        assert log + [] == log;
        return;
      }
      var f := font.value;
      var width := Advance(f, size);
      ghost var s := View();
      ghost var wrapX := WrapColumn(x, xWrap);
      ghost var total := old(log) + TextEvents(s, x, y, str, f, color, size, wrapX);
      hide TextEvents, TextFits, CharEvents, CharFits, Advance, LineHeight;
      var px, py := x, y;
      var k := 0;
      assert str[0..] == str;
      while k < |str|
        invariant 0 <= k <= |str|
        invariant Valid() && View() == s
        invariant TextFits(s, px, py, str[k..], f, size, wrapX)
        invariant log + TextEvents(s, px, py, str[k..], f, color, size, wrapX) == total
      {
        TextStepAt(s, px, py, str, k, f, color, size, wrapX);
        ghost var next := NextPen(s, px, py, f, size, wrapX);
        ghost var before := log;
        Char(px, py, str[k], font, color, size, size);
        AppendAssoc(before, CharEvents(s, px, py, str[k] as int, Some(f), color, size, size),
                    TextEvents(s, next.x, next.y, str[k + 1..], f, color, size, wrapX));
        px := px + width;
        if px + width > this.width {
          py := py + LineHeight(f, size);
          if xWrap.Some? {
            px := xWrap.value;
          } else {
            px := x;
          }
        }
        assert Point(px, py) == next;
        k := k + 1;
      }
      TextEnd(s, px, py, str, f, color, size, wrapX);
      assert log + [] == log;
    }
  }
}
