# A verified model of the ST7735R MicroPython display driver

`st7735r.py` drives a small Sitronix ST7735R colour TFT panel over SPI.
The `ST7735R` object holds:

- the panel's own size and offsets;
- the rotated size and offsets that drawing uses;
- two four-byte parameter buffers for the CASET and RASET address commands.

Every public call turns into a sequence of actions on the bus:

- the chip-select line goes low or high;
- the data/command (D/C) line goes low or high;
- an SPI write sends a run of bytes.

The driver never reads anything back. The model therefore describes each
call by the events it appends to a log (`Bus.Event`). It also defines
what the panel makes of those events: the function `Bus.Wire` turns a log
into the stream of command and parameter words the controller receives,
and `Bus.Written` and `Bus.WriteCount` give the raw bytes and the number
of writes.

The modules follow the structure of the driver:

| module | what it holds |
|---|---|
| `Bus` | bytes, bus events, the frames of `cmd` and `data`, and how the panel reads them |
| `Burst` | `_repeat_data`, `_repeat_data_slow` and `_repeat_data_bulk` as event sequences |
| `Rgb565` | `color565`, the colour constants, and the two bytes a colour is sent as |
| `Window` | command opcodes, `_init_rotate`, the MADCTL byte of `rotate`, and the window of `_set_window` |
| `Bresenham` | the two loops of `line` as a walk, and its closed form |
| `Circle` | the integer square root behind `circle` and `circle_outline`, and the outline pixels |
| `Glyph` | fonts, glyph bits, and the pen positions of `text` |
| `Raster` | the events of every drawing call, as functions of the rotated geometry |
| `Driver` | the class `Display`, whose methods update the geometry, the address buffers and the log |

Each method of `Driver.Display` is proved to append exactly the events of
the matching `Raster`, `Burst` or `Window` function. The lemmas beside those
functions prove what the events mean on the wire:

- clipping;
- how many colour copies are sent;
- which pixels a line, circle or glyph covers;
- where each character of a string is placed.

Some quirks of the driver are kept exactly as written:

- `pixel` opens a two-by-two window but sends one colour.
- `hline` and `vline` send as many colour copies as the last column (or
  row) index of their window, `x + w - 1` (or `y + h - 1`), rather than `w`
  (or `h`).
- The remainder loop of `_repeat_data` writes `count % 50` copies
  `count % 50` times.
- `rotate` does not update `rot`.
- Only the right and bottom edges are clipped.

## Model

| member | source | states |
|---|---|---|
| Bus.EventWire | st7735r.py:179-199 | A single event contributes to the wire exactly the bytes of a write, tagged by the current D/C level. A D/C event sets the level. Chip-select events change neither. |
| Bus.SelectWire | st7735r.py:193-199 | Selecting or deselecting puts nothing on the wire, writes nothing and leaves D/C as it was, with or without a chip-select pin. |
| Bus.WireAppend | st7735r.py:179-183 | Playing two event runs in a row: the panel sees the words of the first, then those of the second read from the D/C level the first left behind. |
| Bus.WrittenAppend | st7735r.py:201-216 | The bytes and the write count of two event runs in a row add up. |
| Bus.TagLength | st7735r.py:179-183 | Each byte clocked in is a command when D/C is low and a parameter when it is high, one word per byte. |
| Bus.CmdFrameWire | st7735r.py:201-209 | `cmd(op, data)` reaches the panel as the opcode followed by the payload bytes as parameters, whatever D/C was before. D/C is left high exactly when there was a payload. It takes one write, or two with a payload. |
| Bus.DataFrameWire | st7735r.py:211-216 | `data(d)` reaches the panel as the bytes of d, all as parameters, in one write. D/C is left high. |
| Burst.WritesProps | st7735r.py:222-223 | n identical writes send n back-to-back copies of the chunk in n writes and leave D/C alone; none when n <= 0. |
| Burst.BurstWire | st7735r.py:235-241 | Whatever writes a burst holds, the panel receives exactly their bytes as parameters, and D/C is left high. |
| Burst.BurstShape | st7735r.py:235-241 | A burst raises D/C first and selects the panel once. Everything between select and deselect is a write, and nothing outside it is. |
| Burst.RepeatSent | st7735r.py:229-240 | The batched loop and the remainder loop of `_repeat_data` together send `Sent(count)` copies of the data. |
| Burst.RepeatFrameStream | st7735r.py:226-241 | `_repeat_data` writes `Sent(count)` copies in `count // 50` writes of 50 copies plus `count % 50` remainder writes. All are parameter bytes, and D/C is left high. |
| Burst.RepeatFrameShape | st7735r.py:226-241 | `_repeat_data` is one bus transaction made only of writes. |
| Burst.RepeatFrameBytes | st7735r.py:226-241 | For a count >= 0 it writes `|d| * (50q + m*m)` bytes, with q = count // 50 and m = count % 50. A zero count writes nothing. |
| Burst.SentExact | st7735r.py:229-240 | `_repeat_data` sends exactly `count` copies if and only if the count is >= 0 and leaves a remainder of at most 1 modulo 50. |
| Burst.RepeatSlowStream | st7735r.py:218-224 | `_repeat_data_slow` sends exactly `count` copies as parameters, one write per copy. |
| Burst.RepeatBulkStream | st7735r.py:243-249 | `_repeat_data_bulk` sends exactly `count` copies as parameters in a single write. |
| Burst.RepeatParamsInjective | st7735r.py:226-249 | For non-empty data, two copy counts give the same parameter stream if and only if they are equal. |
| Burst.RepeatVariantsAgree | st7735r.py:218-249 | The slow and bulk variants always agree on the wire. The batched one agrees with them if and only if its remainder modulo 50 is at most 1 (count >= 0) or zero (count < 0). |
| Rgb565.Color565 | st7735r.py:283-286 | `color565(r, g, b)` is the top 5 bits of red times 2048, plus the top 6 of green times 32, plus the top 5 of blue. |
| Rgb565.PackValue | st7735r.py:283-286 | The bit operations of `color565` compute exactly that arithmetic value. |
| Rgb565.Color565Channels | st7735r.py:283-286 | The packed colour's red, green and blue fields are the top bits of the three channels. |
| Rgb565.Color565Masked | st7735r.py:283-286 | Pre-masking the channels with 0xF8, 0xFC and 0xFF does not change the result. |
| Rgb565.Color565Onto | st7735r.py:283-286 | Every 16-bit colour is some `color565(r, g, b)`: widening its fields back to 8 bits and packing them again gives it back. |
| Rgb565.ColorConstants | st7735r.py:46-53 | The eight named colour constants are the packings of their RGB888 values. |
| Rgb565.ColorBytes | st7735r.py:292 | `bytearray([color >> 8, color])` is two bytes whose big-endian value is the colour. The high byte carries the red field. |
| Window.OrientedUpright | st7735r.py:150-162 | `_init_rotate` lays the panel either as built or with width/height and x/y offsets exchanged, and keeps its area. |
| Window.OrientedTurns | st7735r.py:150-162 | One more quarter turn exchanges the axes; a half turn changes nothing, negative rotations included. |
| Window.MadctlMeaning | st7735r.py:164-177 | The MADCTL byte of `rotate(r)` sets the following bits. BGR (bit 3) exactly for a blue-first panel. MV (bit 5) exactly for odd r, which is when the axes are exchanged. MX (bit 6) for r = 1, 2. MY (bit 7) for r = 2, 3. It never sets the low three bits, and the BGR or-ing adds 8. |
| Window.MadctlInjective | st7735r.py:164-177 | Different rotations or colour orders never share a MADCTL byte. |
| Window.AddressWire | st7735r.py:261-266 | CASET or RASET with an address buffer reaches the panel as the opcode, then the two bounds as 16-bit big-endian parameters with zero high bytes, in two writes. |
| Window.WindowWire | st7735r.py:260-267 | `_set_window(x0, y0, x1, y1)` reaches the panel as: CASET from xoff + x0 to xoff + x1, then RASET from yoff + y0 to yoff + y1, then RAMWR. |
| Window.WindowWrites | st7735r.py:260-267 | `_set_window` takes five writes and leaves D/C low. |
| Window.WindowFrameNonEmpty | st7735r.py:260-267 | Setting a window always puts something on the bus. |
| Bresenham.RoundNearest | st7735r.py:366-397 | The rounding the line walk realises is the nearest integer, halves rounded up. |
| Bresenham.ErrorStep | st7735r.py:376-383 | One pass of a loop of `line` keeps the error-term invariant. The invariant makes the plotted minor offset at step k the rounded value of db * k / da. |
| Bresenham.WalkFrom | st7735r.py:370-397 | From step k on, the walk plots da - k pixels. Pixel i is at major offset k + i and minor offset Round(db * (k + i), da). |
| Bresenham.LineClosedForm | st7735r.py:364-397 | A line that is neither vertical nor horizontal plots max(dx, dy) pixels, excluding the endpoint. Pixel i is i steps along the major axis and at the nearest lattice point on the minor axis. |
| Bresenham.RoundSteps | st7735r.py:376-397 | Over the walk the minor offset stays between 0 and db and moves by zero or one per step. |
| Bresenham.LineInBox | st7735r.py:364-397 | Every pixel of such a line lies in the segment's bounding box, and none is the endpoint. |
| Bresenham.LineMoves | st7735r.py:364-397 | From one pixel to the next, the major coordinate steps once toward the endpoint and the minor one at most once. |
| Bresenham.LineSteps | st7735r.py:364-397 | The line starts at (x0, y0). It stays in the bounding box and never plots the endpoint. It moves one unit along the major axis and at most one along the minor axis per step. |
| Circle.ISqrt | st7735r.py:319 | The half chord is the floor square root: r * r <= n < (r + 1) * (r + 1). |
| Circle.ISqrtUnique | st7735r.py:319 | The floor square root is the only such r. |
| Circle.ISqrtMono | st7735r.py:319 | The square root is monotone. |
| Circle.HalfChordBounds | st7735r.py:318-321 | The half chord a of row i puts (a, i) inside the circle and (a + 1, i) outside it, and a < radius. |
| Circle.HalfChordShrinks | st7735r.py:318-321 | Rows further from the centre have a half chord no longer than nearer ones. |
| Circle.RowInside | st7735r.py:318-321 | Every column of the row `hline(x - a, y + i, a * 2)` covers lies inside the circle. |
| Circle.ArcsOnRim | st7735r.py:329-339 | Rows i to radius - 1 of the outline plot 8 pixels each, all on the rim. On the rim means inside the circle, with one step further out along an axis outside it. |
| Circle.OutlineOnRim | st7735r.py:323-339 | `circle_outline` plots 4 + 8(radius - 1) pixels, all on the rim. |
| Glyph.GlyphColumnsExact | st7735r.py:450-457 | For a covered code within the font data, the glyph is exactly the `width` column bytes from `(code - start) * width`. |
| Glyph.ColumnMarksCells | st7735r.py:462-471 | The marks of one column are its set bits, from the top row down, placed on the grid. |
| Glyph.GlyphMarksCells | st7735r.py:462-482 | The marks of a glyph are its set cells, column by column, placed on a grid of step (1, 1) unscaled or (sizex, sizey) scaled. |
| Glyph.PlacedAppend | st7735r.py:462-482 | Placing the cells of two parts of a glyph is placing each in turn. |
| Glyph.ColumnCellsExact | st7735r.py:463-471 | A column marks row r if and only if bit r of its byte is set and r < height, in increasing row order. |
| Glyph.GlyphCellsMembers | st7735r.py:462-482 | A glyph marks cell (col, r) if and only if col is one of its columns, r < height and bit r of that column byte is set. |
| Glyph.GlyphCellsBounds | st7735r.py:462-482 | Every marked cell is within the glyph's columns and among the 8 rows a byte holds. |
| Glyph.GlyphCellsOrdered | st7735r.py:462-482 | Marks come column by column, each column from top to bottom. |
| Glyph.PensRule | st7735r.py:428-440 | The pens of `text` start at (x, y). Each next pen is either one advance to the right, staying within the width, or at the wrap column one line lower when the following character would pass the right edge. |
| Glyph.PensStep | st7735r.py:430-440 | The first pen is (px, y); the rest start from the pen after the first character. |
| Raster.PixelWire | st7735r.py:288-292 | `pixel` addresses the 2x2 window at (x, y) but sends only the colour's two bytes. |
| Raster.ClipBounds | st7735r.py:303-310 | Clipping a span that starts before the edge keeps it inside, never lengthens it, and leaves a fitting span alone. |
| Raster.RectClipping | st7735r.py:300-313 | `rect` sends nothing if and only if (x, y) is past the right or bottom edge. Otherwise it sends the window clipped to the last column and row, then Sent(w' * h') colour copies for the clipped size. |
| Raster.HLineClipping | st7735r.py:399-407 | `hline` sends nothing if and only if (x, y) is off the surface. Otherwise it sends the clipped one-row window, then Sent(x + w' - 1) colour copies, the window's last column index. |
| Raster.VLineClipping | st7735r.py:409-417 | The same for `vline` on the y axis, with Sent(y + h' - 1) copies. |
| Raster.FillShape | st7735r.py:269-271 | `fill` is an unclipped `rect` over the whole surface: the full window, then the `_repeat_data` burst for count width * height, which sends `Sent(width * height)` copies. |
| Raster.FillsAgree | st7735r.py:269-281 | `fill_slow` and `fill_bulk` put the same words on the wire. `fill` agrees with them if and only if width * height leaves a remainder of at most 1 modulo 50. |
| Raster.AxisLineSymmetric | st7735r.py:352-362 | A vertical or horizontal `line` draws the same events whichever end is given first. |
| Raster.CircleRowsInside | st7735r.py:318-321 | Every column the clipped row window of `circle` reaches lies inside the circle. |
| Raster.CharCells | st7735r.py:459-482 | `char` marks the set cells of the glyph: one pixel each when neither size exceeds 1, one sizex by sizey rectangle each otherwise. |
| Raster.TextStep | st7735r.py:429-440 | One pass of the `text` loop: the character at the pen, then the rest of the string from the next pen. |
| Raster.TextAtPens | st7735r.py:419-440 | `text` is one `char` per character, each at the pen `Glyph.Pens` gives for its index. |
| Raster.MarksAppend | st7735r.py:329-339 | The marks of two point runs in a row fit if and only if both runs fit, and their events are those of one run, then of the other. |
| Driver.Display.constructor | st7735r.py:55-72 | Records the configuration and lays out the panel for `rot`. Both address buffers are fresh and zero, and nothing is sent. |
| Driver.Display.InitRotate | st7735r.py:150-162 | Sets the rotated geometry to `Oriented(w, h, x, y, r)`. |
| Driver.Display.Rotate | st7735r.py:164-177 | Lays out the panel for r and sends MADCTL with `Madctl(r, bgr)`. `rot` is left unchanged. |
| Driver.Display.LowerDc | st7735r.py:179-180 | Appends D/C low. |
| Driver.Display.RaiseDc | st7735r.py:182-183 | Appends D/C high. |
| Driver.Display.LowerCs | st7735r.py:193-195 | Appends chip-select low only when there is a pin. |
| Driver.Display.RaiseCs | st7735r.py:197-199 | Appends chip-select high only when there is a pin. |
| Driver.Display.SpiWrite | st7735r.py:205 | Appends one write. |
| Driver.Display.Cmd | st7735r.py:201-209 | Appends the command frame; `Bus.CmdFrameWire` gives its meaning. |
| Driver.Display.Data | st7735r.py:211-216 | Appends the data frame; `Bus.DataFrameWire` gives its meaning. |
| Driver.Display.RepeatData | st7735r.py:226-241 | Appends the batched burst; see `Burst.RepeatFrameStream`. |
| Driver.Display.RepeatDataSlow | st7735r.py:218-224 | Appends one write per copy, inside one burst. |
| Driver.Display.RepeatDataBulk | st7735r.py:243-249 | Appends one write of all copies, inside one burst. |
| Driver.Display.SoftReset | st7735r.py:146-148 | Appends SWRESET with no payload. |
| Driver.Display.Sleep | st7735r.py:251-252 | Appends SLPIN when asked to sleep, SLPOUT otherwise. |
| Driver.Display.Power | st7735r.py:254-255 | Appends DISPON when on, DISPOFF otherwise. |
| Driver.Display.Invert | st7735r.py:257-258 | Appends INVON when asked to invert, INVOFF otherwise. |
| Driver.Display.SetWindow | st7735r.py:260-267 | Stores the shifted corners in bytes 1 and 3 of both address buffers and appends the window frame. The buffers' other bytes stay zero. |
| Driver.Display.Fill | st7735r.py:269-271 | Appends the events of `fill`; see `Raster.FillShape` and `Raster.FillsAgree`. |
| Driver.Display.FillSlow | st7735r.py:273-276 | Appends the full window and one write per pixel. |
| Driver.Display.FillBulk | st7735r.py:278-281 | Appends the full window and a single write of all pixels. |
| Driver.Display.Pixel | st7735r.py:288-292 | Appends the events of `pixel`; see `Raster.PixelWire`. The geometry is unchanged. |
| Driver.Display.Rect | st7735r.py:300-313 | Appends the events of `rect`; see `Raster.RectClipping`. |
| Driver.Display.HLine | st7735r.py:399-407 | Appends the events of `hline`; see `Raster.HLineClipping`. |
| Driver.Display.VLine | st7735r.py:409-417 | Appends the events of `vline`; see `Raster.VLineClipping`. |
| Driver.Display.RectOutline | st7735r.py:294-298 | Appends the top, right, bottom and left lines in that order. |
| Driver.Display.Line | st7735r.py:350-397 | Appends the events of `line`: one `vline` or `hline` from the lower end for an axis line, otherwise one pixel per point of the walk whose closed form `Bresenham.LineClosedForm` gives. |
| Driver.Display.StepAlongX | st7735r.py:372-383 | The loop along x appends one pixel per point of `Bresenham.Walk`. |
| Driver.Display.StepAlongY | st7735r.py:386-397 | The loop along y appends one pixel per point of `Bresenham.Walk`. |
| Driver.Display.TriangleOutline | st7735r.py:341-345 | Appends the three connected lines. |
| Driver.Display.Circle | st7735r.py:315-321 | Appends the middle row, then for each row the rows below and above; see `Circle.RowInside`. |
| Driver.Display.CircleOutline | st7735r.py:323-339 | Appends one pixel per outline point, in order; see `Circle.OutlineOnRim`. |
| Driver.Display.OutlineEnds | st7735r.py:325-328 | After the four extreme pixels, the outline rows are what remains to append. |
| Driver.Display.EndPixels | st7735r.py:325-328 | Appends the four extreme pixels. |
| Driver.Display.OutlineRow | st7735r.py:329-339 | One loop pass appends row i; the rows after i remain. |
| Driver.Display.ArcPixels | st7735r.py:332-339 | Appends the eight pixels of one row. |
| Driver.Display.Char | st7735r.py:442-484 | Appends nothing without a font or for a code the font does not cover. Otherwise appends one pixel, or one sizex by sizey rectangle, per set bit of the glyph; see `Raster.CharCells`. |
| Driver.Display.PlotGlyph | st7735r.py:462-472 | The unscaled outer loop appends the marks of every column, moving one column right each time. |
| Driver.Display.FillGlyph | st7735r.py:475-482 | The scaled outer loop appends the marks of every column, moving sizex right each time. |
| Driver.Display.PlotColumn | st7735r.py:464-471 | The unscaled inner loop appends one pixel per set bit of the column, from the top row down. |
| Driver.Display.FillColumn | st7735r.py:477-481 | The scaled inner loop appends one rectangle per set bit, moving sizey down each time. |
| Driver.Display.PlotGlyphColumn | st7735r.py:463-472 | One outer-loop pass appends column j; the columns after it remain for px + 1. |
| Driver.Display.FillGlyphColumn | st7735r.py:476-482 | One outer-loop pass appends column j; the columns after it remain for px + sizex. |
| Driver.Display.PlotBit | st7735r.py:466-470 | One inner-loop pass appends a pixel when the low bit is set; the shifted byte remains, one row lower. |
| Driver.Display.FillBit | st7735r.py:479-481 | One inner-loop pass appends a rectangle when the low bit is set; the shifted byte remains, sizey lower. |
| Driver.Display.Text | st7735r.py:419-440 | Appends nothing without a font. Otherwise appends one `char` per character at its pen; see `Raster.TextAtPens` and `Glyph.PensRule`. |

## Left out

- The SPI, D/C, CS and RST pins are not modelled as objects. The bus is an event log, and `_cs_low`/`_cs_high` depend only on whether a CS pin was given.
- `init`, `hard_reset`, `_rst_low` and `_rst_high` are left out. They consist of pin toggling, delays and the fixed power-up command table, with nothing to prove beyond the bytes themselves.
- The `sleep_ms` delays (in `soft_reset` and elsewhere) are left out: time is not modelled.
- `math.sqrt` is modelled as the exact integer floor square root (`Circle.ISqrt`). For large radii a float square root could round differently; floating point is not modelled.
- `const()` and the command constants not used by the modelled calls are left out.
- Driver.Display.Rotate: requires 0 <= r <= 3. For any other r the source reads `madctl` before assigning it, which raises an error; that error is not modelled.
- Driver.Display.Power, Driver.Display.Sleep, Driver.Display.Invert: take a bool. The source accepts any value and tests its truthiness; `power`'s default `None` means off.
- Default arguments are not modelled; every argument is passed explicitly. The defaults are `rotate(r=0)`, `fill`, `fill_slow` and `fill_bulk` with `color=COLOR_WHITE`, `sleep(sleep=False)`, `power(on=None)`, `invert(invert=True)`, `char(sizex=1, sizey=1)` and `text(size=1, x_wrap=None)`.
- Driver.Display.Sleep, Driver.Display.Power, Driver.Display.Invert: they only send commands and update no flag, as in the source. `inv` records only the constructor argument.
- Driver.Display.SetWindow: requires every shifted coordinate to fit a byte (`Window.WindowFits`). MicroPython keeps only the low byte (v % 256) of an integer stored into `_caset` or `_raset`. The model does not capture this wrap-around: it excludes those inputs through `Window.WindowFits`, so a window past column or row 255 (after the offset) on a large panel is not covered. Every drawing method inherits this byte-fit precondition through its `...Fits` predicate.
- Driver.Display.Pixel: colours are 16-bit values (`Rgb565.Color`). The low byte stored by `bytearray([color >> 8, color])` is `color % 256`, and other colour values are not modelled.
- Driver.Display.Char: the font object is a datatype `Glyph.Font` of its start, end, width, height and bytes, in place of the methods the source calls on it. A slice beyond the font data is modelled with Python's clamping (`Glyph.Slice`).
- Driver.Display.Char: `c & 0x01` and `c >>= 1` on a column byte are modelled as `c % 2` and `c / 2`, which agree on non-negative values.
- Negative coordinates are not clipped, as in the source. They reach the byte-fit precondition, which covers every value actually stored.
- The loop bodies of `line`, `circle_outline` and `char` are separate methods (`StepAlongX`, `StepAlongY`, `OutlineRow`, `PlotGlyphColumn`, `PlotBit`, and so on). Each is proved against the same remaining-events specification as the loop that calls it.
- The `caset` and `raset` buffers are separate arrays owned by the display, as in the source. No other object holds them, so aliasing is not modelled.
- The contents of `caset` and `raset` after a drawing call are not specified beyond `Valid()`. Each call's `_set_window` rewrites them before they are sent, so nothing on the bus depends on them; only `Driver.Display.SetWindow` states their new bytes.
