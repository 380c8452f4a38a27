/** What a drawing call needs to know about the panel, the ST7735R command
    bytes the driver uses, the address window of `_set_window` and the
    orientation of `_init_rotate` and `rotate` in st7735r.py. */
module Window {
  import opened Bus

  // Command opcodes of the Sitronix ST7735R controller used by the driver.
  const SWRESET: byte := 0x01
  const SLPIN: byte := 0x10
  const SLPOUT: byte := 0x11
  const INVOFF: byte := 0x20
  const INVON: byte := 0x21
  const DISPOFF: byte := 0x28
  const DISPON: byte := 0x29
  const CASET: byte := 0x2A
  const RASET: byte := 0x2B
  const RAMWR: byte := 0x2C
  const MADCTL: byte := 0x36

  /** A pixel position in the rotated coordinates drawing calls use. */
  datatype Point = Point(x: int, y: int)

  /** The logical size and panel offsets after rotation. */
  datatype Geometry = Geometry(width: int, height: int, xoff: int, yoff: int)

  /** The part of the driver's state a drawing call reads: whether there is
      a chip-select pin, and the rotated geometry. */
  datatype Surface = Surface(hasCs: bool, width: int, height: int, xoff: int, yoff: int)

  /** `_init_rotate(r)`: the panel's own size and offsets for an even
      rotation, the same with the axes exchanged for an odd one (`r & 1` is
      `r % 2` for every integer, negative ones included). */
  function Oriented(w: int, h: int, x: int, y: int, r: int): Geometry
  {
    if r % 2 == 0 then Geometry(w, h, x, y) else Geometry(h, w, y, x)
  }

  /** Exchanging the axes. */
  function Transposed(g: Geometry): Geometry
  {
    Geometry(g.height, g.width, g.yoff, g.xoff)
  }

  /** One of the two ways the panel can be laid: as built, or turned a
      quarter. */
  predicate Upright(g: Geometry, w: int, h: int, x: int, y: int)
  {
    g == Geometry(w, h, x, y) || g == Geometry(h, w, y, x)
  }

  /** Every rotation lays the panel one of the two ways, and keeps its area. */
  lemma OrientedUpright(w: int, h: int, x: int, y: int, r: int)
    ensures Upright(Oriented(w, h, x, y, r), w, h, x, y)
    ensures Oriented(w, h, x, y, r).width * Oriented(w, h, x, y, r).height == w * h
  {
  }

  /** A quarter turn exchanges the axes; a half turn changes nothing. */
  lemma OrientedTurns(w: int, h: int, x: int, y: int, r: int)
    ensures Oriented(w, h, x, y, r + 1) == Transposed(Oriented(w, h, x, y, r))
    ensures Oriented(w, h, x, y, r + 2) == Oriented(w, h, x, y, r)
    ensures Transposed(Transposed(Oriented(w, h, x, y, r))) == Oriented(w, h, x, y, r)
  {
  }

  /** The MADCTL byte of `rotate(r)` without the colour-order bit: tab on
      the left, bottom, right, top. */
  function MadctlBase(r: int): bv8
    requires 0 <= r < 4
  {
    if r == 0 then 0x00 else if r == 1 then 0x60 else if r == 2 then 0xC0 else 0xA0
  }

  /** The MADCTL byte of `rotate(r)`: the table entry, with the BGR bit 0x08
      or-ed in when the panel is wired blue-first. */
  function Madctl(r: int, bgr: bool): byte
    requires 0 <= r < 4
  {
    (MadctlBase(r) | (if bgr then 0x08 else 0x00)) as int
  }

  /** The meaning of the MADCTL byte in the ST7735R command set: bit 3 (BGR)
      is set exactly for a blue-first panel; bit 5 (MV, exchange rows and
      columns) exactly for an odd rotation, that is exactly when
      `_init_rotate` exchanges width and height; bit 6 (MX, mirror
      columns) for rotations 1 and 2; bit 7 (MY, mirror rows) for 2 and 3;
      the low three bits are never set. The or-ing adds 8 when bgr is set. */
  lemma MadctlMeaning(r: int, bgr: bool)
    requires 0 <= r < 4
    ensures Bit(Madctl(r, bgr), 3) <==> bgr
    ensures Bit(Madctl(r, bgr), 5) <==> r % 2 == 1
    ensures Bit(Madctl(r, bgr), 6) <==> (r == 1 || r == 2)
    ensures Bit(Madctl(r, bgr), 7) <==> r >= 2
    ensures Madctl(r, bgr) % 8 == 0
    ensures Madctl(r, bgr) == MadctlBase(r) as int + (if bgr then 8 else 0)
  {
    var m := Madctl(r, bgr);
    if r == 0 {
      if bgr { assert m == 0x08; } else { assert m == 0x00; }
    } else if r == 1 {
      if bgr { assert m == 0x68; } else { assert m == 0x60; }
    } else if r == 2 {
      if bgr { assert m == 0xC8; } else { assert m == 0xC0; }
    } else {
      if bgr { assert m == 0xA8; } else { assert m == 0xA0; }
    }
  }

  /** Different rotations or colour orders never share a MADCTL byte. */
  lemma MadctlInjective(r1: int, bgr1: bool, r2: int, bgr2: bool)
    requires 0 <= r1 < 4 && 0 <= r2 < 4
    ensures Madctl(r1, bgr1) == Madctl(r2, bgr2) <==> r1 == r2 && bgr1 == bgr2
  {
    MadctlMeaning(r1, bgr1);
    MadctlMeaning(r2, bgr2);
  }

  /** The window coordinates, shifted by the panel offsets, must fit the
      address bytes they are stored into. */
  predicate WindowFits(s: Surface, x0: int, y0: int, x1: int, y1: int)
  {
    IsByte(s.xoff + x0) && IsByte(s.xoff + x1) && IsByte(s.yoff + y0) && IsByte(s.yoff + y1)
  }

  /** The four parameter bytes of CASET or RASET: start and end, each a
      16-bit big-endian value whose high byte stays zero. */
  function Address(lo: byte, hi: byte): seq<byte>
  {
    [0, lo, 0, hi]
  }

  /** The events of `_set_window(x0, y0, x1, y1)`: CASET with the columns,
      RASET with the rows, then RAMWR with no payload. */
  function WindowFrame(s: Surface, x0: int, y0: int, x1: int, y1: int): seq<Event>
    requires WindowFits(s, x0, y0, x1, y1)
  {
    CmdFrame(s.hasCs, Some(CASET), Some(Address(s.xoff + x0, s.xoff + x1)))
    + CmdFrame(s.hasCs, Some(RASET), Some(Address(s.yoff + y0, s.yoff + y1)))
    + CmdFrame(s.hasCs, Some(RAMWR), None)
  }

  /** Setting a window always puts something on the bus. */
  lemma WindowFrameNonEmpty(s: Surface, x0: int, y0: int, x1: int, y1: int)
    requires WindowFits(s, x0, y0, x1, y1)
    ensures WindowFrame(s, x0, y0, x1, y1) != []
  {
    assert |CmdFrame(s.hasCs, Some(RAMWR), None)| >= 2;
  }

  /** An address command as the panel reads it: the opcode, then the two
      bounds as 16-bit big-endian parameter pairs with a zero high byte. */
  function AddressWords(op: byte, lo: byte, hi: byte): seq<Word>
  {
    [Command(op), Param(0), Param(lo), Param(0), Param(hi)]
  }

  /** CASET or RASET with an address range, as the panel receives it. */
  lemma AddressWire(hasCs: bool, op: byte, lo: byte, hi: byte, dc: bool)
    ensures Wire(CmdFrame(hasCs, Some(op), Some(Address(lo, hi))), dc) == AddressWords(op, lo, hi)
    ensures DcAfter(CmdFrame(hasCs, Some(op), Some(Address(lo, hi))), dc)
    ensures WriteCount(CmdFrame(hasCs, Some(op), Some(Address(lo, hi)))) == 2
  {
    CmdFrameWire(hasCs, op, Some(Address(lo, hi)), dc);
    TagLength(Address(lo, hi), true);
  }

  /** What the panel receives from `_set_window`: CASET with the column range
      from xoff + x0 to xoff + x1, RASET with the row range from yoff + y0 to
      yoff + y1, then the memory-write command. */
  lemma WindowWire(s: Surface, x0: int, y0: int, x1: int, y1: int, dc: bool)
    requires WindowFits(s, x0, y0, x1, y1)
    ensures Wire(WindowFrame(s, x0, y0, x1, y1), dc)
         == AddressWords(CASET, s.xoff + x0, s.xoff + x1) + AddressWords(RASET, s.yoff + y0, s.yoff + y1)
            + [Command(RAMWR)]
  {
    var cas := CmdFrame(s.hasCs, Some(CASET), Some(Address(s.xoff + x0, s.xoff + x1)));
    var ras := CmdFrame(s.hasCs, Some(RASET), Some(Address(s.yoff + y0, s.yoff + y1)));
    var ram := CmdFrame(s.hasCs, Some(RAMWR), None);
    assert WindowFrame(s, x0, y0, x1, y1) == cas + ras + ram;
    hide *;
    AddressWire(s.hasCs, CASET, s.xoff + x0, s.xoff + x1, dc);
    AddressWire(s.hasCs, RASET, s.yoff + y0, s.yoff + y1, true);
    CmdFrameWire(s.hasCs, RAMWR, None, true);
    WireAppend(cas + ras, ram, dc);
    WireAppend(cas, ras, dc);
  }

  /** `_set_window` takes five writes and leaves D/C low, whatever it was. */
  lemma WindowWrites(s: Surface, x0: int, y0: int, x1: int, y1: int, dc: bool)
    requires WindowFits(s, x0, y0, x1, y1)
    ensures !DcAfter(WindowFrame(s, x0, y0, x1, y1), dc)
    ensures WriteCount(WindowFrame(s, x0, y0, x1, y1)) == 5
  {
    var cas := CmdFrame(s.hasCs, Some(CASET), Some(Address(s.xoff + x0, s.xoff + x1)));
    var ras := CmdFrame(s.hasCs, Some(RASET), Some(Address(s.yoff + y0, s.yoff + y1)));
    var ram := CmdFrame(s.hasCs, Some(RAMWR), None);
    assert WindowFrame(s, x0, y0, x1, y1) == cas + ras + ram;
    hide *;
    AddressWire(s.hasCs, CASET, s.xoff + x0, s.xoff + x1, dc);
    AddressWire(s.hasCs, RASET, s.yoff + y0, s.yoff + y1, true);
    CmdFrameWire(s.hasCs, RAMWR, None, true);
    WireAppend(cas + ras, ram, dc);
    WireAppend(cas, ras, dc);
    WrittenAppend(cas + ras, ram);
    WrittenAppend(cas, ras);
  }
}
