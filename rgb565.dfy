/** 16-bit RGB565 colours: `color565` and the colour constants of st7735r.py,
    and the two bytes a colour is sent as. */
module Rgb565 {
  import opened Bus

  /** A packed colour, 0b_RRRR_RGGG_GGGB_BBBB. */
  type Color = c: int | 0 <= c < 0x10000

  const Black: Color := 0x0000
  const Blue: Color := 0x001F
  const Red: Color := 0xF800
  const Green: Color := 0x07E0
  const Cyan: Color := 0x07FF
  const Magenta: Color := 0xF81F
  const Yellow: Color := 0xFFE0
  const White: Color := 0xFFFF

  /** The bit operations of `color565` on 8-bit channels, red-high. */
  function Pack(r: bv8, g: bv8, b: bv8): bv16
  {
    (((r & 0xF8) as bv16) << 8) | (((g & 0xFC) as bv16) << 3) | ((b >> 3) as bv16)
  }

  /** `color565(r, g, b)`: the top five bits of red, six of green and five of
      blue, packed into one 16-bit colour. */
  function Color565(r: bv8, g: bv8, b: bv8): (c: Color)
    ensures c == (r as int / 8) * 2048 + (g as int / 4) * 32 + b as int / 8
  {
    PackValue(r, g, b);
    Pack(r, g, b) as int
  }

  lemma PackValue(r: bv8, g: bv8, b: bv8)
    ensures Pack(r, g, b) as int == (r as int / 8) * 2048 + (g as int / 4) * 32 + b as int / 8
  {
    var p := Pack(r, g, b);
    FieldsOf(p);
    PackFields(r, g, b);
    ShiftDivides(r, 3);
    ShiftDivides(g, 2);
    ShiftDivides(b, 3);
    assert (p >> 11) as int == r as int / 8;
    assert ((p >> 5) & 0x3F) as int == g as int / 4;
    assert (p & 0x1F) as int == b as int / 8;
  }

  lemma FieldsOf(x: bv16)
    ensures x as int == (x >> 11) as int * 2048 + ((x >> 5) & 0x3F) as int * 32 + (x & 0x1F) as int
  {
  }

  lemma RedField(x: bv16)
    ensures (x >> 11) as int == x as int / 2048
  {
  }

  lemma GreenField(x: bv16)
    ensures ((x >> 5) & 0x3F) as int == (x as int / 32) % 64
  {
    FieldsOf(x);
    Digits(x as int, (x >> 11) as int, ((x >> 5) & 0x3F) as int, (x & 0x1F) as int);
  }

  lemma BlueField(x: bv16)
    ensures (x & 0x1F) as int == x as int % 32
  {
    FieldsOf(x);
    Digits(x as int, (x >> 11) as int, ((x >> 5) & 0x3F) as int, (x & 0x1F) as int);
  }

  lemma Digits(n: int, a: int, b: int, c: int)
    requires 0 <= a && 0 <= b < 64 && 0 <= c < 32
    requires n == a * 2048 + b * 32 + c
    ensures n / 32 == a * 64 + b && (n / 32) % 64 == b && n % 32 == c
  {
  }

  lemma PackFields(r: bv8, g: bv8, b: bv8)
    ensures Pack(r, g, b) >> 11 == (r >> 3) as bv16
    ensures (Pack(r, g, b) >> 5) & 0x3F == (g >> 2) as bv16
    ensures Pack(r, g, b) & 0x1F == (b >> 3) as bv16
  {
  }

  lemma ShiftDivides(x: bv8, k: bv8)
    requires k == 2 || k == 3
    ensures (x >> k) as bv16 as int == x as int / (if k == 2 then 4 else 8)
  {
  }

  /** The five red bits of a packed colour. */
  function Red5(c: Color): int { c / 2048 }

  /** The six green bits. */
  function Green6(c: Color): int { (c / 32) % 64 }

  /** The five blue bits. */
  function Blue5(c: Color): int { c % 32 }

  /** Pre-masking the channels the way `color565` itself does changes
      nothing. */
  lemma Color565Masked(r: bv8, g: bv8, b: bv8)
    ensures Color565(r & 0xF8, g & 0xFC, b & 0xFF) == Color565(r, g, b)
  {
    assert Pack(r & 0xF8, g & 0xFC, b & 0xFF) == Pack(r, g, b);
  }

  /** The packed colour carries exactly the top bits of each channel. */
  lemma Color565Channels(r: bv8, g: bv8, b: bv8)
    ensures Red5(Color565(r, g, b)) == r as int / 8
    ensures Green6(Color565(r, g, b)) == g as int / 4
    ensures Blue5(Color565(r, g, b)) == b as int / 8
  {
    var p := Pack(r, g, b);
    RedField(p);
    GreenField(p);
    BlueField(p);
    PackFields(r, g, b);
    ShiftDivides(r, 3);
    ShiftDivides(g, 2);
    ShiftDivides(b, 3);
  }

  /** The 8-bit channels that a packed colour widens back to. */
  function RedOf(c: bv16): bv8 { ((c >> 11) as bv8) << 3 }
  function GreenOf(c: bv16): bv8 { (((c >> 5) & 0x3F) as bv8) << 2 }
  function BlueOf(c: bv16): bv8 { ((c & 0x1F) as bv8) << 3 }

  /** Every 16-bit colour is reached: widening its channels back to eight
      bits and packing them again gives the same colour. */
  lemma Color565Onto(c: bv16)
    ensures Color565(RedOf(c), GreenOf(c), BlueOf(c)) == c as int
  {
    assert Pack(RedOf(c), GreenOf(c), BlueOf(c)) == c;
  }

  /** The named colour constants are the packings of their RGB888 values. */
  lemma ColorConstants()
    ensures Color565(0, 0, 0) == Black
    ensures Color565(0, 0, 255) == Blue
    ensures Color565(255, 0, 0) == Red
    ensures Color565(0, 255, 0) == Green
    ensures Color565(0, 255, 255) == Cyan
    ensures Color565(255, 0, 255) == Magenta
    ensures Color565(255, 255, 0) == Yellow
    ensures Color565(255, 255, 255) == White
  {
  }

  /** `bytearray([color >> 8, color])`: the colour big-endian, the low byte
      being what a byte store keeps of `color`. */
  function ColorBytes(c: Color): (bs: seq<byte>)
    ensures |bs| == 2 && (bs[0] as int) * 256 + bs[1] == c
    ensures bs[0] / 8 == Red5(c)
  {
    var hi := c / 256;
    assert hi < 256;
    [hi, c % 256]
  }
}
