/**
 * One RGBA pixel packed into a 32-bit word, `(a << 24) | (b << 16) | (g << 8) | r`,
 * and the channel extraction `(pixel >> k) & 0xFF` in the two views the pipeline
 * has of a word: the shader's unsigned u32 and JavaScript's signed int32.
 */
module Pixel {
  import opened Bits

  /** One 8-bit colour channel. */
  type Byte = b: int | 0 <= b < 0x100

  /** One 32-bit unsigned word of a `Uint32Array` or a WGSL `array<u32>`. */
  type Word = w: int | 0 <= w < 0x1_0000_0000

  /**
   * The word `(a << 24) | (b << 16) | (g << 8) | r` stores for a pixel, by value:
   * each channel occupies its own byte (see `PackIsBitwiseOr`).
   */
  function Pack(r: Byte, g: Byte, b: Byte, a: Byte): (p: Word)
  {
    a * 0x100_0000 + b * 0x1_0000 + g * 0x100 + r
  }

  /** The packer's bitwise expression computes `Pack`: the three or-ings each add. */
  lemma PackIsBitwiseOr(r: Byte, g: Byte, b: Byte, a: Byte)
    ensures BitOr(BitOr(BitOr(Shl(a, 24), Shl(b, 16)), Shl(g, 8)), r) == Pack(r, g, b, a)
  {
    Pow2Values();
    var ab := a * 0x100 + b;
    var abg := ab * 0x100 + g;
    assert Shl(a, 24) == a * Pow2(24);
    assert Shl(b, 16) == b * 0x1_0000;
    assert Shl(g, 8) == g * 0x100;
    BitOrDisjoint(a, b * 0x1_0000, 24);
    assert BitOr(Shl(a, 24), Shl(b, 16)) == ab * Pow2(16);
    BitOrDisjoint(ab, g * 0x100, 16);
    assert BitOr(ab * Pow2(16), Shl(g, 8)) == abg * Pow2(8);
    BitOrDisjoint(abg, r, 8);
  }

  /** `(pixel >> k) & 0xFFu` on a u32, as the shader computes it. */
  function Channel(p: Word, k: ByteShift): (c: Byte)
  {
    Mask8(Shr(p, k))
  }

  /**
   * `(pixel >> k) & 0xff` in JavaScript: the operand is first converted to a
   * signed 32-bit integer and `>>` is an arithmetic (flooring) shift.
   */
  function JsChannel(p: Word, k: ByteShift): (c: Byte)
  {
    Mask8(Sar(ToInt32(p), k))
  }

  /**
   * The four bytes `pixel & 0xff`, `(pixel >> 8) & 0xff`, `(pixel >> 16) & 0xff`
   * and `(pixel >> 24) & 0xff` that JavaScript writes for one pixel.
   */
  function Unpack(p: Word): (rgba: seq<Byte>)
    ensures |rgba| == 4
  {
    [JsChannel(p, 0), JsChannel(p, 8), JsChannel(p, 16), JsChannel(p, 24)]
  }

  /** Extracting each channel of a packed word gives back that channel. */
  lemma ChannelsOfPack(r: Byte, g: Byte, b: Byte, a: Byte)
    ensures Channel(Pack(r, g, b, a), 0) == r
    ensures Channel(Pack(r, g, b, a), 8) == g
    ensures Channel(Pack(r, g, b, a), 16) == b
    ensures Channel(Pack(r, g, b, a), 24) == a
  {
    ByteDigits(Pack(r, g, b, a), r, g, b, a);
  }

  /** The base-256 digits of a four-digit number. */
  lemma ByteDigits(w: int, r: Byte, g: Byte, b: Byte, a: Byte)
    requires w == a * 0x100_0000 + b * 0x1_0000 + g * 0x100 + r
    ensures w % 0x100 == r && (w / 0x100) % 0x100 == g
    ensures (w / 0x1_0000) % 0x100 == b && w / 0x100_0000 == a
  {
    var high8 := (a * 0x100 + b) * 0x100 + g;
    var high16 := a * 0x100 + b;
    assert w == high8 * 0x100 + r;
    assert w / 0x100 == high8;
    assert w == high16 * 0x1_0000 + (g * 0x100 + r);
    assert w / 0x1_0000 == high16;
    assert w == a * 0x100_0000 + ((b * 0x100 + g) * 0x100 + r);
  }

  /** Every word is the packing of its four channels. */
  lemma PackOfChannels(p: Word)
    ensures Pack(Channel(p, 0), Channel(p, 8), Channel(p, 16), Channel(p, 24)) == p
  {
    var q1, r := p / 0x100, p % 0x100;
    var q2, g := q1 / 0x100, q1 % 0x100;
    var q3, b := q2 / 0x100, q2 % 0x100;
    assert p == q1 * 0x100 + r && q1 < 0x100_0000;
    assert q1 == q2 * 0x100 + g && q2 < 0x1_0000;
    assert q2 == q3 * 0x100 + b && q3 < 0x100;
    assert p == q2 * 0x1_0000 + (g * 0x100 + r);
    assert p / 0x1_0000 == q2;
    assert p == q3 * 0x100_0000 + ((b * 0x100 + g) * 0x100 + r);
    assert p / 0x100_0000 == q3;
  }

  /**
   * JavaScript's signed reading of a channel agrees with the unsigned one:
   * the sign bits that `>>` copies in are masked away by `& 0xff`.
   */
  lemma JsChannelIsChannel(p: Word, k: ByteShift)
    ensures JsChannel(p, k) == Channel(p, k)
  {
    if p >= 0x8000_0000 {
      var v := p - 0x1_0000_0000;
      assert ToInt32(p) == v;
      if k == 0 {
        Mask8Periodic(p, 0x100_0000);
      } else if k == 8 {
        assert v / 0x100 == p / 0x100 - 0x100_0000;
        Mask8Periodic(p / 0x100, 0x1_0000);
      } else if k == 16 {
        assert v / 0x1_0000 == p / 0x1_0000 - 0x1_0000;
        Mask8Periodic(p / 0x1_0000, 0x100);
      } else {
        assert v / 0x100_0000 == p / 0x100_0000 - 0x100;
        Mask8Periodic(p / 0x100_0000, 1);
      }
    }
  }

  /** `& 0xff` only sees the value modulo 256. */
  lemma Mask8Periodic(x: int, m: int)
    ensures Mask8(x - 0x100 * m) == Mask8(x)
  {
  }

  /** Unpacking a packed pixel gives back its four channels, in order. */
  lemma UnpackPack(r: Byte, g: Byte, b: Byte, a: Byte)
    ensures Unpack(Pack(r, g, b, a)) == [r, g, b, a]
  {
    var w := Pack(r, g, b, a);
    ChannelsOfPack(r, g, b, a);
    JsChannelIsChannel(w, 0);
    JsChannelIsChannel(w, 8);
    JsChannelIsChannel(w, 16);
    JsChannelIsChannel(w, 24);
  }

  /** Packing the unpacked bytes of a word gives back the word. */
  lemma PackUnpack(p: Word)
    ensures Pack(Unpack(p)[0], Unpack(p)[1], Unpack(p)[2], Unpack(p)[3]) == p
  {
    JsChannelIsChannel(p, 0);
    JsChannelIsChannel(p, 8);
    JsChannelIsChannel(p, 16);
    JsChannelIsChannel(p, 24);
    PackOfChannels(p);
  }
}
