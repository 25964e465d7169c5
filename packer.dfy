/**
 * The host-side packer: an RGBA byte surface becomes a `Uint32Array` holding
 * a two-word header (width, height) followed by one packed word per pixel.
 */
module Packer {
  import opened Bits
  import opened Pixel

  /**
   * `width * height`, the number of pixels of a surface, written as repeated
   * addition; `PixelCountIsProduct` states that it is the product.
   */
  function PixelCount(width: nat, height: nat): (count: nat)
  {
    if height == 0 then 0 else PixelCount(width, height - 1) + width
  }

  /** The repeated addition is the product `image.width * image.height` of `runWebGPU`. */
  lemma {:induction false} PixelCountIsProduct(width: nat, height: nat)
    ensures PixelCount(width, height) == width * height
  {
    if height > 0 {
      PixelCountIsProduct(width, height - 1);
    }
  }

  /** Storing a number into a `Uint32Array` element keeps it modulo 2^32. */
  function Header(n: nat): (w: Word)
    ensures n < WordModulus ==> w == n
  {
    n % WordModulus
  }

  /** One packed word per RGBA quadruple of `data`, in order. */
  function PackedPayload(data: seq<Byte>): (words: seq<Word>)
    requires |data| % 4 == 0
    ensures |words| * 4 == |data|
  {
    seq(|data| / 4, i requires 0 <= i < |data| / 4 =>
          Pack(data[4 * i], data[4 * i + 1], data[4 * i + 2], data[4 * i + 3]))
  }

  /** The packed buffer for a `width` x `height` surface of RGBA bytes. */
  function Packed(width: nat, height: nat, data: seq<Byte>): (words: seq<Word>)
    requires |data| % 4 == 0
    ensures |words| == |data| / 4 + 2
    ensures words[0] == Header(width) && words[1] == Header(height)
    ensures words[2..] == PackedPayload(data)
  {
    [Header(width), Header(height)] + PackedPayload(data)
  }

  /** Payload word i + 2 holds pixel i's channels, alpha in the top byte and red in the bottom one. */
  lemma PackedWord(width: nat, height: nat, data: seq<Byte>, i: nat)
    requires |data| % 4 == 0 && 4 * i + 4 <= |data|
    ensures Packed(width, height, data)[i + 2]
            == (data[4 * i + 3] as int) * 0x100_0000 + (data[4 * i + 2] as int) * 0x1_0000
               + (data[4 * i + 1] as int) * 0x100 + data[4 * i] as int
  {
    assert Packed(width, height, data)[i + 2] == PackedPayload(data)[i];
  }

  /** The pack loop of `runWebGPU`: header first, then pixel i into word i + 2. */
  method PackPixels(width: nat, height: nat, data: array<Byte>) returns (pixels: array<Word>)
    requires data.Length == PixelCount(width, height) * 4
    ensures fresh(pixels)
    ensures pixels[..] == Packed(width, height, data[..])
  {
    var count := PixelCount(width, height);
    ghost var payload := PackedPayload(data[..]);
    assert |payload| == count;
    pixels := new Word[count + 2](_ => 0);
    pixels[0] := Header(width);
    pixels[1] := Header(height);
    var i := 0;
    while i < count
      invariant i <= count && pixels.Length == count + 2
      invariant pixels[0] == Header(width) && pixels[1] == Header(height)
      invariant forall j :: 0 <= j < i ==> pixels[j + 2] == payload[j]
    {
      var r := data[i * 4 + 0];
      var g := data[i * 4 + 1];
      var b := data[i * 4 + 2];
      var a := data[i * 4 + 3];
      assert payload[i] == Pack(r, g, b, a) by {
        assert data[..][4 * i] == r && data[..][4 * i + 1] == g;
        assert data[..][4 * i + 2] == b && data[..][4 * i + 3] == a;
      }
      pixels[i + 2] := Pack(r, g, b, a);
      i := i + 1;
    }
    assert forall j :: 2 <= j < count + 2 ==> pixels[j] == payload[j - 2];
    assert pixels[..] == [Header(width), Header(height)] + payload;
  }
}
