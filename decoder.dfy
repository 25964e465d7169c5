/**
 * The host-side decoder: the words read back from the device are unpacked,
 * payload word i + 2 into the four RGBA bytes of pixel i, with JavaScript's
 * `pixel & 0xff` and `(pixel >> k) & 0xff`.
 */
module Decoder {
  import opened Pixel
  import opened Packer

  /** The RGBA bytes of the `count` pixels that follow the two header words. */
  function Decoded(count: nat, words: seq<Word>): (data: seq<Byte>)
    requires |words| == count + 2
    ensures |data| == count * 4
  {
    seq(count * 4, j requires 0 <= j < count * 4 => Unpack(words[j / 4 + 2])[j % 4])
  }

  /** The decoder reads only the payload: the header words do not matter. */
  lemma DecodedIgnoresHeader(count: nat, words: seq<Word>, other: seq<Word>)
    requires |words| == |other| == count + 2
    requires words[2..] == other[2..]
    ensures Decoded(count, words) == Decoded(count, other)
  {
    forall j | 0 <= j < count * 4
      ensures Decoded(count, words)[j] == Decoded(count, other)[j]
    {
      assert words[j / 4 + 2] == words[2..][j / 4] == other[2..][j / 4] == other[j / 4 + 2];
    }
  }

  /** Decoding a packed surface gives back every byte of it. */
  lemma DecodedPacked(width: nat, height: nat, data: seq<Byte>)
    requires |data| % 4 == 0
    ensures Decoded(|data| / 4, Packed(width, height, data)) == data
  {
    forall j | 0 <= j < |data|
      ensures Decoded(|data| / 4, Packed(width, height, data))[j] == data[j]
    {
      DecodedPackedAt(width, height, data, j);
    }
  }

  /** Byte j of the surface survives packing and decoding. */
  lemma DecodedPackedAt(width: nat, height: nat, data: seq<Byte>, j: nat)
    requires |data| % 4 == 0 && j < |data|
    ensures Decoded(|data| / 4, Packed(width, height, data))[j] == data[j]
  {
    var words := Packed(width, height, data);
    var i, c := j / 4, j % 4;
    var r, g, b, a := data[4 * i], data[4 * i + 1], data[4 * i + 2], data[4 * i + 3];
    assert words[i + 2] == PackedPayload(data)[i] == Pack(r, g, b, a);
    UnpackPack(r, g, b, a);
    assert data[j] == [r, g, b, a][c];
  }

  /** Byte j of the decoded surface is one channel of the word of its pixel. */
  lemma DecodedIndex(count: nat, words: seq<Word>, j: nat)
    requires |words| == count + 2 && j < count * 4
    ensures Decoded(count, words)[j] == Unpack(words[j / 4 + 2])[j % 4]
  {
  }

  /** Byte c of pixel i is channel c of payload word i + 2. */
  lemma DecodedAt(count: nat, words: seq<Word>, i: nat, c: nat)
    requires |words| == count + 2 && i < count && c < 4
    ensures Decoded(count, words)[4 * i + c] == Unpack(words[i + 2])[c]
  {
    var j := 4 * i + c;
    assert j / 4 == i && j % 4 == c;
  }

  /** The decoded bytes of the first i + 1 pixels extend those of the first i by pixel i. */
  lemma DecodedPrefix(count: nat, words: seq<Word>, i: nat)
    requires |words| == count + 2 && i < count
    ensures Decoded(count, words)[..4 * i + 4] == Decoded(count, words)[..4 * i] + Unpack(words[i + 2])
  {
    DecodedAt(count, words, i, 0);
    DecodedAt(count, words, i, 1);
    DecodedAt(count, words, i, 2);
    DecodedAt(count, words, i, 3);
  }

  /**
   * One pass of the unpack loop: the four bytes of pixel `i` are stored at
   * 4i .. 4i + 3, every other byte keeps its value.
   */
  method StorePixel(data: array<Byte>, i: nat, pixel: Word)
    requires 4 * i + 4 <= data.Length
    modifies data
    ensures data[..4 * i + 4] == old(data[..4 * i]) + Unpack(pixel)
    ensures data[4 * i + 4..] == old(data[4 * i + 4..])
  {
    data[i * 4 + 0] := JsChannel(pixel, 0);
    data[i * 4 + 1] := JsChannel(pixel, 8);
    data[i * 4 + 2] := JsChannel(pixel, 16);
    data[i * 4 + 3] := JsChannel(pixel, 24);
  }

  /** The unpack loop of `runWebGPU`, writing into a fresh RGBA byte array. */
  method DecodePixels(width: nat, height: nat, copy: array<Word>) returns (data: array<Byte>)
    requires copy.Length == PixelCount(width, height) + 2
    ensures fresh(data)
    ensures data[..] == Decoded(PixelCount(width, height), copy[..])
  {
    var count := PixelCount(width, height);
    data := new Byte[count * 4](_ => 0);
    ghost var expected := Decoded(count, copy[..]);
    var i := 0;
    while i < count
      invariant i <= count
      invariant data.Length == count * 4
      invariant data[..4 * i] == expected[..4 * i]
    {
      StorePixel(data, i, copy[i + 2]);
      assert data[..4 * (i + 1)] == expected[..4 * (i + 1)] by {
        DecodedPrefix(count, copy[..], i);
      }
      i := i + 1;
    }
    assert data[..] == data[..4 * count];
  }
}
