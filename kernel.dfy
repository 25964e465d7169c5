/**
 * The WGSL compute kernel `main`: one invocation per grid coordinate (x, y)
 * reads the header of the input buffer, returns early when (x, y) lies
 * outside the image, and otherwise stores the grayscale of pixel (x, y) at
 * the same index of the output buffer.
 */
module Kernel {
  import opened Bits
  import opened Pixel
  import opened Wrappers

  /**
   * A buffer as the pipeline lays it out: a header (width, height) followed by
   * width * height pixel words, short enough to be indexed by a u32.
   */
  predicate WellFormed(buffer: seq<Word>)
  {
    2 <= |buffer| <= WordModulus && (buffer[0] as int) * buffer[1] + 2 == |buffer|
  }

  /** `u32((r + g + b) / 3.0)`: the unweighted mean of the colour channels, truncated. */
  function Gray(r: Byte, g: Byte, b: Byte): (gray: Byte)
  {
    (r + g + b) / 3
  }

  /** The gray value is the mean rounded down, so a channel repeated three times is its own gray. */
  lemma GrayIsMean(r: Byte, g: Byte, b: Byte)
    ensures 3 * Gray(r, g, b) <= r + g + b < 3 * Gray(r, g, b) + 3
    ensures r == g == b ==> Gray(r, g, b) == r
  {
  }

  /**
   * The word the kernel stores for input word `p`: alpha kept, gray in r, g and b.
   * The shader's `(a << 24u) | (gray << 16u) | (gray << 8u) | gray` is `Pack` of
   * those bytes by `PackIsBitwiseOr`.
   */
  function GrayPixel(p: Word): (q: Word)
  {
    var r := Channel(p, 0);
    var g := Channel(p, 8);
    var b := Channel(p, 16);
    var a := Channel(p, 24);
    var gray := Gray(r, g, b);
    Pack(gray, gray, gray, a)
  }

  /** The stored word keeps the alpha channel and carries the gray value in each colour channel. */
  lemma GrayPixelChannels(p: Word)
    ensures Channel(GrayPixel(p), 24) == Channel(p, 24)
    ensures Channel(GrayPixel(p), 0) == Channel(GrayPixel(p), 8) == Channel(GrayPixel(p), 16)
            == Gray(Channel(p, 0), Channel(p, 8), Channel(p, 16))
  {
    var gray := Gray(Channel(p, 0), Channel(p, 8), Channel(p, 16));
    ChannelsOfPack(gray, gray, gray, Channel(p, 24));
  }

  /** A word is left alone by the kernel exactly when its three colour channels agree. */
  lemma GrayPixelFixed(p: Word)
    ensures GrayPixel(p) == p <==> Channel(p, 0) == Channel(p, 8) == Channel(p, 16)
  {
    GrayPixelChannels(p);
    if Channel(p, 0) == Channel(p, 8) == Channel(p, 16) {
      GrayIsMean(Channel(p, 0), Channel(p, 8), Channel(p, 16));
      PackOfChannels(p);
    }
  }

  /** Grayscaling an already gray word changes nothing. */
  lemma GrayPixelIdempotent(p: Word)
    ensures GrayPixel(GrayPixel(p)) == GrayPixel(p)
  {
    GrayPixelChannels(p);
    GrayPixelFixed(GrayPixel(p));
  }

  /** The store one invocation performs: `outputPixels[index] = value`. */
  datatype Store = Store(index: nat, value: Word)

  /** Pixel (x, y) of a row-major image of the given width sits before index width * height. */
  lemma PixelIndexBound(width: nat, height: nat, x: nat, y: nat)
    requires x < width && y < height
    ensures 0 <= y * width && y * width + x < width * height
  {
    assert (y + 1) * width <= height * width by {
      assert y + 1 <= height;
    }
  }

  /** The u32 arithmetic of `idx` does not wrap for a pixel inside a well-formed buffer. */
  lemma PixelIndexNoWrap(width: nat, height: nat, x: nat, y: nat, length: nat)
    requires x < width && y < height
    requires width * height + 2 == length <= WordModulus
    ensures (y * width + x + 2) % 0x1_0000_0000 == y * width + x + 2 < length
  {
    PixelIndexBound(width, height, x, y);
  }

  lemma MulMonotone(a: nat, b: nat, c: nat)
    requires a <= b
    ensures a * c <= b * c
  {
  }

  /** A row-major index determines its column and row. */
  lemma RowMajorUnique(width: nat, x1: nat, y1: nat, x2: nat, y2: nat)
    requires x1 < width && x2 < width
    requires y1 * width + x1 == y2 * width + x2
    ensures x1 == x2 && y1 == y2
  {
    if y1 < y2 {
      MulMonotone(y1 + 1, y2, width);
      assert false;
    } else if y2 < y1 {
      MulMonotone(y2 + 1, y1, width);
      assert false;
    }
  }

  /**
   * The body of `main` at `GlobalId = (x, y)`: nothing when out of range,
   * otherwise the store at `idx = y * width + x + 2u`, computed in u32.
   */
  function Invocation(input: seq<Word>, x: nat, y: nat): (s: Option<Store>)
    requires WellFormed(input)
    ensures s.None? <==> x >= input[0] || y >= input[1]
    ensures s.Some? ==> 2 <= s.value.index < |input|
                        && s.value.index == y * input[0] + x + 2
                        && s.value.value == GrayPixel(input[s.value.index])
  {
    var width: nat := input[0];
    var height: nat := input[1];
    if x >= width || y >= height then None
    else
      var idx := (y * width + x + 2) % 0x1_0000_0000;
      PixelIndexNoWrap(width, height, x, y, |input|);
      assert 2 <= idx < |input|;
      Some(Store(idx, GrayPixel(input[idx])))
  }

  /** Distinct in-range invocations store to distinct indices. */
  lemma InvocationInjective(input: seq<Word>, x1: nat, y1: nat, x2: nat, y2: nat)
    requires WellFormed(input)
    requires Invocation(input, x1, y1).Some? && Invocation(input, x2, y2).Some?
    requires Invocation(input, x1, y1).value.index == Invocation(input, x2, y2).value.index
    ensures x1 == x2 && y1 == y2
  {
    var width: nat := input[0];
    assert x1 < width && x2 < width;
    RowMajorUnique(width, x1, y1, x2, y2);
  }
}
